/** The client module: it reshapes the provider's payloads into `Track`, `PlaybackState` and
    `NowPlaying`, builds the Basic credential, and decides what `getNowPlaying` returns. The
    network calls are left out: their results are parameters. */
module Spotify {
  import opened Wrappers
  import opened Bytes
  import opened SpotifyApi
  import Base64
  import Utf8
  import Strings

  datatype PlaybackState = PlaybackState(progress: int, duration: int, isPlaying: bool)

  /** `coverUrl` is None where the source leaves it `undefined`. */
  datatype Track = Track(name: string, url: string, album: string, artist: string, coverUrl: Option<string>)

  datatype NowPlaying = NowPlaying(state: PlaybackState, track: Option<Track>)

  /** The exceptions that escape `getNowPlaying`. */
  datatype Error =
    | NullItem            // `formatTrack(null)` destructures null: a TypeError
    | CoverUrlUndefined   // `fetch(undefined)`: not an absolute URL, a TypeError

  datatype CoverFormat = UrlFormat | Base64Format

  const ArtistSeparator: string := ", "
  const TopTracksLimit: nat := 10
  const DataUriPrefix: string := "data:image/jpeg;base64,"
  const CurrentlyPlayingOk: int := 200

  // ---------------------------------------------------------------------------------------------
  // The Basic credential: base64 of the UTF-8 octets of `client_id:client_secret`.

  /** `basic`: what it holds decodes back to the id, a colon and the secret (section 2 of RFC 7617). */
  function BasicCredential(clientId: string, clientSecret: string): (r: string)
    ensures r == Base64.Encode(Utf8.Encode(clientId) + [0x3A] + Utf8.Encode(clientSecret))
    ensures Base64.Decode(r) == Some(Utf8.Encode(clientId) + [0x3A] + Utf8.Encode(clientSecret))
  {
    var octets := Utf8.Encode(clientId + ":" + clientSecret);
    CredentialOctets(clientId, clientSecret);
    Base64.DecodeEncode(octets);
    Base64.Encode(octets)
  }

  /** `Buffer.from(`${id}:${secret}`)`: the id's octets, 0x3A, the secret's octets. */
  lemma CredentialOctets(clientId: string, clientSecret: string)
    ensures Utf8.Encode(clientId + ":" + clientSecret) == Utf8.Encode(clientId) + [0x3A] + Utf8.Encode(clientSecret)
  {
    Utf8.EncodeConcat(clientId + ":", clientSecret);
    Utf8.EncodeConcat(clientId, ":");
    assert Utf8.Encode(":") == [0x3A];
  }

  // ---------------------------------------------------------------------------------------------
  // Formatting a track.

  /** `artists.map((a) => a.name)`. */
  function ArtistNames(artists: seq<Artist>): (names: seq<string>)
    ensures |names| == |artists|
    ensures forall i :: 0 <= i < |artists| ==> names[i] == artists[i].name
  {
    seq(|artists|, i requires 0 <= i < |artists| => artists[i].name)
  }

  /** `images[images.length - 1]?.url`: the last variant's URL, undefined for no variants. */
  function CoverUrl(images: seq<Image>): (u: Option<string>)
    ensures u.None? <==> |images| == 0
    ensures u.Some? ==> u.value == images[|images| - 1].url
  {
    if |images| == 0 then None else Some(images[|images| - 1].url)
  }

  /** `formatTrack`: a projection of the track object; nothing is invented. */
  function FormatTrack(t: TrackObject): (r: Track)
    ensures r.name == t.name && r.album == t.album.name && r.url == t.externalUrls.spotify
    ensures r.artist == Strings.Join(ArtistNames(t.artists), ArtistSeparator)
    ensures r.coverUrl == CoverUrl(t.album.images)
  {
    Track(
      name := t.name,
      url := t.externalUrls.spotify,
      album := t.album.name,
      artist := Strings.Join(ArtistNames(t.artists), ArtistSeparator),
      coverUrl := CoverUrl(t.album.images))
  }

  /** No artists give the empty string, one artist gives that artist's name alone. */
  lemma ArtistOfFewArtists(t: TrackObject)
    ensures |t.artists| == 0 ==> FormatTrack(t).artist == ""
    ensures |t.artists| == 1 ==> FormatTrack(t).artist == t.artists[0].name
  {
  }

  /** Every artist's name stands unchanged in `artist`, in input order, each followed by ", "
      when another comes after it. */
  lemma ArtistListsEveryArtist(t: TrackObject, i: nat)
    requires i < |t.artists|
    ensures var names, a := ArtistNames(t.artists), FormatTrack(t).artist;
      var at := Strings.Offset(names, ArtistSeparator, i);
      && at + |names[i]| <= |a|
      && a[at..at + |names[i]|] == t.artists[i].name
      && (i + 1 < |names| ==> Strings.Offset(names, ArtistSeparator, i + 1) <= |a|)
      && (i + 1 < |names| ==> a[at + |names[i]|..Strings.Offset(names, ArtistSeparator, i + 1)] == ArtistSeparator)
  {
    var names := ArtistNames(t.artists);
    Strings.JoinAt(names, ArtistSeparator, i);
    if i + 1 < |names| {
      Strings.JoinSeparatorAt(names, ArtistSeparator, i);
    }
  }

  /** The length of `artist`: the names and one separator between each pair. */
  lemma ArtistLength(t: TrackObject)
    requires |t.artists| > 0
    ensures |FormatTrack(t).artist|
         == Strings.TotalLength(ArtistNames(t.artists)) + |ArtistSeparator| * (|t.artists| - 1)
  {
    Strings.JoinLength(ArtistNames(t.artists), ArtistSeparator);
  }

  /** The provider lists cover variants widest first. */
  predicate WidestFirst(images: seq<Image>) {
    && (forall i :: 0 <= i < |images| ==> images[i].width.Some?)
    && (forall i, j :: 0 <= i < j < |images| ==> images[j].width.value <= images[i].width.value)
  }

  /** Given that order, the cover picked is the narrowest variant. */
  lemma CoverIsNarrowest(t: TrackObject)
    requires WidestFirst(t.album.images) && |t.album.images| > 0
    ensures exists k :: (
      && 0 <= k < |t.album.images|
      && FormatTrack(t).coverUrl == Some(t.album.images[k].url)
      && forall i :: 0 <= i < |t.album.images| ==> t.album.images[k].width.value <= t.album.images[i].width.value)
  {
    var images := t.album.images;
    var k := |images| - 1;
    assert forall i :: 0 <= i < |images| ==> images[k].width.value <= images[i].width.value by {
      forall i | 0 <= i < |images| ensures images[k].width.value <= images[i].width.value {
        if i < k {
          assert images[i].width.Some? && images[k].width.Some?;
        }
      }
    }
  }

  // ---------------------------------------------------------------------------------------------
  // Formatting the playback state and the now-playing record.

  /** `formatPlaybackState`: `item?.duration_ms ?? 0` and `progress_ms ?? 0`. */
  function FormatPlaybackState(data: CurrentlyPlaying): (r: PlaybackState)
    ensures r.duration == (if data.item.Some? then data.item.value.durationMs else 0)
    ensures r.progress == (if data.progressMs.Some? then data.progressMs.value else 0)
    ensures r.isPlaying == data.isPlaying
  {
    var duration := match data.item
      case Some(item) => item.durationMs
      case None => 0;
    PlaybackState(progress := data.progressMs.GetOr(0), duration := duration, isPlaying := data.isPlaying)
  }

  /** `formatNowPlaying`, with the test of lib/spotify.ts as written:
      `item !== null || currently_playing_type === 'track'`. */
  function FormatNowPlaying(data: CurrentlyPlaying): (r: Result<NowPlaying, Error>)
    ensures r.Failure? <==> data.item.None? && data.currentlyPlayingType == "track"
    ensures r.Failure? ==> r.error == NullItem
    ensures r.Success? ==> r.value.state == FormatPlaybackState(data)
    ensures r.Success? ==> (r.value.track.Some? <==> data.item.Some?)
    ensures r.Success? && data.item.Some? ==> r.value.track == Some(FormatTrack(data.item.value))
  {
    var state := FormatPlaybackState(data);
    if data.item.Some? || data.currentlyPlayingType == "track" then
      match data.item
      case Some(item) => Success(NowPlaying(state, Some(FormatTrack(item))))
      case None => Failure(NullItem)
    else
      Success(NowPlaying(state, None))
  }

  /** A non-null track object is formatted whatever `currently_playing_type` says. (An episode
      object has no album and would make `formatTrack` throw; it is outside this model.) */
  lemma ItemIsAlwaysFormatted(data: CurrentlyPlaying)
    requires data.item.Some?
    ensures FormatNowPlaying(data)
         == Success(NowPlaying(FormatPlaybackState(data), Some(FormatTrack(data.item.value))))
  {
  }

  /** Nothing playing and a type other than "track": no track, duration 0, and the progress the
      payload reports (0 when it reports none). */
  lemma NothingPlayingHasNoTrack(data: CurrentlyPlaying)
    requires data.item.None? && data.currentlyPlayingType != "track"
    ensures FormatNowPlaying(data).Success?
    ensures var np := FormatNowPlaying(data).value;
      && np.track.None?
      && np.state == PlaybackState(data.progressMs.GetOr(0), 0, data.isPlaying)
  {
  }

  // ---------------------------------------------------------------------------------------------
  // Formatting the top tracks.

  /** `tracks.map(formatTrack)`. */
  function FormatTracks(tracks: seq<TrackObject>): (r: seq<Track>)
    ensures |r| == |tracks|
    ensures forall i :: 0 <= i < |tracks| ==> r[i] == FormatTrack(tracks[i])
    decreases |tracks|
  {
    if |tracks| == 0 then [] else [FormatTrack(tracks[0])] + FormatTracks(tracks[1..])
  }

  /** `items.slice(0, 10).map(formatTrack)`: the first ten items, in order, each formatted. */
  function FormatTopTracks(data: TopTracks): (r: seq<Track>)
    ensures |r| == if |data.items| < TopTracksLimit then |data.items| else TopTracksLimit
    ensures forall i :: 0 <= i < |r| ==> r[i] == FormatTrack(data.items[i])
  {
    var n := if |data.items| < TopTracksLimit then |data.items| else TopTracksLimit;
    FormatTracks(data.items[..n])
  }

  /** Items after the tenth never show. */
  lemma TopTracksIgnoreTheRest(first: seq<TrackObject>, rest: seq<TrackObject>)
    requires |first| == TopTracksLimit
    ensures FormatTopTracks(TopTracks(first + rest)) == FormatTopTracks(TopTracks(first))
  {
    var a, b := FormatTopTracks(TopTracks(first + rest)), FormatTopTracks(TopTracks(first));
    assert |a| == |b|;
    forall i | 0 <= i < |a| ensures a[i] == b[i] {
      assert (first + rest)[i] == first[i];
    }
  }

  // ---------------------------------------------------------------------------------------------
  // getNowPlaying.

  /** `getCoverBase64(url)`, with the octets a GET of each URL yields given as `fetchCover`. */
  function CoverBase64(url: Option<string>, fetchCover: string -> seq<Byte>): (r: Result<string, Error>)
    ensures url.None? <==> r.Failure?
    ensures r.Failure? ==> r.error == CoverUrlUndefined
    ensures r.Success? ==> r.value == Base64.Encode(fetchCover(url.value))
    ensures r.Success? ==> Base64.Decode(r.value) == Some(fetchCover(url.value))
  {
    match url
    case None => Failure(CoverUrlUndefined)
    case Some(u) =>
      Base64.DecodeEncode(fetchCover(u));
      Success(Base64.Encode(fetchCover(u)))
  }

  /** The two octets FF D8 give the cover URL `data:image/jpeg;base64,/9g=`. */
  lemma JpegCoverExample()
    ensures DataUriPrefix + Base64.Encode([0xFF, 0xD8]) == "data:image/jpeg;base64,/9g="
  {
    Base64.JpegMagicExample();
  }

  /** The object `formatTrack` returns, whose `coverUrl` `getNowPlaying` overwrites. */
  class TrackRecord {
    var name: string
    var url: string
    var album: string
    var artist: string
    var coverUrl: Option<string>

    function View(): Track
      reads this
    {
      Track(name, url, album, artist, coverUrl)
    }

    constructor (t: Track)
      ensures View() == t
    {
      name, url, album, artist, coverUrl := t.name, t.url, t.album, t.artist, t.coverUrl;
    }
  }

  /** The object `formatNowPlaying` returns. */
  class NowPlayingRecord {
    var state: PlaybackState
    var track: TrackRecord?

    function View(): NowPlaying
      reads this, track
    {
      NowPlaying(state, if track == null then None else Some(track.View()))
    }

    constructor (np: NowPlaying)
      ensures View() == np
      ensures track != null ==> fresh(track)
    {
      state := np.state;
      match np.track {
        case None =>
          track := null;
        case Some(t) =>
          track := new TrackRecord(t);
      }
    }
  }

  /** What `getNowPlaying` comes to: `null`, a record, or an exception. */
  datatype Reply = Null | Body(nowPlaying: NowPlayingRecord) | Thrown(error: Error)

  /** `getNowPlaying`, from the status and parsed body of the "currently playing" response on.
      Any status but 200 gives `null` without reading the body. With `Base64Format` and a track,
      the track's `coverUrl` is overwritten in place by a data URI of the cover's octets. */
  method GetNowPlaying(status: int, data: CurrentlyPlaying, fetchCover: string -> seq<Byte>,
                       coverFormat: CoverFormat := UrlFormat)
    returns (reply: Reply)
    ensures status != CurrentlyPlayingOk <==> reply == Null
    ensures status == CurrentlyPlayingOk && FormatNowPlaying(data).Failure? ==>
      reply == Thrown(NullItem)
    ensures status == CurrentlyPlayingOk && FormatNowPlaying(data).Success? ==>
      var np := FormatNowPlaying(data).value;
      if coverFormat == Base64Format && np.track.Some? then
        match np.track.value.coverUrl
        case None => reply == Thrown(CoverUrlUndefined)
        case Some(u) =>
          && reply.Body?
          && reply.nowPlaying.View()
             == np.(track := Some(np.track.value.(coverUrl := Some(DataUriPrefix + Base64.Encode(fetchCover(u))))))
      else
        reply.Body? && reply.nowPlaying.View() == np
    ensures reply.Body? ==> fresh(reply.nowPlaying)
    ensures reply.Body? && reply.nowPlaying.track != null ==> fresh(reply.nowPlaying.track)
  {
    if status != CurrentlyPlayingOk {
      return Null;
    }
    var formatted := FormatNowPlaying(data);
    if formatted.Failure? {
      return Thrown(formatted.error);
    }
    var nowPlaying := new NowPlayingRecord(formatted.value);
    if coverFormat == Base64Format && nowPlaying.track != null {
      var coverBase64 := CoverBase64(nowPlaying.track.coverUrl, fetchCover);
      if coverBase64.Failure? {
        return Thrown(coverBase64.error);
      }
      nowPlaying.track.coverUrl := Some(DataUriPrefix + coverBase64.value);
    }
    return Body(nowPlaying);
  }
}
