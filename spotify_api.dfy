/** The provider's JSON payloads, cut down to the fields the formatters read.
    A field that may be `null` in the payload is an Option. */
module SpotifyApi {
  import opened Wrappers

  /** One variant of an album's cover art. `width` is not read by the formatters; it is kept
      to state which variant they pick. */
  datatype Image = Image(url: string, width: Option<nat>)

  datatype Artist = Artist(name: string)

  datatype Album = Album(name: string, images: seq<Image>)

  datatype ExternalUrls = ExternalUrls(spotify: string)

  /** A track object (`SpotifyApi.TrackObjectFull`). */
  datatype TrackObject = TrackObject(
    name: string,
    album: Album,
    artists: seq<Artist>,
    externalUrls: ExternalUrls,
    durationMs: int)

  /** The body of the "currently playing" endpoint. `currentlyPlayingType` is one of
      "track", "episode", "ad" or "unknown". */
  datatype CurrentlyPlaying = CurrentlyPlaying(
    progressMs: Option<int>,
    isPlaying: bool,
    item: Option<TrackObject>,
    currentlyPlayingType: string)

  /** The body of the "top tracks" endpoint. */
  datatype TopTracks = TopTracks(items: seq<TrackObject>)
}
