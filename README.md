# spotify-badge client, modelled in Dafny

The repository serves two read-only endpoints, "now playing" and "top tracks". Both call the
music provider's REST API through one client module, `lib/spotify.ts`. That module reshapes the
provider's payloads into three small shapes:

- `Track`: name, url, album, artist, coverUrl;
- `PlaybackState`: progress, duration, isPlaying;
- `NowPlaying`: a state and a track or `null`.

`getNowPlaying` can also replace a track's cover URL with an inline data URI. This is a
`data:image/jpeg;base64,` URI of the cover image's octets. The same base64 encoder builds the HTTP
Basic credential that the token request sends.

The model has one module per concern:

- `Wrappers` (wrappers.dfy): `Option` for a value that may be `undefined` (a cover URL) or `null` (an item, a progress), `Result` for an exception that escapes a call.
- `Bytes` (bytes.dfy): the octet type.
- `Base64` (base64.dfy): the encoding of section 4 of RFC 4648, which `Buffer.toString('base64')` produces. It has a decoder as its partner and the proof that decoding undoes encoding.
- `Utf8` (utf8.dfy): the UTF-8 octets (RFC 3629) that `Buffer.from(string)` produces. It includes the proof that each character's octets give back its scalar value.
- `Strings` (strings.dfy): `Array.prototype.join`, with lemmas placing every element and separator.
- `SpotifyApi` (spotify_api.dfy): the provider payloads, cut down to the fields that are read.
- `Spotify` (spotify.dfy): `basic`, `formatTrack`, `formatPlaybackState`, `formatNowPlaying`, `formatTopTracks`, `getCoverBase64` and `getNowPlaying`.

The formatters are pure functions, as in the source. `getNowPlaying` is a method. It builds the
`NowPlaying` and `Track` objects (the classes `NowPlayingRecord` and `TrackRecord`). Then it
overwrites `track.coverUrl` in place, as line 113 does. Its inputs are the network results:

- the status of the "currently playing" response;
- the parsed body;
- a function giving the octets a GET of each cover URL returns.

## Behaviour as the code has it

- The test that decides whether a track is formatted is `item !== null || currently_playing_type === 'track'` (lib/spotify.ts:75). The field name `currently_playing_type` suggests that only tracks are formatted, but the test formats any non-null item, whatever the playing type. A null item with type `"track"` also passes the test, and `formatTrack(null)` then throws. The model returns `Failure(NullItem)` for that case. Only a null item with another type gives `track: null`.
- The progress is `progress_ms ?? 0` even when the item is null (lib/spotify.ts:66). So it is whatever the payload reports, not necessarily 0.
- With `coverFormat: 'base64'`, a track whose album has no images has `coverUrl` undefined. `getNowPlaying` then calls `fetch(undefined)`, which the server-side fetch rejects as not an absolute URL. The model returns `Thrown(CoverUrlUndefined)`.

## Model

| member | source | states |
|---|---|---|
| `Spotify.BasicCredential` | lib/spotify.ts:30 | the credential is exactly the base64 encoding of the UTF-8 octets of the client id, then 0x3A, then the octets of the secret, as section 2 of RFC 7617 requires, and it decodes back to those octets |
| `Spotify.CredentialOctets` | lib/spotify.ts:30 | the octets of `` `${id}:${secret}` `` are the id's octets, one colon octet, then the secret's octets |
| `Base64.Encode` | lib/spotify.ts:89 | the encoding has 4·⌈n/3⌉ characters for n octets (section 4 of RFC 4648, with `=` padding) |
| `Base64.DecodeEncode` | lib/spotify.ts:89 | decoding the encoding of any octet string gives back that string |
| `Base64.EncodeDecode` | lib/spotify.ts:89 | a string that decodes is the encoding of what it decodes to (the decoder refuses non-zero pad bits, section 3.5 of RFC 4648) |
| `Base64.DecodeIffEncode` | lib/spotify.ts:89 | a string decodes to b exactly when it is the encoding of b |
| `Base64.NonZeroPadBitsRejected` | lib/spotify.ts:89 | the non-canonical "QR==" does not decode, while "A" encodes as "QQ==" |
| `Base64.EncodeInjective` | lib/spotify.ts:89 | two octet strings with the same encoding are equal |
| `Base64.JpegMagicExample` | lib/spotify.ts:89 | the octets FF D8 encode as `/9g=` |
| `Utf8.EncodeChar` | lib/spotify.ts:30 | one to four octets, the count fixed by the scalar value's range (ASCII exactly one octet) |
| `Utf8.EncodeCharDecodes` | lib/spotify.ts:30 | every octet after the first is a continuation octet, and the payload bits rebuild the scalar value |
| `Utf8.Encode` | lib/spotify.ts:30 | a string of k characters gives between k and 4k octets |
| `Utf8.EncodeConcat` | lib/spotify.ts:30 | the octets of a concatenation are the concatenation of the octets |
| `Utf8.EncodeAscii` | lib/spotify.ts:30 | an ASCII string gives one octet per character, equal to its code |
| `Strings.Join` | lib/spotify.ts:55 | "" for no elements, and otherwise a string beginning with the first element. The rest of its positions are fixed by JoinAt, JoinSeparatorAt and JoinLength: each element, then `sep` between each adjacent pair |
| `Strings.JoinLength` | lib/spotify.ts:55 | the joined string's length is the total length of the elements plus one separator per adjacent pair |
| `Strings.JoinAt` | lib/spotify.ts:55 | the i-th element stands unchanged at its offset in the joined string |
| `Strings.JoinSeparatorAt` | lib/spotify.ts:55 | the separator stands between the i-th element and the next |
| `Strings.JoinSnoc` | lib/spotify.ts:55 | appending an element appends the separator and the element (the left-to-right join of ECMA-262) |
| `Spotify.ArtistNames` | lib/spotify.ts:55 | the names, one per artist, in the artists' order |
| `Spotify.CoverUrl` | lib/spotify.ts:56 | absent exactly when there are no images, otherwise the last image's URL |
| `Spotify.FormatTrack` | lib/spotify.ts:51-58 | name, album name and external URL copied unchanged. artist is the names joined with ", " in input order. coverUrl is the last image's URL or absent |
| `Spotify.ArtistOfFewArtists` | lib/spotify.ts:55 | no artists give "", one artist gives that name alone |
| `Spotify.ArtistListsEveryArtist` | lib/spotify.ts:55 | every artist's name appears unchanged in `artist` at its offset, in order, followed by ", " when another artist follows |
| `Spotify.ArtistLength` | lib/spotify.ts:55 | `artist` is as long as the names plus two characters per separator |
| `Spotify.CoverIsNarrowest` | lib/spotify.ts:56 | when the variants come widest first, the chosen cover is a variant no wider than any other |
| `Spotify.FormatPlaybackState` | lib/spotify.ts:61-69 | duration is the item's duration_ms when there is an item, else 0. progress is progress_ms when present, else 0. isPlaying is is_playing |
| `Spotify.FormatNowPlaying` | lib/spotify.ts:71-79 | fails (formatTrack(null)) exactly when the item is null and the type is "track". Otherwise state is the formatted playback state, and the track is present exactly when the item is, equal to the formatted item |
| `Spotify.ItemIsAlwaysFormatted` | lib/spotify.ts:74-77 | a non-null item is formatted as a track whatever currently_playing_type is |
| `Spotify.NothingPlayingHasNoTrack` | lib/spotify.ts:71-79 | a null item with a type other than "track" gives no track, duration 0, progress_ms ?? 0 and is_playing |
| `Spotify.FormatTracks` | lib/spotify.ts:82 | same length as the input, element i is formatTrack of item i |
| `Spotify.FormatTopTracks` | lib/spotify.ts:81-83 | min(10, n) tracks, the i-th being formatTrack of the i-th item, so order is kept |
| `Spotify.TopTracksIgnoreTheRest` | lib/spotify.ts:82 | items after the tenth do not change the result |
| `Spotify.CoverBase64` | lib/spotify.ts:85-90 | fails exactly when the URL is undefined. Otherwise the result is exactly the base64 encoding of the octets fetched from that URL, and it decodes back to them |
| `Spotify.JpegCoverExample` | lib/spotify.ts:113 | the octets FF D8 give the cover URL `data:image/jpeg;base64,/9g=` |
| `Spotify.TrackRecord.constructor` | lib/spotify.ts:52-58 | the new track object holds the formatted track's five fields |
| `Spotify.NowPlayingRecord.constructor` | lib/spotify.ts:72-78 | the new object holds the formatted state and a fresh track object, or null |
| `Spotify.GetNowPlaying` | lib/spotify.ts:92-117 | the result is `null` exactly when the status is not 200, whatever the body. A formatting failure propagates. With the url format, or with no track, the result is formatNowPlaying's record. With base64 and a track, `coverUrl` alone becomes `data:image/jpeg;base64,` + base64 of the octets fetched from the old coverUrl, and the state and the other track fields stay the same. An undefined coverUrl makes the fetch throw |

## Left out

- `getAccessToken` (lib/spotify.ts:32-49) is network I/O: a POST to the token endpoint and the JSON parse of its reply. The URL-encoded form body it builds with `URLSearchParams` (lines 33-36, 43) is also left out. So is the `Basic` and `Bearer` header text (lines 40, 98). The token is not a parameter of `GetNowPlaying`, because nothing in the reshaping depends on it.
- Every `fetch`, `res.json()` and `res.arrayBuffer()` call, and the awaits between them (lines 37, 86-87, 96, 107, 121-127), are left out. Their results are parameters: the status and parsed body, and a total function from cover URL to octets. A network failure or malformed JSON throws in the source and is not modelled.
- `getTopTracks` (lib/spotify.ts:119-130) is a fetch with no status check, followed by `formatTopTracks`. Only `FormatTopTracks` is modelled.
- `../consts` is not part of this model. The client id and secret are parameters of `BasicCredential`, and the endpoints do not appear.
- api/now-playing.ts and api/top-tracks.ts only call the client, set `Content-Type` (and `Cache-Control: s-maxage=1`), and send status 200. They are not modelled.
- `Spotify.FormatNowPlaying`: the item is typed as a track object, as the source's cast says. An episode object, which has no album or artists, would make `formatTrack` throw on `album.name`. The model cannot express that.
- `Utf8.Encode`: JavaScript strings are UTF-16. `Buffer.from` writes U+FFFD for a lone surrogate. Dafny characters are scalar values, so lone surrogates cannot occur in the model.
- `item: None` stands for `null` only. An absent (`undefined`) item passes the `!== null` test at lib/spotify.ts:75, so `formatTrack(undefined)` would throw whatever the type. That input lies outside the provider's declared type and is not modelled.
- Millisecond values are unbounded integers. JavaScript numbers are doubles, which is exact for every realistic duration.
- Only the payload fields formatters read are modelled, plus the image `width`, which exists only to state `CoverIsNarrowest`.
