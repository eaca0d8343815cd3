# Media previews: audio session and video source

A Dafny model of the two media preview components of a OneDrive-backed file
index, and proofs about them.

- **Audio preview.** It builds two URLs from the current route path and the
  optional stored access token (`odpt`): the raw-media URL and the
  medium-size thumbnail URL. It keeps a small player session, with fields
  `playerStatus`, `playerVolume` and `brokenThumbnail`, that the audio
  element's event handlers overwrite one event at a time. Four display
  conditions follow from those fields: the opaque loading overlay, the image
  or its fallback icon, and the spin animation.
- **Video preview.** It turns a file descriptor into the configuration it
  hands to the player. That is a raw URL built from the file name escaped
  with `encodeURIComponent`, one html5 source with a MIME fallback, and a
  fixed list of controls.

Modules:

- Wrappers: `Option`, standing for a JavaScript value that may be
  `null` or `undefined`.
- Query: a reference reader for these URLs. A fragment, from the first
  `#` on, is dropped, as section 3.5 of RFC 3986 specifies. The endpoint is
  the text up to the first `?`. The query is split on `&`, and each
  parameter is cut at its first `=`. It also has the matching writer (`Render`) and the
  read-back lemma `ReadRendered`. The URL builders are stated against this
  reader.
- UriComponent: `encodeURIComponent` of ECMA-262 (section 19.2.6, "URI
  Handling Functions") on ASCII text, plus the matching decoder. An
  escaped character becomes `%` and two upper-case hex digits, as in
  section 2.1 of RFC 3986.
- AudioPreview: the URL builders, the status reducer as specification
  functions over the history of handled events, the display conditions,
  and the class `Session`. `Session` holds the two URLs and the three
  React state fields (`playerStatus`, `playerVolume`, `brokenThumbnail`).
  It also holds whether the mount effect has run (`effectRan`), whether the
  handlers are attached (`listening`), and the ghost history `heard` that
  ties the state fields to the specification functions. A single method,
  `Handle(event)`, takes one event of any kind, and `HandleAll` takes a
  sequence of them.
- VideoPreview: the file descriptor, the player configuration and the
  lemma that reads the video URL back.

Inputs taken as plain values:

- the route path (`useRouter().asPath`);
- the stored token (`getStoredToken`);
- whether an audio element existed when the mount effect ran;
- the events the element and the thumbnail image fire.

Properties of the code worth knowing:

- The audio URLs insert the route path verbatim, without escaping.
  `AudioPreview.PathIsNotEscaped` shows that a path ending in `&odpt=` and
  a token gives the same URL as the shorter path with that token.
  `AudioPreview.FragmentHidesToken` shows that a `#` in the path hides the
  token from a reader of the URL. The read-back lemmas hold only for paths
  without `&` and `#`.
- The thumbnail size is always `medium`.
- The video URL uses only the file name, not the route path, and never
  carries the token.
- The code never detaches the audio element's listeners.

## Model

| member | source | states |
|---|---|---|
| `AudioPreview.RawUrl` | src/components/previews/AudioPreview.tsx:31 | The raw-media URL: `/api/raw?path=`, the route path as it is, then `&odpt=<token>` when the token is truthy. Its properties are stated by `RawUrlRendered`, `RawUrlQuery` and `TokenOnlyChangesSuffix`. |
| `AudioPreview.ThumbnailUrl` | src/components/previews/AudioPreview.tsx:32 | The thumbnail URL: `/api/thumbnail?path=`, the route path, `&size=medium`, then the same token suffix. Its properties are stated by `ThumbnailUrlRendered` and `ThumbnailUrlQuery`. |
| `AudioPreview.RawUrlRendered` | src/components/previews/AudioPreview.tsx:31 | The raw URL is the `/api/raw` endpoint with the query `path=<route path>`, followed by `odpt=<token>` only when the token is truthy. |
| `AudioPreview.RawUrlQuery` | src/components/previews/AudioPreview.tsx:31 | Read back (for a path and token without `&` and `#`), the raw URL has the endpoint `/api/raw` and exactly the parameters `path` = route path, then `odpt` = token. An `odpt` parameter appears iff the token is present and non-empty. |
| `AudioPreview.ThumbnailUrlRendered` | src/components/previews/AudioPreview.tsx:32 | The thumbnail URL is the `/api/thumbnail` endpoint with `path`, `size=medium` and the same optional `odpt`. |
| `AudioPreview.ThumbnailUrlQuery` | src/components/previews/AudioPreview.tsx:32 | Read back, the thumbnail URL has the endpoint `/api/thumbnail` and exactly the parameters `path`, `size` = `medium`, then `odpt` when the token is truthy. |
| `AudioPreview.TokenOnlyChangesSuffix` | src/components/previews/AudioPreview.tsx:31-32 | Both URLs are their tokenless form followed by one shared token suffix. The suffix is empty iff the token is absent or empty, so another token changes only the suffix. |
| `AudioPreview.PathIsNotEscaped` | src/components/previews/AudioPreview.tsx:31 | The path goes in unescaped: for every path `p` and non-empty token `t`, the path `p&odpt=t` with no token gives the same raw URL as the path `p` with the token `t`. |
| `AudioPreview.FragmentHidesToken` | src/components/previews/AudioPreview.tsx:31 | For a path `p#f` (with no `&` or `#` in `p`), a reader of the raw URL sees the single parameter `path` = `p`. The rest of the path and the token fall into the fragment. |
| `AudioPreview.FragmentHidesSize` | src/components/previews/AudioPreview.tsx:32 | The same for the thumbnail URL: only `path` = `p` is read, and `size=medium` and the token are lost. |
| `AudioPreview.FinalStatus` | src/components/previews/AudioPreview.tsx:35-50 | The status after a history of handled events, starting from Loading, where each status event overwrites it. Its properties are stated by `FinalStatusIsLastStatusEvent` and the lemmas below it. |
| `AudioPreview.FinalVolume` | src/components/previews/AudioPreview.tsx:36-51 | The volume after a history is either the initial 1 or a volume the element reported in a volume change. It is 1 when the history holds no volume change. |
| `AudioPreview.ThumbnailBroken` | src/components/previews/AudioPreview.tsx:75 | Whether the thumbnail is broken after a history, starting from false, where a thumbnail error sets it. Its properties are stated by `ThumbnailBrokenMonotone`. |
| `AudioPreview.StatusFor` | src/components/previews/AudioPreview.tsx:43-50 | The event table: can-play gives Ready; play and playing give Playing; pause, ended and error give Paused; seeking and waiting give Loading. Exactly the volume change and the thumbnail error set no status. |
| `AudioPreview.FinalStatusIsLastStatusEvent` | src/components/previews/AudioPreview.tsx:35-50 | After any history the status is the mapping of its last status event, or Loading when it has none. A last status event exists whenever some status event does. |
| `AudioPreview.FinalStatusWithoutStatusEvent` | src/components/previews/AudioPreview.tsx:35 | A history with no status event leaves the status at its initial Loading. |
| `AudioPreview.FinalStatusAtLast` | src/components/previews/AudioPreview.tsx:43-50 | The status after a history is the one its last status event sets. |
| `AudioPreview.LastStatusEventExists` | src/components/previews/AudioPreview.tsx:43-50 | A history containing any status event has a last one. |
| `AudioPreview.FinalStatusAppend` | src/components/previews/AudioPreview.tsx:43-50 | Appending a history that contains a status event decides the status regardless of what came before. Appending one without a status event leaves the status as it was. |
| `AudioPreview.EventsAreIndependent` | src/components/previews/AudioPreview.tsx:43-51 | A non-status event leaves the status unchanged. A volume change sets the volume to the element's volume, and every other event leaves the volume unchanged. Only a thumbnail error can make the thumbnail broken. |
| `AudioPreview.CanPlayPlayPause` | src/components/previews/AudioPreview.tsx:43-49 | From any history, can-play, play and pause give Ready, then Playing, then Paused. Seeking or waiting always gives Loading. |
| `AudioPreview.ThumbnailBrokenMonotone` | src/components/previews/AudioPreview.tsx:75 | Once broken, the thumbnail stays broken under any later events. It is broken iff some thumbnail error was seen. |
| `AudioPreview.OnlyThumbnailErrors` | src/components/previews/AudioPreview.tsx:40-41 | A history with nothing but thumbnail errors leaves the status Loading and the volume 1. That is all a session without an audio element hears. |
| `AudioPreview.ThumbnailBrokenAfter` | src/components/previews/AudioPreview.tsx:67-75 | After a session's events, the thumbnail is broken iff it was broken before or one of the events was a thumbnail error. The thumbnail's error handler works whether or not an audio element exists. |
| `AudioPreview.ReplayStep` | src/components/previews/AudioPreview.tsx:43-51 | A proof helper, not a property of the code: the induction step of `HandleAll`'s loop. It unfolds `Replay` at the prefix `events[..i + 1]`, so handling one more event is one more step of the replayed history. |
| `AudioPreview.ReplayWhileListening` | src/components/previews/AudioPreview.tsx:43-51 | With handlers attached, every event is heard, in order. |
| `AudioPreview.AppearanceOf` | src/components/previews/AudioPreview.tsx:61-80 | The image is shown iff the thumbnail is not broken. The image never spins while the icon is shown. |
| `AudioPreview.OverlayAfter` | src/components/previews/AudioPreview.tsx:59-62 | After a history, the loading overlay is opaque iff the history has no status event or its last status event was seeking or waiting. |
| `AudioPreview.SpinAfter` | src/components/previews/AudioPreview.tsx:70-80 | After a history, the image or the icon spins iff the last status event was play or playing. |
| `AudioPreview.FallbackIconAfter` | src/components/previews/AudioPreview.tsx:67-84 | After a history, the fallback music icon replaces the image iff some thumbnail error was seen. |
| `AudioPreview.Session.View` | src/components/previews/AudioPreview.tsx:61-80 | What a session displays is determined by its history alone: it is the appearance of `FinalStatus(heard)` and `ThumbnailBroken(heard)`. |
| `AudioPreview.Session.constructor` | src/components/previews/AudioPreview.tsx:29-37 | On mount, both URLs are fixed by the path and token. The status is Loading, the volume 1, the thumbnail not broken, and no handler is attached. |
| `AudioPreview.Session.RunEffect` | src/components/previews/AudioPreview.tsx:39-41 | The mount effect attaches the handlers iff an audio element exists. It changes no state field. |
| `AudioPreview.Session.Handle` | src/components/previews/AudioPreview.tsx:43-51 | One event: with handlers attached, a status event sets its fixed status and a volume change copies the element's volume. A thumbnail error always marks the thumbnail broken. Nothing else changes, and the object invariant is kept. |
| `AudioPreview.Session.HandleAll` | src/components/previews/AudioPreview.tsx:43-51 | A sequence of events, one at a time. Without an element, the status stays Loading and the volume 1. With one, the status is that of the sequence's last status event, or unchanged if it has none. The thumbnail is broken iff it was before or one of the events was a thumbnail error. |
| `UriComponent.HexDigit` | src/components/previews/VideoPreview.tsx:16 | The escape digit for a value below 16 is an upper-case hexadecimal digit that reads back as that value. |
| `UriComponent.EncodeChar` | src/components/previews/VideoPreview.tsx:16 | A kept character (letter, digit, `- _ . ! ~ * ' ( )`) is written as itself. Any other character becomes a `%XX` triple of upper-case digits that reads back as its code. |
| `UriComponent.Encode` | src/components/previews/VideoPreview.tsx:16 | `encodeURIComponent` of an ASCII name: each kept character as itself, every other one as `%XX`. Its properties are stated by the lemmas below. |
| `UriComponent.Decode` | src/components/previews/VideoPreview.tsx:16 | The partner decoder, as `decodeURIComponent` reads the escaped path. Decoding never lengthens the text. A malformed escape, or an escape of a code of 128 or more, is an error. |
| `UriComponent.DecodeUnescaped` | src/components/previews/VideoPreview.tsx:16 | A text without `%` decodes to itself. |
| `UriComponent.DecodeEncode` | src/components/previews/VideoPreview.tsx:16 | Percent-decoding the encoding of an ASCII name gives back the name. |
| `UriComponent.EncodeIsEncoded` | src/components/previews/VideoPreview.tsx:16 | The encoding consists only of kept characters and well-formed `%XX` triples. |
| `UriComponent.EncodedAlphabet` | src/components/previews/VideoPreview.tsx:16 | Every character of such an encoding is a kept character, `%`, or an upper-case hex digit. |
| `UriComponent.EncodeAvoidsDelimiters` | src/components/previews/VideoPreview.tsx:16 | No character of the encoded name is `&`, `=`, `?`, `#`, `/`, `+` or a space. |
| `UriComponent.EncodeFixesUnreserved` | src/components/previews/VideoPreview.tsx:16 | The encoding is never shorter than the name and at most three times as long. It equals the name iff every character of the name is kept. |
| `VideoPreview.VideoUrl` | src/components/previews/VideoPreview.tsx:16 | The video URL: `/api/raw?path=` and the escaped file name. Its properties are stated by `VideoUrlIsUntokenedRawUrl` and `VideoUrlQuery`. |
| `VideoPreview.VideoUrlIsUntokenedRawUrl` | src/components/previews/VideoPreview.tsx:16 | The video URL is the audio preview's raw URL for the escaped name with no token. |
| `VideoPreview.VideoUrlQuery` | src/components/previews/VideoPreview.tsx:16 | Read back, the video URL has the endpoint `/api/raw` and exactly one parameter, `path`, holding the encoded name. So there is no `odpt`, and no characters in the name can add another parameter. |
| `VideoPreview.SourceMimeType` | src/components/previews/VideoPreview.tsx:25 | The source type is the file's MIME type when present and non-empty, otherwise `video/mp4`. It is never empty. |
| `VideoPreview.PropsFor` | src/components/previews/VideoPreview.tsx:18-33 | The configuration is type `video` with the file name as title. It has exactly one source, whose `src` is the video URL, whose type is the MIME fallback and whose provider is `html5`. Its controls are the fixed list. |
| `VideoPreview.PropsSourceReadsBack` | src/components/previews/VideoPreview.tsx:16-28 | The one source's URL has a single `path` parameter, and percent-decoding its value gives back the file name, for every ASCII name. |
| `VideoPreview.ControlsShape` | src/components/previews/VideoPreview.tsx:31 | The controls are seven distinct entries, from `play` to `fullscreen`. |

## Left out

- Rendering: the JSX, the Tailwind class strings, and the icon, loading,
  container, download-button and date-formatting collaborators. Only the
  four display conditions are modelled.
- `useRouter().asPath` and `getStoredToken`: both are inputs. The token store is outside this model.
- The audio and video players (`react-audio-player`, `plyr-react` loaded
  through `next/dynamic`): only what is handed to them is modelled. This
  includes that the audio player gets `audioSrc`. It leaves out that
  `playerVolume` is fed back as the player's `volume` property.
- AudioPreview.Session.HandleAll: the volume is a `real` copied from the
  event. No arithmetic is done on it, and the range of the element's volume
  is not modelled.
- VideoPreview.VideoUrl: requires an ASCII name. Non-ASCII text (UTF-8
  escaping) and the `URIError` for lone surrogates are not modelled.
- VideoPreview.PropsFor: requires an ASCII name, for the same reason.
- UriComponent.Decode: a `%XX` escape of a byte at or above 128 is
  treated as an error. The real decoder would read it as part of a UTF-8
  sequence.
- AudioPreview.RawUrlQuery: holds only for paths and tokens without `&`
  and `#`, because the path is inserted unescaped. A `&` adds a parameter,
  and a `#` starts a fragment that hides the rest (`FragmentHidesToken`).
- AudioPreview.ThumbnailUrlQuery: the same restriction applies
  (`FragmentHidesSize`).
- React's scheduling: each state setter takes effect immediately, one
  event at a time. Batching is not modelled.
- Re-rendering: the component recomputes `audioSrc` and `thumbnail` on
  every render from the current `asPath` and stored token, while the three
  state fields persist. In `Session` the two URLs are `const` fields fixed
  by the constructor, so a route or token change during a session is not
  modelled.
- The mount effect runs once, as its empty dependency list makes it.
  `Session.RunEffect` requires that it has not run before. Listener
  teardown is not modelled because the code has none.
