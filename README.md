# YouTube link embedder: link resolver and record slot

This project models the two pieces of logic in a small single-page app.
The user pastes a YouTube link with a title and optional notes. The app keeps
that one record in the browser's local storage and shows it as an embedded
player.

- **Link resolver** (`getEmbedUrl`, `src/components/VideoDisplay.tsx`). It turns
  a parsed link into `https://www.youtube.com/embed/<id>?rel=0&modestbranding=1`,
  or into `""` when the link cannot be resolved. The id comes from the `v` query
  parameter on a `youtube.com` host. Failing that, it is the text after
  `/shorts/`. On a `youtu.be` host it is the path without its first character.
  Both host tests check whether the host contains the name, not whether it equals it.
- **Record slot and submit guard** (`handleSubmit`, `src/components/VideoForm.tsx`,
  and the loading effect of `VideoDisplay.tsx`). A submit with a non-empty title
  and a non-empty link writes a complete record into the single `videoData`
  slot, replacing any earlier one. Opening the display view shows the stored
  record, or goes back to the form when the slot is empty.

Files:

- `wrappers.dfy`: `Option`.
- `js_string.dfy` (module `JsString`): the JavaScript string built-ins the
  resolver uses. These are `includes`, `split` with a string separator and
  `slice`, written over `seq<char>`. `IndexOf` is the leftmost-match search
  inside `includes` and `split`. It is not `String.prototype.indexOf`, which
  clamps a start position past the end. `IndexOf`, `Contains` and `Split` are
  proved against an occurrence predicate, and `Split` is proved to be inverted
  by `Join`. `Slice` is characterised as the suffix after the first `start`
  characters.
- `video_storage.dfy` (module `VideoStorage`): the `VideoRecord` datatype and
  the `VideoStore` class. Its one field, `videoData: Option<VideoRecord>`,
  stands for the `videoData` storage key.
- `video_form.dfy` (module `VideoForm`): the submit guard, the disabled state
  of the submit button and `Submit`.
- `video_display.dfy` (module `VideoDisplay`): the resolver, its case lemmas
  and worked examples, `Load`, and the submit-then-load flow.

The result of `new URL(link)` is an input of type `Option<ParsedUrl>`.
`None` is a link the `URL` constructor rejects. `ParsedUrl` carries
`hostname`, `pathname` and `searchParams.get('v')`; a missing parameter is `None`.
The clock readings `new Date().toISOString()` and `Date.now().toString()` are
parameters of `Submit`.

Points where the code's behaviour is easy to misread:

- `/shorts/` ids are not a single path segment. The code takes
  `split('/shorts/')[1]`. That is everything up to the next `/shorts/` or the
  end of the path, so `/shorts/abc/def` gives `abc/def`.
- Corrupt stored data is not treated as absent. The code calls `JSON.parse`
  without a `try`, so text that is not JSON throws. The model has no corrupt
  state (see Left out).
- There is no code for editing the notes or deleting the record.
- `handleSubmit` itself only checks that title and link are non-empty, and
  that is what `Submit` does. The form markup adds browser validation in front
  of it: `required` on the title (`VideoForm.tsx` line 68), and `type="url"`
  and `required` on the link (lines 76 and 81). The browser stops the submit
  event before `handleSubmit` runs when these fail (see Left out).

## Model

| member | source | states |
|---|---|---|
| JsString.IndexOf | src/components/VideoDisplay.tsx:36-37 | the leftmost-match search inside `includes` and `split`: `Some(i)` is an occurrence at or after `from` with no earlier one at or after `from`; `None` means there is no occurrence at or after `from` |
| JsString.Contains | src/components/VideoDisplay.tsx:30-39 | `includes` is true exactly when the pattern occurs somewhere in the text |
| JsString.Slice | src/components/VideoDisplay.tsx:41 | `slice(start)` is what follows the first `start` characters; it is empty when the text is no longer than `start` |
| JsString.Split | src/components/VideoDisplay.tsx:37 | `split(sep)` has at least one field; it has two or more exactly when the text contains `sep`; no field contains `sep` |
| JsString.SplitJoin | src/components/VideoDisplay.tsx:37 | joining the fields of `split(sep)` with `sep` gives back the original text |
| JsString.IndexOfFindsFirst | src/components/VideoDisplay.tsx:37 | the search from position 0 returns exactly the leftmost occurrence |
| JsString.SplitAtFirst | src/components/VideoDisplay.tsx:37 | the first field of `split(sep)` ends at the first `sep`; the remaining fields are the fields of the text after it |
| JsString.SplitWithout | src/components/VideoDisplay.tsx:37 | a text without `sep` splits into itself alone |
| VideoDisplay.VideoId | src/components/VideoDisplay.tsx:28-42 | the `videoId` chosen for a parsed link; it has no contract of its own, and the case lemmas below state what it picks in each branch |
| VideoDisplay.EmbeddedId | src/components/VideoDisplay.tsx:44 | reading an id back from an embed URL; a result is always a non-empty id that rebuilds the URL from the fixed prefix and suffix |
| VideoDisplay.EmbedFor | src/components/VideoDisplay.tsx:44 | the result is `""` exactly when the id is empty; otherwise the id can be read back from it |
| VideoDisplay.GetEmbedUrl | src/components/VideoDisplay.tsx:25-48 | a failed parse gives `""` and no exception; every result is `""` or an embed URL |
| VideoDisplay.EmbeddedIdOfTemplate | src/components/VideoDisplay.tsx:44 | the id placed in the template is recovered exactly |
| VideoDisplay.EmbedForInjective | src/components/VideoDisplay.tsx:44 | different ids give different embed URLs |
| VideoDisplay.ResultShape | src/components/VideoDisplay.tsx:44 | every result is `""` or exactly `https://www.youtube.com/embed/` + a non-empty id + `?rel=0&modestbranding=1` |
| VideoDisplay.WatchParamWins | src/components/VideoDisplay.tsx:30-35 | on a `youtube.com` host a non-empty `v` is the id, whatever the path holds, `/shorts/` included |
| VideoDisplay.ShortsUpToNextMarker | src/components/VideoDisplay.tsx:36-37 | with no usable `v`, the id is the text between the first `/shorts/` and the next one; an empty id gives `""` |
| VideoDisplay.ShortsToEndOfPath | src/components/VideoDisplay.tsx:36-37 | with no usable `v` and one `/shorts/`, the id is the rest of the path after it, slashes included (`/shorts/abc/def` gives `abc/def`); an empty rest gives `""` |
| VideoDisplay.ShortsIdWithoutSlash | src/components/VideoDisplay.tsx:36-37 | a path `/shorts/<id>` or `/shorts/<id>/shorts/...` whose id has no `/` resolves to that id |
| VideoDisplay.WatchWithoutId | src/components/VideoDisplay.tsx:30-38 | a `youtube.com` link with no usable `v` and no `/shorts/` in its path gives `""` |
| VideoDisplay.ShortLinkDropsFirstChar | src/components/VideoDisplay.tsx:39-41 | on a `youtu.be` host that is not a `youtube.com` host, the id is the path minus its first character; a path of length at most 1 gives `""` |
| VideoDisplay.OtherHostUnresolvable | src/components/VideoDisplay.tsx:39-44 | a host containing neither `youtube.com` nor `youtu.be` gives `""` |
| VideoDisplay.WatchHostAnywhere | src/components/VideoDisplay.tsx:30 | any host with `youtube.com` anywhere in it resolves exactly as the bare host `youtube.com` does, for every path and every `v` (present, empty or absent) |
| VideoDisplay.WatchLinkExample | src/components/VideoDisplay.tsx:30-34 | `www.youtube.com/watch?v=dQw4w9WgXcQ` resolves to the embed URL of `dQw4w9WgXcQ` |
| VideoDisplay.ShortLinkExample | src/components/VideoDisplay.tsx:39-41 | `youtu.be/abc123` resolves to the embed URL of `abc123` |
| VideoDisplay.OtherSiteExample | src/components/VideoDisplay.tsx:39-44 | `example.com/video` gives `""` |
| VideoDisplay.EmptyShortsExample | src/components/VideoDisplay.tsx:32-44 | an empty `v` with path `/shorts/` gives `""` |
| VideoDisplay.Load | src/components/VideoDisplay.tsx:16-23 | a stored record is shown unchanged; an empty slot redirects to the form and shows nothing |
| VideoDisplay.SubmitThenLoad | src/components/VideoForm.tsx:18-29 | after a successful submit, opening the display view shows exactly the new record and replaces any earlier one; after a refused submit it shows the earlier state |
| VideoForm.CanSubmit | src/components/VideoForm.tsx:18 | the submit guard: title and link both non-empty |
| VideoForm.SubmitDisabled | src/components/VideoForm.tsx:100 | the submit button is disabled exactly when the submit guard would refuse |
| VideoForm.NotesOrEmpty | src/components/VideoForm.tsx:23 | the stored notes equal the typed notes; an empty note is stored as `""` |
| VideoForm.Submit | src/components/VideoForm.tsx:16-31 | with both fields non-empty: the slot holds a record with the given title, link and notes, author `"Demo User"`, and the given `createdAt` and `id`, and the form navigates to the video view; otherwise the slot is unchanged and there is no navigation |
| VideoStorage.VideoStore.constructor | src/components/VideoForm.tsx:28 | the slot starts with the given content |

## Left out

- URL parsing by the `URL` constructor (WHATWG URL Standard), including host
  normalisation and the percent-decoding done by `searchParams`. The parsed
  fields are inputs.
- `JSON.stringify`, `JSON.parse` and `localStorage` are replaced by the
  `videoData: Option<VideoRecord>` slot. The serialised form of a record is
  never the empty string, so `Some` is exactly the "non-empty stored value"
  that the loading effect tests.
- VideoDisplay.Load: the slot never holds a value other code wrote. A stored
  `""` redirects to the form like an unset key (line 18 tests truthiness).
  Text that is not JSON makes `JSON.parse` throw, and the source does not
  catch that. A stored `null`, which is valid JSON, gives a blank view with no
  redirect (lines 19 and 50-51).
- The clock (`new Date().toISOString()`, `Date.now()`) is left out. Its
  readings are parameters of `Submit`.
- React state and effects, `react-router` navigation (modelled only as a
  `Route` tag or a `RedirectToForm` outcome), and the form-field setters
  `setTitle`, `setLink` and `setNotes`. `Submit` receives their current values.
- Rendering: the iframe, the "Invalid YouTube URL" placeholder, styling and
  icons. `window.open` for the "Watch on YouTube" button is also left out.
- Strings are sequences of Unicode characters. JavaScript strings are UTF-16
  code units, so `slice(1)` drops one code unit. URL host names and path names
  are ASCII after parsing, so this only matters for a `v` value, and the
  resolver never slices that.
- Editing the notes and deleting the record: neither has code in
  `VideoDisplay.tsx` or `VideoForm.tsx`, so neither is modelled.
- Form markup validation: `required` on the title and `type="url"` with
  `required` on the link (`VideoForm.tsx` lines 68, 76 and 81). The browser
  checks these before the submit event reaches `handleSubmit`. `Submit` models
  the handler alone, so it accepts any non-empty link.
- `VideoData` in the display file declares only `title` and `link`. `JSON.parse`
  returns the whole stored object, and `Load` returns the whole record.
