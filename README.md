# iTunes Gallery: rotation-buffer pipeline

A Dafny model of the core of `GalleryApp`, a JavaFX gallery that searches the
iTunes catalog and rotates the artwork it finds through a 4 x 5 grid of frames.
The model covers the pipeline fetch, deduplicate, buffer, warm fill, rotate,
together with the play/pause and control-enable logic around it:

- `Catalog` (catalog.dfy): the request URI and a parser that reads it back;
  the response as an input value (`Response`); the dedup loop over
  `artworkUrl100`; the 21-result threshold and its message; the loop that
  builds the FIFO buffer in the hash set's iteration order, reporting the
  progress counter `load`; the alert text.
- `Sequences` (sequences.dfy): duplicate-freedom of a sequence.
- `Rotation` (rotation.dfy): the buffer as a value. A pop-front/push-back is a
  left rotation by one; lemmas on composition, permutation, duplicate-freedom
  and the round-robin order of many ticks.
- `Gallery` (gallery.dfy): class `GalleryApp` with the buffer `display`, the
  `frames` array of 20 images, `playing`, the timeline's running state, the
  `play`/`get` disabled flags, the status message, the alert text and the
  progress value. Its methods are `init()`'s frame grid (the constructor), the
  tick, the warm fill, `search()`, the get-images task, the play handler and
  `pause()`. `Valid()` packs the invariant: the flags are in one of four
  session states (Idle, Loading, Ready, Playing); once loaded, the buffer holds
  at least 21 distinct handles and every frame shows one of them.
- `Text` (text.dfy): the `%d` rendering of a count, with its parser.
- `Wrappers` (wrappers.dfy): `Option` and `Result`.

What the model takes as inputs:

- An image handle is its URL string: `new Image(url)` is modelled as always succeeding and yielding that URL (its exceptions are listed under "## Left out").
- `URLEncoder.encode` is a function parameter `enc`.
- The HTTP exchange and the JSON decoding become one `Response` value. Either
  the send threw (with the exception's text) or a status code, the response's
  text and the decoded results came back.
- The hash set's iteration order is a nondeterministic choice (`:|`) in the
  build loop. Every property holds for every order.
- `new Random().nextInt(20)` becomes the `slot` argument of `Tick`.
- `%n` in the alert format is written as `"\n"`.

A tick re-enqueues the popped handle, so the buffer is a pure rotation by one
(GalleryApp.java:197-199). The warm fill pushes each popped handle to the back
(GalleryApp.java:296-298). A consequence of the first: after enough ticks two
frames can show the same image, because a handle still on screen can come
round again (`Gallery.FramesCanRepeat`).

## Model

| member | source | states |
|---|---|---|
| Gallery.GalleryApp.constructor | gallery./GalleryApp.java:119-192 | 20 frames all showing the default image, frame `i` placed in cell (`i mod 5`, `i div 5`), play disabled and get enabled (Idle), initial message, progress 0 |
| Gallery.Cell | gallery./GalleryApp.java:178-186 | frame `i < 20` lies in column `i mod 5 < 5`, row `i div 5 < 4` |
| Gallery.FrameIndex | gallery./GalleryApp.java:178-186 | the frame of column `c < 5`, row `r < 4` is `r*5+c < 20` |
| Gallery.CellOfFrameIndex | gallery./GalleryApp.java:178-186 | the frame indexed by cell (c, r) is placed in cell (c, r) |
| Gallery.FrameIndexOfCell | gallery./GalleryApp.java:178-186 | frame i's cell indexes frame i back; with the row above, the 20 frames fill the 4 x 5 grid one to one |
| Catalog.SearchUri | gallery./GalleryApp.java:256-261 | the URI always addresses the search endpoint with the `term` parameter first |
| Catalog.SearchUriRoundTrip | gallery./GalleryApp.java:256-261 | when the encoder writes no `&` into term or media, the URI parses back into exactly the encoded term, media and limit `200` |
| Catalog.SplitAtJoin | gallery./GalleryApp.java:260 | splitting `a & b` at the first `&` gives back `a` and `b` when `a` has no `&` (the query separator is unambiguous) |
| Catalog.ParseJoined | gallery./GalleryApp.java:260 | a query joined from three values, the first two free of `&`, parses back into exactly those values |
| Catalog.StripPrefixJoin | gallery./GalleryApp.java:260-261 | the fixed text before each parameter value is removed exactly, leaving the rest |
| Catalog.Deduplicate | gallery./GalleryApp.java:272-275 | the loop's set equals the set of `artworkUrl100` values over all results, and is no larger than the result list |
| Catalog.ArtworkSetMembers | gallery./GalleryApp.java:272-275 | a URL is in the deduplicated set exactly when some result carries it (both directions) |
| Catalog.ArtworkSetBound | gallery./GalleryApp.java:272-275 | at most as many distinct URLs as results |
| Catalog.SearchOutcomeBounds | gallery./GalleryApp.java:266-280 | a success has between 21 distinct URLs and as many as there were results; for a received response, the insufficient-results error with the exact count exactly when status is 200 and fewer than 21 |
| Catalog.InsufficientMessage | gallery./GalleryApp.java:277-279 | the threshold message ends with ` distinct results found, but 21 or more are needed.` and what precedes it is the decimal digits of the observed count, with no leading zero (only `0` itself starts with `0`) |
| Catalog.SearchOutcome | gallery./GalleryApp.java:266-280 | the search succeeds exactly when the status is 200 and at least 21 distinct URLs came back, yielding the set of all `artworkUrl100` values; an insufficient-results error carries a count below 21; a failed send is the client error with its exception, and a non-200 status is the network error carrying the response text |
| Catalog.ExceptionText | gallery./GalleryApp.java:268-279 | a bad status reads as `java.io.IOException: ` followed by exactly the response text; a client error is its exception text unchanged; a failed threshold reads as `java.lang.IllegalArgumentException: ` followed by the threshold message |
| Catalog.AlertBody | gallery./GalleryApp.java:303 | the alert starts `URI: ` followed by the request URI, then exactly `\n\nException: ` (the `%n%nException: ` of the format), and ends with the exception text |
| Catalog.InsufficientMessageInjective | gallery./GalleryApp.java:277-279 | the threshold message determines the observed count |
| Catalog.InsufficientMessageExample | gallery./GalleryApp.java:277-279 | 15 distinct URLs give the message `15 distinct results found, but 21 or more are needed.` |
| Text.Decimal | gallery./GalleryApp.java:278 | the `%d` rendering of a count: at least one digit, all digits, a leading `0` only for zero, and then `0` is the whole rendering |
| Text.DecimalRoundTrip | gallery./GalleryApp.java:278 | parsing the rendering gives back the count |
| Text.DecimalInjective | gallery./GalleryApp.java:278 | different counts render differently |
| Catalog.BuildQueue | gallery./GalleryApp.java:281-288 | the queue has length K, holds each distinct URL exactly once and nothing else; the reported `load` values are exactly 1, 2, ..., K |
| Rotation.RotateLeft | gallery./GalleryApp.java:195-200 | after `n` pop/push steps the queue keeps its length; its first K-n places hold the old tail and its last `n` the old head, in order |
| Rotation.RotateLeftAt | gallery./GalleryApp.java:195-200 | place `i` of the queue rotated by `n` holds old place `(i+n) mod K` |
| Rotation.RotateLeftStep | gallery./GalleryApp.java:295-299 | one more pop-front/push-back after `n` steps is the rotation by `n+1` |
| Rotation.RotateLeftAdd | gallery./GalleryApp.java:295-299 | rotating by `a` then `b` is rotating by `a+b` |
| Rotation.RotateLeftKeepsDistinct | gallery./GalleryApp.java:195-200 | a duplicate-free buffer stays duplicate-free under rotation |
| Rotation.RotateLeftPermutes | gallery./GalleryApp.java:195-200 | rotation preserves the multiset of handles, and duplicate-freedom in both directions |
| Rotation.RotateLeftMultiset | gallery./GalleryApp.java:195-200 | moving the front of the buffer to the back keeps every handle with its multiplicity |
| Rotation.RotateLeftUndo | gallery./GalleryApp.java:195-200 | rotating the rest of the way round restores the buffer |
| Rotation.AfterTicks | gallery./GalleryApp.java:195-202 | any number of ticks keeps the buffer's length K |
| Rotation.AfterTicksIsRotation | gallery./GalleryApp.java:195-202 | `j` ticks rotate the buffer by `j mod K` |
| Rotation.RoundRobin | gallery./GalleryApp.java:195-202 | the handle popped at tick `j` is element `j mod K` of the starting buffer, K ticks restore the buffer, and no handle is lost or duplicated |
| Gallery.GalleryApp.Tick | gallery./GalleryApp.java:195-200 | the chosen frame gets the old buffer head, every other frame is unchanged, the buffer becomes its rotation by one, flags untouched, invariant kept |
| Gallery.GalleryApp.WarmFill | gallery./GalleryApp.java:294-300 | with the timeline stopped: frame `i` gets element `i` of the buffer for `i` in 0..19, and the buffer becomes its rotation by 20 |
| Gallery.WarmFillShows | gallery./GalleryApp.java:294-300 | after the warm fill of K > 20 distinct handles the buffer holds the same K distinct handles, frame `i` holds buffer place `K-20+i`, and the 20 frames are distinct |
| Gallery.FramesCanRepeat | gallery./GalleryApp.java:195-200 | with 21 distinct handles, after the warm fill a tick on slot 5 and then one on slot 3 leave frames 0 and 3 showing the same first handle: the distinct frames of the warm fill do not stay distinct |
| Gallery.GalleryApp.InstalledLoad | gallery./GalleryApp.java:289-300 | the state the success path leaves is valid and shows the load |
| Gallery.GalleryApp.Load | gallery./GalleryApp.java:281-300 | success path: buffer of the K distinct URLs, frames as its last 20 places and distinct, progress K/K, message is the URI, get and play enabled (Ready), alert text unchanged |
| Gallery.GalleryApp.Fail | gallery./GalleryApp.java:301-313 | error path: the alert shows the given text (`Search` passes `AlertBody` of the URI and the exception), failure message, progress 1, get enabled; play enabled and paused only when a buffer exists (Ready), otherwise play stays disabled (Idle); buffer untouched |
| Gallery.GalleryApp.Search | gallery./GalleryApp.java:256-313 | on success the Load state with the alert text unchanged; on a send failure, a non-200 status or at most 20 distinct URLs, the Fail state with the alert `AlertBody(uri, error)` and the buffer and all frames exactly as before |
| Gallery.GalleryApp.GetImages | gallery./GalleryApp.java:203-210 | pauses before the search touches the buffer, then ends as Search says (on success the alert text unchanged); the timeline is stopped afterwards |
| Gallery.GalleryApp.TogglePlay | gallery./GalleryApp.java:211-220 | flips `playing` and the timeline with it (Ready to Playing, Playing to Ready), nothing else changes |
| Gallery.GalleryApp.Pause | gallery./GalleryApp.java:319-323 | stops the timeline and clears `playing`, nothing else changes; when already paused it changes nothing at all |

## Left out

- Networking (`HttpClient`, HTTP/2, redirects, `HttpRequest`): foreign I/O. Only its result enters, as `Response`.
- Gson decoding: foreign. The results come in already decoded, with a URL string in every result. A JSON syntax error or a missing `results` array would raise exceptions the source does not catch.
- A missing `artworkUrl100` (null in Java): `HashSet.add(null)` succeeds, so null counts as one distinct value. With at most 20 distinct values the source takes the caught threshold path with a count that includes null; with more, `new Image(null)` throws a NullPointerException that nothing catches. The model has no null URL.
- `new Image(url)` throwing IllegalArgumentException for an invalid or unsupported URL: the source catches it (line 301) after some progress has already been reported. The model treats every URL as loadable, so this failure path is not modelled.
- `URLEncoder.encode` internals: a parameter `enc`. `URI.create` cannot fail on encoded text and is not modelled.
- Catalog.SearchUriRoundTrip: assumes the encoder writes no `&`, which URL encoding guarantees but the model cannot see.
- JavaFX: layout, `Image` loading, `ImageView`, the `Alert` dialog itself, button and label texts such as Play/Pause, the prefilled term and media, `start()` and `stop()`.
- `Timeline` timing (the 2-second period): the timeline is a running flag; each tick is one call of `Tick`.
- Threads: `runNow`, `Platform.runLater` and their ordering. `search()` is one sequential call, and the deferred UI updates take effect in program order. The source's window where `play` is re-enabled before `display` is assigned is therefore not modelled.
- `new Random().nextInt(20)`: a caller-supplied slot.
- Text.Decimal: Java's `%d` writes digits in the default locale's zero digit; the model renders ASCII digits, as under a locale whose zero digit is `0`.
- Progress as a `double`: the model keeps the fraction `load / K` as two integers.
