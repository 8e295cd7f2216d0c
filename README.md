# Rice-disease classifier and pin clean-up: a Dafny model

This project models the two pieces of deterministic logic in a small service pair.

- **Classifier service (`Deploy2.py`).**
  - `resize_and_pad` letterboxes a photo onto a white 256x256 canvas.
  - `preprocess_image` turns that canvas into the `(1, 256, 256, 3)` tensor the model takes.
  - The result-building block of the `predict` handler turns the model's probability vector into the response record. That record holds the top-1 label, the confidence, the top-3 list, and a success or low-confidence status.
- **Pin clean-up job (`index.js`).** `deleteOldPins` finds the pins older than thirty days. For each one it:
  - deletes the pin's image from Storage, when its download URL names one;
  - logs a copy of the record without `imageUrl` to the Firestore collection `deleted_pins_log`;
  - appends the same copy to the local file `deleted_pins_log.json`;
  - queues the pin's own deletion.

There are three modules, one per file:

- **`Letterbox`** (`letterbox.dfy`).
  - Sizes and offsets are computed in exact arithmetic. The ratio is a `real`, `int(...)` is `.Floor` and `//` is Euclidean division by 2.
  - The canvas is an `array2<Pixel>`. `NewImage` fills it with white in a loop, and `Paste` overwrites the pasted rectangle in a second loop, clipping like PIL.
  - Resampling is not modelled. The resized image is an arbitrary function `sample` from a pixel position to a colour.
- **`Decision`** (`decision.dfy`). `Decide` is the result-building block of `predict`, written as a pure function.
  - Its inputs are the probability vector, an ascending argsort of that vector and the `%.1f` formatter. The formatter is opaque.
  - The argsort is a parameter because NumPy's default sort does not promise an order among equal values. Every property is proved for every valid argsort. `ArgsortExists` shows that one always exists.
- **`PinCleanup`** (`pin_cleanup.dfy`).
  - The regex `/\/o\/(.*?)\?/` is modelled twice. One model is declarative: `/o/`, then text without line terminators, then `?`. The other is the engine's leftmost, lazy search. Lemmas relate the two.
  - The records are `map<string, Value>`. JavaScript objects that are copied and mutated become a `JsObject` class.
  - The services the job talks to are a `Services` class. Its fields are:
    - the image deletions it issued;
    - the Firestore log collection;
    - the local log file;
    - the pin deletions it queued.
  - `DeleteOldPins` runs the `for` loop and is proved to end in the state given by the left fold `Run` of the per-document step `Visit`.
  - Inputs from outside the job are parameters: clock readings, the success of each Firestore write and each pin deletion, and `decodeURIComponent`.

Four points of the code's behaviour are worth stating:

- **Tie order in the top-3 list.** Tied entries need not be in index order. The code reverses an ascending argsort (`Deploy2.py:134`), so tied entries come out in the reverse of the sort's own order, and NumPy's default sort does not fix that order. The model therefore asserts no order among ties. `Decision.TieTopOneDiffersFromTopThree` shows a valid argsort where top-1 is index 0 but the top-3 list starts with index 1.
- **Fixed threshold and list length.** The threshold (75.0) and the list length (3) are constants written into the handler (`Deploy2.py:130`, `Deploy2.py:133`).
- **Very elongated images.** When one side of the photo is more than 256 times the other, the short side scales to 0 pixels and `image.resize` raises (`Deploy2.py:62`); `predict` then answers with an error (`Deploy2.py:107-114`). `PreprocessImage` returns `ResizeError` exactly in that case.
- **A pin clean-up pass can stop part-way.** Three things throw out of the `for` loop of `deleteOldPins` and into its outer `catch`, and the documents after the one that throws are then neither logged nor deleted:
  - a truthy `imageUrl` that is not a string, which has no `match` method (`index.js:76`);
  - a storage path with a malformed escape, because `decodeURIComponent` sits outside the inner `try` (`index.js:78`);
  - a local log file holding JSON that is not a list, which has no `push` method (`index.js:45`).

  The first two are the `Throw` case of `ImageStep` (`PinCleanup.ImageStepThrowsExactly`); "throws" in the rows below means them. The third is `LogFile.NotAList`.

## Model

| member | source | states |
|---|---|---|
| Letterbox.ScaledSize | Deploy2.py:53-55 | the scaled size fits inside the target box and at least one side equals its target dimension |
| Letterbox.ScaledSizeIsExact | Deploy2.py:54-55 | the side whose ratio is the minimum scales to exactly its target dimension; the other side is the floor of its exact scaled value |
| Letterbox.ScaledSizeKeepsAspect | Deploy2.py:54-55 | aspect is kept: when the width limits, the new height is the largest integer `nh` with `nh * w <= h * tw` (and symmetrically when the height limits) |
| Letterbox.PasteOffset | Deploy2.py:66-67 | `(target - size) // 2` as floor division; when the image fits, the offset is non-negative, the rectangle lies inside the canvas, and an odd leftover pixel goes to the right or bottom |
| Letterbox.PastedRectangleFits | Deploy2.py:66-67 | both offsets of the pasted rectangle are non-negative and the rectangle lies inside the target canvas |
| Letterbox.LetterboxShowsWholeImage | Deploy2.py:65-67 | every pixel of the resized image appears on the canvas, shifted by the paste offsets |
| Letterbox.LetterboxPadsWithWhite | Deploy2.py:65-67 | every canvas pixel outside the pasted rectangle is (255, 255, 255) |
| Letterbox.NewImage | Deploy2.py:65 | a fresh canvas of the requested height and width with every pixel set to the fill colour |
| Letterbox.Paste | Deploy2.py:66-67 | after the paste, each canvas pixel inside the clipped image rectangle holds the image pixel at the shifted position; every other pixel is unchanged |
| Letterbox.ResizeFailsExactly | Deploy2.py:54-62 | into a non-empty box, the resize raises exactly when the short side scaled by the limiting factor is below one pixel (`h * tw < w` when the width limits, `w * th < h` when the height limits) |
| Letterbox.ModelResizeFailsExactly | Deploy2.py:54-62 | into the 256 x 256 box, the resize raises exactly when one side is more than 256 times the other |
| Letterbox.ExactAspectLimitResizes | Deploy2.py:54-62 | in exact arithmetic a 12544 x 49 image, exactly 256 times as wide as high, resizes to 256 x 1 rather than failing |
| Letterbox.ResizeAndPad | Deploy2.py:51-68 | returns no canvas exactly when the resize raises; otherwise a fresh `th` x `tw` canvas whose every pixel is the letterboxed image at that position (`LetterboxAt`) |
| Letterbox.Channels | Deploy2.py:74 | a pixel becomes three channel values in [0, 1], all equal to 1.0 exactly for white |
| Letterbox.PreprocessImage | Deploy2.py:70-76 | fails exactly when one side is more than 256 times the other (the resize raises); otherwise, whatever the input size, the tensor has shape (1, 256, 256, 3), values in [0, 1], and holds the channels of the 256x256 letterboxed image |
| Decision.Label | Deploy2.py:121-129 | the catalog label for indices 0 to 4 and "ไม่ทราบโรค" for any other index |
| Decision.ArgMax | Deploy2.py:117 | `np.argmax`: an in-range index holding the maximum, with every earlier index strictly smaller (the first occurrence) |
| Decision.ArgMaxIsUnique | Deploy2.py:117 | these two properties determine the top-1 index |
| Decision.TopIndicesAt | Deploy2.py:134 | the k-th listed index is the k-th from the end of the ascending argsort, and the list has `min(n, N)` entries |
| Decision.TopIndicesSorted | Deploy2.py:134-135 | listed indices are distinct, in range, and their probabilities are non-increasing |
| Decision.TopIndicesDominate | Deploy2.py:117-134 | the first listed index holds the maximum, and no index outside the list has a larger probability than the last listed one |
| Decision.TopIndicesLastDominates | Deploy2.py:134 | no omitted index has a larger probability than the last listed one |
| Decision.TopIndicesFirstIsMax | Deploy2.py:134 | the first listed index holds the maximum probability |
| Decision.TopIndicesRanked | Deploy2.py:133-143 | the top-n list has `min(n, N)` entries that are distinct, in range, non-increasing, and dominate every omitted index |
| Decision.TopEntriesLabels | Deploy2.py:129-138 | the top-1 label and every top-3 label go through the same catalog lookup with the same fallback, and on success the reported class is the label of the first maximum |
| Decision.InsertionArgsortIsArgsortPrefix | Deploy2.py:134 | inserting the indices one by one after every index with a smaller or equal value gives an ascending permutation of the indices inserted |
| Decision.ArgsortExists | Deploy2.py:134 | every probability vector has an ascending argsort, so `Decide`'s precondition can always be met |
| Decision.Decide | Deploy2.py:117-166 | confidence is the maximum times 100 with its formatted text; the top-3 entries come from the ranked list; status is "success" exactly when confidence >= 75.0, and then the top-1 label and success message are reported; otherwise "low_confidence" with "ไม่สามารถระบุได้" and the retake message; confidence and top-3 are the same in both branches |
| Decision.ClearWinner | Deploy2.py:117-153 | [0.10, 0.81, 0.05, 0.02, 0.02] gives success with Leaf Scald at 81.0 and the top-3 indices [1, 0, 2] for every valid argsort |
| Decision.ThresholdIsInclusive | Deploy2.py:145 | a maximum of exactly 0.75 is reported as success |
| Decision.BelowThresholdHidesLabel | Deploy2.py:134-163 | for [0.30, 0.28, 0.20, 0.12, 0.10], whatever the valid argsort, the status is low_confidence and the computed top-1 (index 0) is replaced by the placeholder label, while the top-3 list is indices [0, 1, 2] and still names their catalog classes |
| Decision.TieTopOneDiffersFromTopThree | Deploy2.py:117-134 | on a tie, argmax picks index 0 while a valid argsort puts index 1 first in the top-3 list |
| Decision.UnknownIndexGetsPlaceholder | Deploy2.py:129-138 | a sixth class wins with its label reported as "ไม่ทราบโรค" in both the top-1 and the top-3 entry |
| PinCleanup.Cutoff | index.js:57 | the cutoff is exactly 2,592,000,000 ms (30 days) before now |
| PinCleanup.OutdatedMeansOlderThanThirtyDays | index.js:57-61 | a pin passes `lastUpdated < cutoff` exactly when it is more than 30 days old |
| PinCleanup.LazyGroupEndFindsFirstMark | index.js:76 | the lazy group from a position ends at the first `?`, with no `?` or line terminator before it; it fails exactly when every `?` is preceded by a line terminator |
| PinCleanup.MatchFromIsLeftmost | index.js:76 | the engine's match starts at the leftmost position where the regex can match and ends at the first `?` after it; no match means no position matches |
| PinCleanup.NoMatchWithoutMark | index.js:76 | a start whose lazy group reaches a line terminator or the end before any `?` does not match |
| PinCleanup.ExtractStoragePathMatches | index.js:76 | the regex matches exactly when some position matches declaratively, and the captured text contains no `?` and no line terminator |
| PinCleanup.ExtractedPathIsLeftmostGroup | index.js:76 | the captured text lies between the leftmost matching `/o/` and a `?` with no line terminator before it, and holds no `?` itself, so that `?` is the first after the `/o/` |
| PinCleanup.ExtractStoragePathFrom | index.js:76 | the position of the leftmost `/o/` and the first `?` after it determine the captured text completely |
| PinCleanup.StoragePathToDelete | index.js:75-77 | a path is returned only when the capture is non-empty; an empty or absent capture gives none |
| PinCleanup.DeletedPathNeedsMarkers | index.js:75-77 | a deleted path is non-empty and sits between a `/o/` and a later `?` with no line terminator between them |
| PinCleanup.DownloadUrlPath | index.js:76-77 | a download-URL path yields its encoded object path up to the query |
| PinCleanup.EmptyFirstGroupHidesLaterPath | index.js:76-77 | an empty leftmost group wins, so no image is deleted even though a later `/o/...?` matches |
| PinCleanup.TimestampId | index.js:95 | the id has the same length as the ISO string and contains no `:` or `.`; exactly those characters become `-`, and every other character is kept |
| PinCleanup.TimestampIdIsIdempotent | index.js:95 | sanitising an id a second time changes nothing |
| PinCleanup.TimestampIdOfIsoString | index.js:95 | a concrete ISO time fragment maps to its dashed form |
| PinCleanup.WithoutImageUrl | index.js:91-92 | the cleaned record has the original's keys minus `imageUrl`, with every remaining value unchanged |
| PinCleanup.JsObject.Delete | index.js:92 | `delete obj[key]` removes exactly that key |
| PinCleanup.CleanedCopy | index.js:91-92 | a fresh object equal to the original without `imageUrl`; the original is not changed |
| PinCleanup.LogEntry | index.js:45-49 | the entry has the record's keys plus `id` and `timestamp`; the record's own values win, and the generated ones show only where the record lacks those keys |
| PinCleanup.AppendedKeepsPrior | index.js:35-49 | the new list is the prior list (empty when the file was missing or unreadable) followed by exactly one final entry; an existing list is kept as its prefix |
| PinCleanup.Services.SaveLogLocally | index.js:33-52 | succeeds exactly when the file is not a non-list JSON value; then the file becomes the prior list plus the new entry, and otherwise it is left as it was |
| PinCleanup.ImageStepThrowsExactly | index.js:75-88 | the image step throws exactly for a truthy `imageUrl` that is not a string, or a string whose extracted storage path `decodeURIComponent` rejects; it deletes exactly the decoded path of a string `imageUrl` whose path decodes |
| PinCleanup.VisitEffects | index.js:72-106 | one document's step goes on exactly when its image step does not throw and the log file is not a non-list value; then it deletes at most its own image, appends one log entry, and queues its pin's deletion |
| PinCleanup.Services.VisitDoc | index.js:72-106 | one loop iteration changes the services exactly as the step `Visit` says and reports whether the loop goes on |
| PinCleanup.Services.DeleteOldPins | index.js:54-114 | the services end in the state given by the fold `Run` over the snapshot, and the pass outcome is `PassOutcome`; an empty snapshot changes nothing |
| PinCleanup.RunExtends | index.js:71-107 | one more document extends the fold by one step, unless the fold has already stopped |
| PinCleanup.RunStopsAtFailure | index.js:71-113 | after an exception, later documents change nothing |
| PinCleanup.RunQueuesOneDeletionPerDoc | index.js:71-107 | the loop runs to the end exactly when the snapshot is empty, or when the log file is not a non-list value and no document throws; then exactly one pin deletion is queued per document, in snapshot order, whatever the image and Firestore steps did |
| PinCleanup.RunAppendsOneEntryPerDoc | index.js:45-107 | a complete pass over a non-empty snapshot leaves the local log as its prior list followed by one entry per document, in order |
| PinCleanup.LastEntryAppended | index.js:71-107 | in a complete pass, the last document's entry is appended to the log that the earlier documents left |
| PinCleanup.VisitLogsNoImageUrl | index.js:91-98 | a document the step writes to the Firestore log has no `imageUrl` |
| PinCleanup.RunLogsNoImageUrl | index.js:91-104 | no document the pass writes to the Firestore log has `imageUrl`; whether the pass completes or stops at a throw, the local file is either untouched or its prior list followed by entries without `imageUrl` |
| PinCleanup.RunDeletesOnlyStoredImages | index.js:75-88 | a complete pass issues image deletions exactly for the documents with a non-empty, decodable storage path, in order |
| PinCleanup.PassOutcome | index.js:64-113 | a reported count is positive and equals the number of documents |
| PinCleanup.ReportedCountIsQueuedDeletions | index.js:106-110 | the reported count equals the number of pin deletions the pass queued |

## Left out

- HTTP and framework code: the FastAPI app, routes, CORS, request models and URL validation in `Deploy2.py`, and the Express routes in `index.js`. These are I/O.
- Image download and decoding, `image.convert("RGB")` and the Lanczos resampling filter. These are foreign-library code. The resized image's pixels are the arbitrary function `sample`; only its dimensions are computed.
- Model loading and `model.predict`. These are foreign code. `Decide` takes the probability vector as input.
- Letterbox.ScaledSize: it computes in exact rationals. The source uses IEEE doubles, where `int(x * ratio)` can come out one lower than the exact value (for a 49-pixel side and a 256 target, `49 * (256 / 49)` rounds below 256). Floating point is out of scope.
- Letterbox.Channels: it divides exactly by 255. The source's `float32` rounding is not modelled.
- Decision.Decide: the `%.1f` formatting is the opaque parameter `format`, so the confidence text is stated only as `format(value) + "%"`. Probabilities are exact reals rather than floats.
- Letterbox.PreprocessImage: an image whose short side scales to 0 pixels makes the source fail with an error (`image.resize` raises, and `predict` answers HTTP 500); the model returns `ResizeError` there but does not model the HTTP response or the exception's message. Because the model's arithmetic is exact, an image exactly 256 times as wide as it is high, such as 12544 x 49, keeps a 1-pixel side in the model (`Letterbox.ExactAspectLimitResizes`), while in doubles `int(49 * (256 / 12544))` can come out as 0 and make the resize raise.
- Decision.Decide: it requires a non-empty probability vector. In the source an empty row makes `np.argmax` raise (`Deploy2.py:117`), which ends in a server error; the classifier returns a fixed-width vector, so that path is not modelled.
- Logging in both files.
- Firebase initialisation and the Firestore query (`index.js:10-30`, `index.js:59-62`). The snapshot is the input `docs`, already filtered by `lastUpdated < cutoff`. `Cutoff` states the filter's bound.
- Storage image deletions. They are recorded as issued, because their failures are caught and only logged.
- Local log write failures (`fs.writeFileSync` throwing), and the order of JSON keys in the written file. These are file-system I/O and serialisation.
- The clock (`new Date().toISOString()`) and `decodeURIComponent`. Both are parameters: the readings come in `Answers`, and the decoder is the function `decode`, whose `None` stands for a thrown `URIError`.
- Concurrency: `Promise.all` over the queued pin deletions is modelled only by the outcome of each deletion (`pinDeleteOk`), not by interleaving. A pin deletion that rejects before `Promise.all` is attached (while a later document is still being processed) is an unhandled rejection in Node.js rather than a failure caught by the outer `catch`; the model treats every failed deletion as the latter.
- The cron schedule and the `/logs` route. These are scheduling and I/O.
- Truthiness of `imageUrl` is modelled for strings, numbers, booleans and null; other values count as truthy. `NaN` is not modelled: a number is falsy only at zero.
