# next-dnd-upload: a Dafny model of the upload page and the upload endpoint

The repository is a small Next.js application. A page lets the user stage
files by drag-and-drop or a file picker, send them in one multipart POST
with a progress bar and a cancel button, and then see a success, error or
canceled screen that offers a reset. An API route saves each received file
under `<generated id>.<extension>` and answers 200, or 500 when the multipart
handler reports an error.

The model has six modules:

- `Wrappers`: `Option`, for JavaScript's `undefined` next to a present value.
- `Staging` (`src/pages/index.tsx`): the staged list. A drop is a pure append
  (`Dropped`, `NewItems`). Removal by id follows the handler step by step:
  the list is copied into an array, `FindIndex` scans it from the front, and
  `SpliceOut` shifts the tail left in place. Both are specified by the
  functions `FirstIndex` and `Removed`.
- `Progress` (`src/pages/index.tsx`): the percentage shown during upload.
  It is `Math.round(loaded * 100 / (total ?? 1))` on exact integers, stated
  by its rounding bounds (nearest integer, halves upward).
- `ByteUnits` (`src/pages/index.tsx`): `converterBytes`. It picks the unit
  (bytes, KB, MB, GB) by the 1024-based thresholds. Below 1 KB it writes
  the exact decimal byte count followed by " bytes".
- `UploadController` (`src/pages/index.tsx`): the page's state as a class
  `Controller`. Its fields are `state` (the screen), `progress`,
  `cancelToken` (a `CancelSource` object, or null), `files`, and
  `timerPending`. The last one stands for the two-second success timer
  that has been scheduled but has not fired yet. Each handler and each
  request callback is a method. `Valid()` is the object invariant:
  - ids are distinct;
  - the screen reads "uploading" exactly while a request is in flight or
    the success timer is pending, never both;
  - progress is set while uploading.

  The module ends with client methods that run the page's event sequences
  (success, cancel before the reply, cancel after the reply, failure, no
  reported total).
- `UploadApi` (`src/pages/api/upload.ts`): the one-character `split`, its
  inverse `Join`, the extension as the last segment (`pop()`), the stored
  name, and the reply chosen from the handler's error.

Events that come from outside (the HTTP response, the progress callback,
the timer, user clicks) are method calls whose arguments are the event's
data. The uuids of both files are parameters. A drop requires its ids to
be fresh, and the stored name takes the id as an argument.

Some preconditions stand for what the page guarantees its handlers:

- `Controller.StartUpload` requires the screen not to be uploading,
  because the send button exists only on the idle screen.
- `Controller.Settle` and `Controller.OnUploadProgress` require a cancel
  source, which the controller holds exactly while the request is in
  flight.
- `Controller.SuccessTimerFires` requires the success timer to be pending,
  because only a 200 reply schedules it.
- `Controller.Reset` requires a terminal screen (`ResetOffered`), the only
  screens that show the reset button.

Behaviour of the code worth noting:

- A client file name without a dot is stored as `<id>.<name>`: the whole
  name is the last segment of its split, so the name is kept whole
  (`UploadApi.NoDotKeepsWholeName`). So an upload of `b` is stored as
  `<id>.b`. A name ending in a dot is stored as `<id>.`.
- The upload handler does not refuse an empty list. Its `!files` guard can
  never fire, because the list is always an array. Only the page hides the
  send button when nothing is staged (`Controller.UploadOffered`).
  `Controller.StartUpload` has no non-empty requirement.
- `total ?? 1` replaces only a missing total. A reported total of 0 is not
  replaced, so `Progress.Percent` requires a present total to be positive.
- Without a total, the figure is 100 times the bytes sent and is not
  clamped. After 10 bytes it reads 1000, and the cancel button (shown only
  below 95) disappears.

## Model

| member | source | states |
|---|---|---|
| `Wrappers.Option.GetOr` | src/pages/index.tsx:72 | the `??` default: the present value, or the default when there is none |
| `Staging.NewItems` | src/pages/index.tsx:40 | one item per dropped blob, in order, item i carrying the i-th id and blob, each marked valid |
| `Staging.Dropped` | src/pages/index.tsx:40-41 | a drop keeps the old list as a prefix, appends the new items after it in the given order, and grows the length by the number dropped |
| `Staging.DroppedKeepsDistinct` | src/pages/index.tsx:38-43 | with fresh ids, the list after a drop still has no id twice |
| `Staging.FirstIndex` | src/pages/index.tsx:47 | `findIndex`: none exactly when no item has the id; otherwise a position holding the id with no earlier item holding it |
| `Staging.FindIndex` | src/pages/index.tsx:47-48 | the front-to-back scan returns -1 exactly when no item has the id, and otherwise the first position holding it |
| `Staging.SpliceOut` | src/pages/index.tsx:49 | `splice(k, 1)` in place: the array's first length-1 cells become the old array without position k, in order |
| `Staging.Removed` | src/pages/index.tsx:45-51 | the list after `handleRemove`: unchanged when no item carries the id, one item shorter when one does (the full contract is in `RemovedAbsent` and `RemovedFirstMatch`) |
| `Staging.RemovedAbsent` | src/pages/index.tsx:48 | removing an id that no item carries leaves the list unchanged |
| `Staging.RemovedFirstMatch` | src/pages/index.tsx:45-51 | when the first item with the id is at k, removing gives the list without position k (others kept in order), and the old multiset is the new one plus that item |
| `Staging.RemovedKeepsDistinct` | src/pages/index.tsx:45-51 | removing keeps the ids distinct |
| `Staging.RemovedDropsId` | src/pages/index.tsx:45-51 | with distinct ids, no item with the removed id is left |
| `Progress.Divisor` | src/pages/index.tsx:72 | the divisor is the reported total, and 1 only when no total is reported |
| `Progress.Percent` | src/pages/index.tsx:72 | the figure p is the rounded percentage: 2·p·d ≤ 200·loaded + d < 2·(p+1)·d for the divisor d |
| `Progress.RoundedQuotient` | src/pages/index.tsx:72 | the integer quotient lies between its defining bounds |
| `Progress.PercentUnique` | src/pages/index.tsx:72 | the rounding bounds determine the figure: any value meeting them is the figure |
| `Progress.PercentQuarter` | src/pages/index.tsx:72 | 50 of 200 bytes read 25 |
| `Progress.PercentWithoutTotal` | src/pages/index.tsx:72 | 10 bytes with no total read 1000 |
| `Progress.PercentWithoutTotalIsHundredfold` | src/pages/index.tsx:72 | with no total, the figure is 100 times the bytes sent |
| `Progress.PercentEnds` | src/pages/index.tsx:72 | no bytes read 0, all bytes read 100 |
| `Progress.PercentAtMostHundred` | src/pages/index.tsx:72 | while no more than the total has been sent, the figure is at most 100 |
| `Progress.PercentMonotone` | src/pages/index.tsx:72 | more bytes sent never lower the figure |
| `ByteUnits.Scale` | src/pages/index.tsx:199-201 | a byte is 1, a kilobyte 1024, a megabyte 1024², a gigabyte 1024³ bytes |
| `ByteUnits.UnitFor` | src/pages/index.tsx:203-211 | the chosen unit is the largest, up to GB, of which the size holds a whole one; below GB the size is under 1024 of it (bytes below 1024, KB below 1024², MB below 1024³, GB from there) |
| `ByteUnits.UnitForMonotone` | src/pages/index.tsx:203-211 | a bigger size never gets a smaller unit |
| `ByteUnits.ConverterBytes` | src/pages/index.tsx:198-211 | the label's suffix is that of the chosen unit; the number is the exact decimal count exactly when the size is below 1024; otherwise it is the size over that unit's scale, which is at most the size |
| `ByteUnits.SmallSizeText` | src/pages/index.tsx:203-204 | below 1024 the label is the decimal count followed by " bytes" |
| `ByteUnits.SmallSizeExample` | src/pages/index.tsx:203-204 | 512 bytes read "512 bytes" |
| `ByteUnits.DigitChar` | src/pages/index.tsx:204 | a digit value becomes a character between '0' and '9' |
| `ByteUnits.DigitValue` | src/pages/index.tsx:204 | a digit character has a value below 10 |
| `ByteUnits.DecimalString` | src/pages/index.tsx:204 | an integer's decimal text is never empty |
| `ByteUnits.DecimalRoundTrip` | src/pages/index.tsx:204 | the decimal text is a numeral (digits only, no leading zero) and reads back as the number |
| `UploadApi.Split` | src/pages/api/upload.ts:11 | `split('.')` yields at least one segment, none holding the separator; one segment (the whole text) exactly when the text has no separator |
| `UploadApi.Extension` | src/pages/api/upload.ts:11 | `split('.').pop()`: never contains a dot, and is the whole name when the name has none (that it is the text after the last dot is `ExtensionAfterLastDot` and `ExtensionOfDotted`) |
| `UploadApi.StoredName` | src/pages/api/upload.ts:12 | the template `${id}.${ext}`: starts with the id and a dot, followed by dot-free text (the exact shape and length are `StoredNameShape`) |
| `UploadApi.JoinSplit` | src/pages/api/upload.ts:11 | joining the segments again gives the text back |
| `UploadApi.LastSegment` | src/pages/api/upload.ts:11 | the last segment is the whole text when it has no separator, and otherwise the separator-free suffix right after a separator |
| `UploadApi.ExtensionAfterLastDot` | src/pages/api/upload.ts:11 | the extension never contains a dot, and it is the text after the last dot of the name |
| `UploadApi.ExtensionOfDotted` | src/pages/api/upload.ts:11 | whatever precedes the last dot, the dot-free text after it is the extension |
| `UploadApi.NoDotKeepsWholeName` | src/pages/api/upload.ts:11-12 | a name without a dot is its own extension, so it is stored as `<id>.<name>` |
| `UploadApi.TrailingDotEmptyExtension` | src/pages/api/upload.ts:11-12 | a name ending in a dot has an empty extension and is stored as `<id>.` |
| `UploadApi.StoredNameShape` | src/pages/api/upload.ts:12 | the stored name starts with the id, then a dot, then the extension, and is exactly as long as the id plus one plus the extension |
| `UploadApi.StoredNameOnlyByExtension` | src/pages/api/upload.ts:11-12 | with one id, two names give the same stored name exactly when their extensions agree |
| `UploadApi.StoredNameWithExtension` | src/pages/api/upload.ts:9-13 | `a.txt` is stored as `<id>.txt` |
| `UploadApi.StoredNameWithoutDot` | src/pages/api/upload.ts:9-13 | `b` is stored as `<id>.b` |
| `UploadApi.Respond` | src/pages/api/upload.ts:19-26 | status 500 exactly when the handler reports an error, with the error message and the error itself; 200 exactly when it reports none, with the success message |
| `UploadController.CancelSource.constructor` | src/pages/index.tsx:62 | a new cancel source is not signalled |
| `UploadController.CancelSource.Cancel` | src/pages/index.tsx:95 | cancelling signals the source |
| `UploadController.Controller.constructor` | src/pages/index.tsx:24-28 | the page starts on the idle screen with no progress, no cancel source, no staged file and no timer, and keeps its invariant |
| `UploadController.Controller.UploadOffered` | src/pages/index.tsx:189 | the send button shows only with something staged, and never while the leave prompt is armed |
| `UploadController.Controller.CancelOffered` | src/pages/index.tsx:136 | the cancel button (progress set, non-zero, below 95) shows only on the uploading screen, never beside the send or reset buttons |
| `UploadController.Controller.ResetOffered` | src/pages/index.tsx:138-164 | the reset buttons of the success, error and canceled screens never show while uploading or beside the send button |
| `UploadController.Controller.LeavePromptedWhileBusy` | src/pages/index.tsx:104-118 | the leave prompt (`LeavePrompted`, armed while uploading) is armed exactly while a request is in flight or the success timer is pending |
| `UploadController.Controller.Drop` | src/pages/index.tsx:38-43 | the list becomes the appended list; the screen, progress, cancel source and timer are unchanged |
| `UploadController.Controller.Remove` | src/pages/index.tsx:45-51 | the list becomes the list without its first item carrying the id, unchanged when none does; nothing else changes |
| `UploadController.Controller.StartUpload` | src/pages/index.tsx:54-63 | the screen becomes uploading, progress 0, with a fresh, unsignalled cancel source; the list is kept as it is, empty or not |
| `UploadController.Controller.OnUploadProgress` | src/pages/index.tsx:71-74 | progress becomes the rounded percentage of the bytes sent; nothing else changes |
| `UploadController.Controller.Settle` | src/pages/index.tsx:77-89 | settling happens only while uploading; a 200 schedules the timer and leaves the screen on uploading; another status or a non-cancel failure shows the error screen; the cancel error shows the canceled screen; the cancel source is dropped in every case |
| `UploadController.Controller.SuccessTimerFires` | src/pages/index.tsx:78 | the timer fires only while uploading, and only then does the success screen show |
| `UploadController.Controller.CancelUpload` | src/pages/index.tsx:92-97 | with a cancel source it signals it; without one it does nothing; no field of the page changes |
| `UploadController.Controller.Reset` | src/pages/index.tsx:142-163 | from the success, error or canceled screen: the list is emptied and the screen returns to idle |
| `UploadController.SuccessfulUpload` | src/pages/index.tsx:38-189 | the send button is offered exactly when something was dropped; then send, 50 of 200 bytes (shown as 25), a 200 reply, the timer, reset: the screens are idle, uploading, still uploading, success, idle, and the list ends empty |
| `UploadController.EmptyListUpload` | src/pages/index.tsx:54-63 | with nothing staged the send button is not offered, yet the handler itself still starts an upload of the empty list |
| `UploadController.CanceledUpload` | src/pages/index.tsx:92-136 | at 10% the cancel button is on offer and leaving prompts; a cancel before the reply ends on the canceled screen |
| `UploadController.CancelAfterResponse` | src/pages/index.tsx:77-97 | a cancel after a 200 reply finds no cancel source, changes nothing, and the timer still shows success |
| `UploadController.FailedUpload` | src/pages/index.tsx:77-154 | a non-200 reply or another failure ends on the error screen, where leaving does not prompt, and reset returns to idle |
| `UploadController.UploadWithoutTotal` | src/pages/index.tsx:72-136 | with no reported total, 10 bytes show as 1000 and the cancel button is not offered |

The page's display conditions are predicates of `Controller`: `UploadOffered`
(the send button), `CancelOffered` (the cancel button), `LeavePrompted`
(the leave-page prompt) and `ResetOffered` (the terminal screens). The client
methods above read `UploadOffered`, `CancelOffered` and `LeavePrompted`.
`ResetOffered` is the precondition of `Reset`.

## Left out

- Rendering, CSS, icons, the drop zone's drag highlight (`handleDrag`,
  `dragIn`) and the file picker button: presentation only.
- The POST itself, the `FormData` body and the HTTP client's cancellation
  mechanics: foreign I/O. The reply arrives as an `Outcome` argument of
  `Controller.Settle`. The client's promise that a signalled request
  rejects with the cancel error is the precondition of `Settle`.
- The two-second delay as wall-clock time: the timer is the discrete
  `SuccessTimerFires` event. The race between a cancel and a reply that
  arrive together is concurrency and is not modelled.
- `toFixed(2)` in `converterBytes`: floating-point formatting. The KB, MB
  and GB labels keep the size and the divisor symbolically.
- Floating-point arithmetic in the progress expression: the percentage is
  computed on exact integers.
- `Progress.Percent`: a reported total of 0 (Infinity or NaN in JavaScript)
  is excluded by its precondition.
- Generation of uuids on both sides: ids are parameters, assumed fresh.
- Multer's disk storage, the `uploads/` directory, writing the bytes, the
  `bodyParser: false` configuration, and the `catch` around the handler
  (it answers 500 like the error path of `Respond`): server plumbing.
- Logging (`console.log`, `console.error`, the effect that logs the token).
- React's batching of state updates: each setter is an immediate
  assignment.
