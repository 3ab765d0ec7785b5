# Potato disease classifier: upload validation and upload page state

The web application takes a photo of a potato leaf and classifies it. The part
of it that can be stated exactly is how an upload is accepted. This project
models that part in two places and proves properties of the model.

- **The browser side** (`static/js/script.js`): the upload page's state and
  its event handlers. The state is the files held by the upload input, the
  preview image's source, the upload card's `has-image` class, and the analyze
  button's `loading` class and `disabled` flag. The handlers are
  - the selection handler `handleFileSelect`: type check, then size check,
    then a read into a data URL;
  - the read's completion, which shows the preview;
  - `removeImage`;
  - the form's submit guard;
  - the drop handler `handleDrop`.

  It also covers the `u`/`U` keyboard shortcut's decision.
- **The server side** (`app.py`): the extension test `allowed_file`, and the
  chain of early returns at the top of the `home` route. That chain picks the
  error page for a request, or lets it go on to saving and classifying the
  file.

Files:

- `wrappers.dfy`, module `Wrappers`: `Option`.
- `server_validation.dfy`, module `ServerValidation`.
  - `Lower`, `LastDot` and `RSplitLastDot` model Python's `lower()` and `rsplit('.', 1)`.
  - `AllowedFile` models `allowed_file`.
  - `HomeDecision` models the check chain. Its contract states the
    first-failed-check rule: `CheckOrder` gives the order of the checks and
    `Violates` holds when an individual check fails.
- `file_checks.dfy`, module `FileChecks`.
  - The accepted media types and the 10 MiB limit.
  - `CheckFile`, the two checks of the selection handler in their order.
  - The alert texts.
  - `OpensPicker`, the keyboard shortcut's condition.
- `upload_state.dfy`, module `UploadState`.
  - The page state as a value `Page`, with one function per handler.
  - Event sequences: `Event` and `Run`.
  - The invariant `Consistent`: `has-image` is set exactly when the preview
    has a source, `loading` is set exactly when `disabled` is, and every read
    in flight is of a file that passed the checks.
  - Lemmas for each handler and for every event sequence.
- `upload_page.dfy`, module `UploadUi`.
  - The class `UploadPage`, whose fields the handler methods update in place.
  - Each method's contract ties the new state to the matching `UploadState`
    function of the old state, and keeps `Valid()`.
  - `Scenario` is a client. It shows what follows from the contracts alone:
    a 12 MiB PNG is refused for its size, an empty submission is cancelled, a
    2 MiB JPEG is previewed once its read completes, and then the submission
    goes ahead.

Inputs the model takes as parameters:

- Whether the classifier loaded at start-up (`modelLoaded`).
- The facts of a request.
- The files the user picks or drops.
- The data URL a completed read delivers.
- Whether the page has an analyze button.

## Model

| member | source | states |
|---|---|---|
| `ServerValidation.LastDot` | app.py:45 | returns no index exactly when the name has no dot; otherwise returns the index of a dot with no dot after it |
| `ServerValidation.RSplitLastDot` | app.py:45 | `rsplit('.', 1)`: a name without a dot stays whole; otherwise the two parts joined by a dot give back the name, and the right part has no dot |
| `ServerValidation.NoDotRejected` | app.py:44 | a name without a dot is never allowed |
| `ServerValidation.ExtensionDecides` | app.py:42-45 | for any stem and any extension without a dot, `stem.ext` is allowed exactly when the lower-cased extension is in {png, jpg, jpeg, webp} |
| `ServerValidation.LastDotSplitUnique` | app.py:45 | two splits of one string at a dot with no dot to its right are the same split |
| `ServerValidation.SameDotsSameLastDot` | app.py:45 | strings with dots at the same positions have the same last dot |
| `ServerValidation.LowerSameDots` | app.py:45 | names that lower-case alike have equal length and dots at the same positions |
| `ServerValidation.LowerSuffix` | app.py:45 | lower-casing a suffix gives the same suffix of the lower-cased name |
| `ServerValidation.CaseInsensitive` | app.py:45 | two names that lower-case to the same text are both allowed or both refused |
| `ServerValidation.LowerOfLowerCase` | app.py:45 | a name with no upper-case ASCII letter is unchanged by lower-casing |
| `ServerValidation.DoubleExtensionAllowed` | app.py:45 | `a.tar.png` is allowed |
| `ServerValidation.HiddenExtensionRejected` | app.py:45 | `a.png.exe` is refused |
| `ServerValidation.BareExtensionAllowed` | app.py:45 | `.png` is allowed |
| `ServerValidation.UpperCaseAllowed` | app.py:45 | `IMG.JPG` and `x.WebP` are allowed |
| `ServerValidation.TrailingDotRejected` | app.py:19-45 | `photo.` has an empty extension and is refused |
| `ServerValidation.HomeDecision` | app.py:76-99 | a GET renders the form; a POST is rejected with exactly the first violated check, in the order model, field, name, extension; a POST goes on only when no check is violated, and then carries the uploaded name |
| `ServerValidation.SaveOnlyValidated` | app.py:92-106 | whatever reaches the save step has a non-empty name with a dot and an allowed extension |
| `ServerValidation.EmptyNameBeforeType` | app.py:91-99 | an empty name is reported as not selected, although it also fails the extension test |
| `ServerValidation.ModelCheckedFirst` | app.py:79-82 | without a loaded model every POST gets the model error, whatever else is wrong |
| `FileChecks.AcceptedExactly` | static/js/script.js:9-23 | a file passes exactly when its type is one of the four listed strings and its size is at most 10485760 |
| `FileChecks.TypeCheckedFirst` | static/js/script.js:9-23 | a file of an unlisted type is refused for its type, whatever its size |
| `FileChecks.SizeLimitInclusive` | static/js/script.js:17-23 | a file of a listed type is refused for size exactly when it is larger than 10485760 bytes; a file of exactly 10485760 bytes passes |
| `FileChecks.TypeIsCaseSensitive` | static/js/script.js:10-11 | `image/PNG` and `IMAGE/JPEG` are refused as invalid types |
| `FileChecks.ShortcutKeys` | static/js/script.js:203-213 | `u` and `U` behave alike, and no other key opens the picker |
| `FileChecks.ShortcutIgnoredInTextFields` | static/js/script.js:206 | a key pressed in an INPUT or TEXTAREA never opens the picker |
| `UploadState.SelectWithoutFileIsNoOp` | static/js/script.js:5-7 | with no file in the input, selection changes nothing and raises no message |
| `UploadState.SelectRefused` | static/js/script.js:9-23 | a refused file raises the message of the first failed check and clears the input; nothing else changes, the preview and `has-image` included |
| `UploadState.SelectAccepted` | static/js/script.js:25-39 | an accepted file raises nothing; it only queues its read, and the preview and `has-image` keep their values |
| `UploadState.SelectLooksAtFirstFileOnly` | static/js/script.js:5 | inputs with the same first file give the same message, and the same page apart from the input |
| `UploadState.AcceptThenReadShowsPreview` | static/js/script.js:26-39 | after an accepted file's read completes, the preview source is the read's result, `has-image` is set, and that read is no longer pending |
| `UploadState.RemoveClears` | static/js/script.js:45-56 | removal leaves the input and the preview empty and `has-image` cleared, from any state, and keeps the button's state |
| `UploadState.RemoveIdempotent` | static/js/script.js:50-52 | removing twice gives the same page as removing once |
| `UploadState.SubmitWithoutFile` | static/js/script.js:69-73 | a submission without a file is cancelled with "Please select an image first" and changes nothing |
| `UploadState.SubmitWithFileNoButton` | static/js/script.js:75-81 | a submission with a file on a page without an analyze button goes ahead and changes nothing |
| `UploadState.SubmitWithFile` | static/js/script.js:75-81 | a submission with a file goes ahead, and the button becomes loading and disabled |
| `UploadState.DropAsPick` | static/js/script.js:139-154 | an empty drop does nothing; a drop with files ends as choosing the same files in the picker does |
| `UploadState.ReadAfterRemoveShowsPreview` | static/js/script.js:27-52 | removal keeps pending reads, so a read that completes after a removal shows its result again |
| `UploadState.ApplyConsistent` | static/js/script.js:4-154 | every handler keeps `has-image` equal to a non-empty preview, `loading` equal to `disabled`, and only accepted files among the reads in flight |
| `UploadState.RunConsistent` | static/js/script.js:4-154 | that invariant holds after any sequence of events |
| `UploadState.LoadingNeverCleared` | static/js/script.js:75-81 | once set, `loading` and `disabled` stay set through any sequence of events |
| `UploadState.LoadingOnlyAfterSubmitWithFile` | static/js/script.js:66-82 | if `loading` becomes set, some event was a submission made while the input held a file |
| `UploadState.PreviewComesFromRead` | static/js/script.js:27-52 | after any events, the preview shows its first value, nothing, or the data URL of a completion event whose read was pending at that moment |
| `UploadState.PreviewOnlyOfAcceptedFile` | static/js/script.js:9-32 | the read behind such a preview is of a file that passed the type and size checks, so a refused file is never previewed |
| `UploadUi.UploadPage.HandleFileSelect` | static/js/script.js:4-40 | the object's new state and the alert are those `SelectFile` gives for the old state, and `Valid()` is kept |
| `UploadUi.UploadPage.CompleteReadAt` | static/js/script.js:27-38 | the preview shows the read's result, `has-image` is set, the completed read leaves the pending list, and `Valid()` is kept |
| `UploadUi.UploadPage.RemoveImageClicked` | static/js/script.js:45-56 | the new state is `RemoveImage` of the old one, and `Valid()` is kept |
| `UploadUi.UploadPage.HandleSubmit` | static/js/script.js:66-82 | the new state and the submission outcome are those `Submit` gives, and `Valid()` is kept |
| `UploadUi.UploadPage.HandleDrop` | static/js/script.js:139-154 | the new state and the alert are those `Drop` gives, and `Valid()` is kept |

## Left out

- Scrolling, the `setTimeout` delays and the drop highlight styles
  (static/js/script.js:35-37, 55, 89-91, 127-137) are left out: they are
  presentation effects. So are the fade-in observer, the anchor smooth-scroll
  and the `loaded` class (static/js/script.js:160-198, 218-221).
- `alert` is modelled as the message value a handler returns. The dialog
  itself is not modelled.
- `preventDefault` on drag events is not modelled. The same goes for the
  submit listener's cancellation, which is modelled only as the `Cancelled`
  outcome.
- `handleDrop` also sends a synthetic `change` event before its direct call
  (static/js/script.js:148-149); that event is left out. The markup that
  would attach a change listener to the input is not part of this model. If it
  does attach `handleFileSelect`, the handler runs twice on a drop. After a
  refusal, the second run finds an empty input and does nothing. After an
  acceptance, it starts a second read of the same file.
- The file read is not modelled as asynchronous. Its completion is a
  separate step (`CompleteReadAt`, the `ReadDone` event), and the read's
  result is a parameter. The model does not check that the data URL encodes
  the file's bytes; it only requires the `data:` form that `readAsDataURL`
  produces.
- Read failure is not modelled. The script sets no `onerror` handler, so a
  failed read changes nothing, which matches a read that never completes.
- Pending reads are a list, and any of them may complete next. The model
  enforces no order of completion and cancels no read. This is what makes
  `ReadAfterRemoveShowsPreview` true.
- The handlers for the submit form and the drop area are registered only
  when those elements exist (static/js/script.js:65, 102). The model assumes
  both exist. It does model whether the analyze button exists
  (static/js/script.js:76).
- `OpensPicker` decides only whether the picker opens. `uploadInput.click()`
  and the picker are browser behaviour. The test looks only at the event
  target's tag name (INPUT, TEXTAREA). So other input types, such as a
  checkbox, are also excluded, and editable elements of other tags are not.
- The first page state (`Initial`) is assumed empty: no file, no preview, an
  idle button. The server-rendered markup that sets it is not part of this
  model.
- `Lower`: models `str.lower()` on ASCII letters only, one character for
  one, so it never changes a string's length. Python's full case mapping can:
  `İ` (U+0130) becomes two characters, an ASCII `i` followed by U+0307. The
  Kelvin sign becomes `k`. Neither `i` nor `k` occurs in `png`, `jpg`,
  `jpeg` or `webp`, and no other non-ASCII character lower-cases to an ASCII
  letter, so this does not change `allowed_file`'s verdict.
- `request.files` is modelled as a map from a field name to a part with a
  string file name. Werkzeug only files multipart parts that carry a file
  name, and `request.files['image']` yields the first part for that field.
- The `try`/`except` around the chain (app.py:77, 127-129) is not modelled.
  When the model is loaded, an oversized body makes `request.files` raise at
  the field test (app.py:85), and `home`'s `except` turns that into a generic
  "An error occurred: …" page; not modelled.
- The `logger.error` call when the model is missing (app.py:81) and the
  other logging calls are left out: they only write to the log.
- `secure_filename`, saving the file, `os.makedirs`, image preparation,
  prediction, `argmax` and the confidence rounding are left out
  (app.py:8, 22, 48-65, 101-125). They are library calls, file-system I/O
  and floating-point numerics.
- Flask routing and templates are left out, as are the `/health` endpoint,
  the 413 and 500 handlers, and the start-up code (app.py:68, 131-188).
  These are framework wiring. The server's `MAX_CONTENT_LENGTH` of 10 MiB
  (app.py:17) limits the whole request body, multipart framing included. A
  file that the page accepts at exactly 10485760 bytes therefore makes a
  body larger than the server allows. On this route the resulting exception
  is caught by `home`'s `except` (see above), so the rejection shows as the
  generic error page and not as the 413 handler's page; not modelled.
- A drop installs every dropped file in the input; only the first is
  validated.
- A failed read is not handled; see the read-failure line above.
- The shortcut is suppressed by tag name; see `OpensPicker`.
