# PDF merge and unlock: a verified model of the staging pages and the two POST handlers

The tool has two workflows. On the merge page the user stages an ordered list
of files, removes entries, and submits. The files are posted as repeated
`files` parts, and the server merges them, in the order given, into one PDF.
On the unlock page the user stages one file and types a password. Both are
posted, and the server answers with an unencrypted copy. Each page shows the
returned PDF through a local object URL, or shows one error message.

The model has these modules:

- `Multipart` (`multipart.dfy`): files, multi-part bodies and the server's view
  of them. `request.files.getlist`, `key in request.files` and
  `request.form[key]` follow multi-dictionary rules: order is kept, a key is
  present exactly when something was sent under it, and a lookup gives the
  first value. A file's content records what PyMuPDF's `fitz.open` and
  PIL's `Image.open` would make of its bytes: a value, or an exception with
  its text.
- `Submission` (`submission.dfy`): the outcome of a page's POST, and the rule
  that turns a failure into the message shown. A truthy `error.response.data.error`
  is shown verbatim; otherwise the page shows its fixed fallback.
- `MergeWorkflow` (`merge_workflow.dfy`): the staged-list transforms as
  functions; the `forEach` that builds the body as a method with a loop;
  and the page state as the class `MergePage`. The class has fields
  `selectedFiles`, `mergedFileURL` and `errorMessage`. Its methods are `OnDrop`,
  `HandleRemoveFile`, the button predicate and `handleMerge`. `handleMerge` is split at
  its `await`: `BeginMerge` (check, reset, body) and `FinishMerge` (store the URL or
  classify the failure). `HandleMerge` composes the two. The network answer is a
  parameter, so every outcome is covered.
- `UnlockWorkflow` (`unlock_workflow.dfy`): the same for the unlock page, with
  fields `selectedFile`, `password`, `unlockedFileURL` and `errorMessage`.
- `Backend` (`backend.dfy`): `merge_pdf` as a method whose loop accumulates the
  merged pages. `unlock_pdf` is a function. Also the case-insensitive `.pdf`
  routing and the download names.
- `EndToEnd` (`end_to_end.dfy`): the bodies the pages build, as the handlers
  read them.
- `Subsequence` (`subsequence.dfy`) and `Wrappers` (`wrappers.dfy`): helpers.

Two client methods, `MergeWorkflow.RejectedMergeScenario` and
`UnlockWorkflow.WrongPasswordScenario`, walk a page through a session. They use
only the methods' contracts. For example, a 401 body `{"error": "Incorrect password"}`
(with the body taken as decoded; see "## Left out") ends with exactly that
message and no result.

What the code does and does not do:

- There is no reorder/move operation. The list changes only by append and by filter-remove.
- Object URLs are never revoked; the handle is only overwritten.
- A failure with a response without a message gets the same fixed fallback as a
  failure with no response. There is no message naming the status code.
- The unlock page holds an optional file, not exactly one.
- The pages' download links use the fixed names `merged.pdf` / `unlocked.pdf`.
  That is presentation and is not modelled. The names the server suggests are
  modelled: `merged_<date>.pdf`, `unlocked_<date>.pdf`.
- A result and an error are mutually exclusive only when the submit button was
  enabled. That is how the pages reach a submit (`HandleMerge` and
  `HandleUnlock` prove it). The refusal branches inside `handleMerge` /
  `handleUnlock` leave an earlier result in place beside the new message. The
  UI never reaches those branches, because the button is disabled exactly
  when they would fire.

## Model

| member | source | states |
|---|---|---|
| `Submission.ServerError` | frontend/src/pages/MergePage.jsx:42 | a server message is picked up only when the response, its data and a non-empty `error` string are all present, and then it is that string unchanged |
| `Submission.FailureMessage` | frontend/src/pages/MergePage.jsx:41-47 | after a failure the page shows the server's message verbatim when one came back, otherwise the page's fallback, and never an empty message when the fallback is non-empty (the unlock page, UnlockPage.jsx:42-48, uses the same rule) |
| `MergeWorkflow.Appended` | frontend/src/pages/MergePage.jsx:10-12 | dropped files come after the staged ones; both keep their order and the length is the sum |
| `MergeWorkflow.WithoutIndex` | frontend/src/pages/MergePage.jsx:16-18 | filtering out one position shortens the list by one exactly when the index is in range |
| `MergeWorkflow.WithoutIndexInRange` | frontend/src/pages/MergePage.jsx:17 | an in-range removal deletes exactly that entry and keeps the rest in order |
| `MergeWorkflow.WithoutIndexOutOfRange` | frontend/src/pages/MergePage.jsx:17 | an out-of-range (or negative) index leaves the list unchanged |
| `MergeWorkflow.StageLength` | frontend/src/pages/MergePage.jsx:10-18 | after any history of drops and removals, length = initial + dropped − removals that hit an entry |
| `MergeWorkflow.StageOrder` | frontend/src/pages/MergePage.jsx:10-18 | after any history, the staged list is a subsequence of the initial list followed by every dropped file: relative order is never changed |
| `MergeWorkflow.MergeCheck` | frontend/src/pages/MergePage.jsx:22-25 | the submit check passes exactly when at least two files are staged; otherwise it refuses with "Please select at least 2 files to merge" |
| `MergeWorkflow.MergeParts` | frontend/src/pages/MergePage.jsx:29-32 | the body has exactly one `files` part per staged file, the i-th part carrying the i-th file |
| `MergeWorkflow.MergePartsRoundTrip` | frontend/src/pages/MergePage.jsx:29-32 | reading the `files` list back from the body gives exactly the staged list |
| `MergeWorkflow.BuildMergeForm` | frontend/src/pages/MergePage.jsx:29-32 | the `forEach` loop builds exactly that body |
| `MergeWorkflow.MergePage.constructor` | frontend/src/pages/MergePage.jsx:6-8 | the page starts with no files, no result and no error |
| `MergeWorkflow.MergePage.OnDrop` | frontend/src/pages/MergePage.jsx:10-12 | the staged list becomes the old list followed by the drop; result and error unchanged |
| `MergeWorkflow.MergePage.HandleRemoveFile` | frontend/src/pages/MergePage.jsx:16-18 | an in-range index removes that entry only; any other index changes nothing; result and error unchanged |
| `MergeWorkflow.MergePage.MergeDisabled` | frontend/src/pages/MergePage.jsx:80 | the button is disabled exactly when the submit check at line 22 would refuse |
| `MergeWorkflow.MergePage.BeginMerge` | frontend/src/pages/MergePage.jsx:20-32 | under 2 files: the "at least 2 files" message, nothing sent, result unchanged; otherwise the error is cleared and the result set to null before the staged-order body is sent |
| `MergeWorkflow.MergePage.FinishMerge` | frontend/src/pages/MergePage.jsx:34-47 | success stores the new URL; failure stores the classified message with the "merging the files" fallback |
| `MergeWorkflow.MergePage.HandleMerge` | frontend/src/pages/MergePage.jsx:20-48 | the final state for every precondition and every network outcome: on success the new URL and no error; on failure no URL and the classified message; if the button was enabled, a result and an error are never shown together |
| `UnlockWorkflow.Replaced` | frontend/src/pages/UnlockPage.jsx:11-15 | a non-empty drop stages its first file; an empty drop keeps the staged file |
| `UnlockWorkflow.UnlockCheck` | frontend/src/pages/UnlockPage.jsx:21-28 | a missing file wins over a missing password; the password message only for a staged file with an empty password; the check passes exactly when both are given |
| `UnlockWorkflow.UnlockParts` | frontend/src/pages/UnlockPage.jsx:32-34 | the body is the `file` part followed by the `password` part: the server reads exactly the staged file under `file` and the password under `password` |
| `UnlockWorkflow.UnlockPage.constructor` | frontend/src/pages/UnlockPage.jsx:6-9 | the page starts with no file, an empty password, no result and no error |
| `UnlockWorkflow.UnlockPage.OnDrop` | frontend/src/pages/UnlockPage.jsx:11-15 | the staged file becomes the first dropped one, or stays when the drop is empty; nothing else changes |
| `UnlockWorkflow.UnlockPage.OnPasswordChange` | frontend/src/pages/UnlockPage.jsx:79 | the password becomes the typed value; nothing else changes |
| `UnlockWorkflow.UnlockPage.UnlockDisabled` | frontend/src/pages/UnlockPage.jsx:86 | the button is disabled exactly when one of the two submit checks would refuse |
| `UnlockWorkflow.UnlockPage.BeginUnlock` | frontend/src/pages/UnlockPage.jsx:19-34 | each refusal sets its own message, sends nothing and keeps the result; otherwise the error is cleared and the URL set to null before the file-then-password body is sent |
| `UnlockWorkflow.UnlockPage.FinishUnlock` | frontend/src/pages/UnlockPage.jsx:36-48 | success stores the new URL; failure stores the classified message with the "unlocking the file" fallback |
| `UnlockWorkflow.UnlockPage.HandleUnlock` | frontend/src/pages/UnlockPage.jsx:19-49 | the final state for every precondition and every network outcome; if the button was enabled, a result and an error are never shown together |
| `Multipart.FileList` | backend/app.py:27 | `getlist` is empty exactly when no part is a file under that field, and otherwise starts with the earliest such file |
| `Multipart.HasFile` | backend/app.py:24 | a field is in `request.files` exactly when some part is a file sent under it (also backend/app.py:112) |
| `Multipart.FirstFile` | backend/app.py:118 | `request.files[field]` exists exactly when the field is present, and is the earliest file sent under it |
| `Multipart.FormValue` | backend/app.py:119 | `request.form[field]` is missing exactly when no text part has that field, and otherwise is the earliest such part's value |
| `Backend.Lower` | backend/app.py:37 | lowering keeps the length and maps each character on its own |
| `Backend.PdfPathLetters` | backend/app.py:37-42 | an upload takes the PDF path exactly when its name ends in `.`, then p, d, f in either case (so `.PDF` counts); every other name takes the image path |
| `Backend.TakesPdfPath` | backend/app.py:37-42 | an upload goes to the PDF path exactly when its last four characters, lowered, are `.pdf` |
| `Backend.DownloadName` | backend/app.py:91-92 | the name is the stem, `_`, the date, `.pdf`, and the date can be read back from it (also backend/app.py:139-140) |
| `Backend.DownloadNameIsPdf` | backend/app.py:139-140 | a returned file's name would itself route as a PDF |
| `Backend.Contribution` | backend/app.py:36-81 | a PDF-routed upload adds its document's pages; an image-routed one adds exactly one page, made from that upload's image; it fails exactly when the decoder chosen by the name raises |
| `Backend.MergedPagesAppend` | backend/app.py:36-81 | the merged document of a concatenation is the first part's pages followed by the second's: contributions are concatenated in request order |
| `Backend.MergedPagesFails` | backend/app.py:36-81 | merging fails exactly when some upload cannot be decoded along its route |
| `Backend.MergedPages` | backend/app.py:36-81 | the pages the loop accumulates, upload by upload; a merge that succeeds had every upload decoded along its route |
| `Backend.MergePdf` | backend/app.py:15-99 | no `files` field: 400 "No files provided" (checked first); one file: 400 "At least two files are required to merge"; otherwise the accumulated pages under `merged_<date>.pdf`, or the uncaught-exception 500 when an upload fails to decode |
| `Backend.PasswordGiven` | backend/app.py:115 | the password check passes exactly when the earliest `password` text part is non-empty |
| `Backend.Authenticates` | backend/app.py:127-130 | the stand-in for PyMuPDF's `authenticate`: a document accepts exactly the passwords in its set; its effect on the reply is given by `Backend.UnlockPdf` and `Backend.UnlockSucceedsIff` |
| `Backend.UnlockPdf` | backend/app.py:104-149 | no `file`: 400 "No file provided" (checked first); missing or empty password: 400 "No password provided"; a document that needs a password and does not accept the one sent gets 401 "Incorrect password", and only such a document gets a 401; an upload that fails to open gets a 500 carrying the exception's text, and only such an upload gets a 500; nothing escapes the handler |
| `Backend.UnlockSucceedsIff` | backend/app.py:111-147 | the document is returned, under `unlocked_<date>.pdf`, exactly when a file and a password were sent, it opens, and it needs no password or accepts the one sent |
| `Backend.UnlockIgnoresPasswordOfOpenDocument` | backend/app.py:127-130 | for a document that needs no password the reply does not depend on the password sent |
| `EndToEnd.MergeFormReachesHandler` | frontend/src/pages/MergePage.jsx:29-34 | the server's `files` list is exactly the staged list, and a body the page sends never gets either of the handler's 400s |
| `EndToEnd.UnlockFormReachesHandler` | frontend/src/pages/UnlockPage.jsx:21-38 | a body the page sends never gets a 400, and gets a 401 exactly when the document needs a password and refuses the one typed |
| `EndToEnd.MixedMergeScenario` | backend/app.py:36-81 | `Report.PDF`, `photo.jpg`, `notes.pdf` merge into the report's pages, one image page, then the notes' pages |
| `EndToEnd.MisnamedUploadScenario` | backend/app.py:37-49 | `scan.pdf.png` goes to the image decoder, and its refusal fails the merge even if the bytes are a PDF |

## Left out

- Network, axios and `async`/`await` scheduling: the POST is one outcome
  passed in by the caller (`Outcome`). The `/api` prefix and the Flask routes are not modelled.
- Decoding of error bodies: the pages ask axios for `responseType: 'blob'`, so a
  JSON error body reaches them as a Blob, whose `.error` is undefined. The model takes
  `error.response.data` as an already decoded record with an optional `error`
  string, as the pages' code expects.
- `URL.createObjectURL`, `FormData` internals, react-dropzone, `useState`
  re-rendering, JSX and styles, `HomePage.jsx` and `App.js`.
- Concurrent submissions: nothing in the code prevents a second submit while
  one is in flight. The split into `BeginMerge`/`FinishMerge` (and the unlock
  pair) allows any interleaving, and the model states nothing about one.
- PDF parsing, `insert_pdf`, `authenticate`, `save` and PIL: their answers are read off
  an upload's `Content` and a `Document`'s fields (`needsPass`, accepted
  `passwords`). Checks that `insert_pdf` itself may make (for instance on an
  encrypted source) are not modelled: every opened PDF contributes its pages.
  Failures of `save`, `new_page` or `insert_image` are not modelled either.
- The image-to-A4 fitting arithmetic (backend/app.py:53-73): floating point. An
  image page is `ImagePage(image)` with no geometry.
- `datetime.now()`: the date is an opaque input string.
- `os.makedirs`, `send_file` plumbing, the MIME type and the `/health` route.
- A JSON 500 path for merge: the `try`/`except` there is commented out, so an
  exception ends in Flask's generic 500 (`InternalServerError`), without a message.
- `Backend.Lower`: does not model Python's full Unicode case mapping; only
  ASCII letters are lowered, which decides the `.pdf` suffix test for every
  name whose last four characters are ASCII.
- Text form values and file parts are told apart by their `Part` constructor.
  werkzeug's own separation of files from form fields is not modelled further.
