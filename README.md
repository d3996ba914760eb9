# PDF Highlight Extractor — a Dafny model of its upload exchange

The system has two sides, and this project models the decision logic on each.

- **The browser client** (`frontend/src/App.jsx`) is a React component. It holds three
  state slots: the chosen `file`, the `status` message and the `isDragging` flag.
  Drag and drop and the file picker feed one candidate file. The client accepts it only
  when its declared type is `application/pdf`. It then POSTs the file once and turns
  the outcome into a status message. On success it also triggers a download named
  `highlights.docx`.
- **The Flask service** (`app.py`) checks the upload in a fixed order:
  - the `file` part must be present;
  - its name must not be empty;
  - its extension must be `pdf`.
  It then collects the text under every highlight annotation of the PDF. It writes that
  text into a Word document, which it sends back as `highlights_<stem>.docx`.

Modules:

- `Wrappers` (`wrappers.dfy`): the `Option` datatype.
- `Text` (`text.dfy`): the Python string operations the service uses, on ASCII:
  `lower`, `strip` and `rsplit(sep, 1)`.
- `Server` (`server.dfy`): `allowed_file`, the output name, the extraction loop,
  the document builder and the endpoint's chain of checks.
  - PyMuPDF is replaced by a `Pdf` value: the annotations of each page, as
    (type code, clipped text) records, plus an optional position at which reading raises.
  - python-docx is replaced by a list of (style, text) paragraphs.
  - werkzeug's `secure_filename` is a function parameter.
- `Client` (`client.dfy`): the class `App` with the three state slots and one method per
  handler. `fetch` is replaced by an `Outcome` parameter. The class also records the
  POSTs sent, the downloads triggered (with whether their object URL was revoked) and,
  as a ghost field, every status message set.

The client's behaviour, as the code has it:

- It accepts a file by its MIME type `application/pdf` only and never reads the name.
- It always saves the download as `highlights.docx`, whatever name the service sends.
- It has no guard against a second submit while an upload is in flight.
- It never clears `file`, not even after a success.
- When a non-OK JSON body has no `error` field, it shows `Error: undefined`.
  `Client.ErrorText` models that rendering.

## Model

| member | source | states |
|---|---|---|
| `Text.Lower` | app.py:30 | `str.lower` on ASCII keeps the length and lowers each character on its own |
| `Text.LastIndexOf` | app.py:30 | finds the last occurrence of a character; none exactly when it does not occur |
| `Text.RSplitOnce` | app.py:30 | `rsplit(sep, 1)` gives one part (the whole text) when `sep` is absent; otherwise two parts that rejoin around `sep` into the text, the second free of `sep` |
| `Text.Strip` | app.py:42 | `str.strip()` on ASCII whitespace, as leading then trailing whitespace dropped; its meaning is stated by `Text.StripIsTrimmedInfix` |
| `Text.TrimStartIsSuffix` | app.py:42 | dropping leading whitespace leaves the suffix after an all-whitespace prefix, starting with a non-space |
| `Text.TrimEndIsPrefix` | app.py:42 | dropping trailing whitespace leaves the prefix before an all-whitespace suffix, ending with a non-space |
| `Text.StripIsTrimmedInfix` | app.py:42 | `strip` returns an infix with only whitespace around it that neither starts nor ends with whitespace; it is empty exactly when the text is all whitespace |
| `Server.AllowedFile` | app.py:29-30 | `allowed_file` as written: a dot in the name and the lowered text after the last dot in the allowed set; its meaning is stated by `Server.AllowedFileIffPdfSuffix` |
| `Server.AllowedFileIffPdfSuffix` | app.py:29-30 | `allowed_file` holds exactly when the name ends in a dot followed by three characters that lower to `pdf` |
| `Server.AllowedFileAcceptsExamples` | app.py:29-30 | `a.PDF` and `.pdf` are allowed |
| `Server.AllowedFileRejectsExamples` | app.py:29-30 | `pdf` and `a.pdf.txt` are not allowed |
| `Server.OutputName` | app.py:76 | the name starts with `highlights_` and ends with `.docx`; between them is the secured name up to its last dot, or all of it when it has no dot |
| `Server.FlattenAppend` | app.py:36-37 | listing annotations page by page distributes over joining page lists |
| `Server.KeptAppend` | app.py:36-42 | the kept texts of joined annotation lists are the kept texts of each, in order: page order, then annotation order |
| `Server.KeptMembers` | app.py:38-42 | a text is collected exactly when some annotation has type code 8, a non-empty clip, and strips to that text |
| `Server.WhitespaceClipGivesEmpty` | app.py:41-42 | a highlight whose clip is only whitespace passes the emptiness test and contributes the empty string |
| `Server.ExceptionKeepsPrefix` | app.py:33-46 | an exception during extraction is swallowed and returns a prefix of what an undisturbed extraction returns |
| `Server.PageInPlace` | app.py:36-37 | a page's annotations come right after those of the earlier pages, in the whole document's order |
| `Server.ExtractHighlightedText` | app.py:32-46 | the nested loop returns the stripped clip texts of the kept annotations visited before the exception, if any |
| `Server.DocumentRoundTrip` | app.py:48-56 | reading the bullet paragraphs back from the document gives the highlights; the placeholder paragraph is there exactly when there are none |
| `Server.SaveToDocx` | app.py:48-56 | the document is the `Highlighted Text` title, then either the single placeholder paragraph or one `List Bullet` paragraph per highlight, in order |
| `Server.UploadFile` | app.py:63-84 | the first failing check answers 400 with its fixed message (no file part, no file selected, invalid type); otherwise the answer is the document for the file's highlights under the output name of the secured file name |
| `Client.Candidate` | frontend/src/App.jsx:23-24 | a file goes on exactly when the list is non-empty and its first file's type is `application/pdf`, and it is that first file |
| `Client.CandidateIgnoresRestAndName` | frontend/src/App.jsx:33-34 | acceptance depends neither on the files after the first nor on the first file's name |
| `Client.ErrorText` | frontend/src/App.jsx:64 | the template literal's rendering of the body's `error` field: the string itself, or `undefined` when it is missing; stated through `Client.FinalStatusClassifies` |
| `Client.FinalStatus` | frontend/src/App.jsx:51-67 | the status once the POST has ended, per outcome; its meaning is stated by `Client.FinalStatusClassifies` |
| `Client.FinalStatusClassifies` | frontend/src/App.jsx:51-67 | the final status is the success message exactly on an OK response; it is `Error uploading file.` exactly on a transport failure or an unparseable error body; otherwise it is `Error: ` followed by the body's `error` text, which can be read back; it is never `Uploading...` |
| `Client.App.constructor` | frontend/src/App.jsx:5-7 | starts with no file, an empty status and no drag in progress |
| `Client.App.SetStatus` | frontend/src/App.jsx:6 | the `status` setter: the status becomes the given message, which is appended to the record of every status set |
| `Client.App.HandleDragOver` | frontend/src/App.jsx:9-13 | sets `isDragging`, leaves `file` and `status` unchanged and keeps the class invariant |
| `Client.App.HandleDragLeave` | frontend/src/App.jsx:15-18 | clears `isDragging`, leaves `file` and `status` unchanged and keeps the class invariant |
| `Client.App.UploadFile` | frontend/src/App.jsx:42-69 | shows `Uploading...` and then the outcome's final status; sends exactly one POST carrying the file; on success records one `highlights.docx` download whose object URL is revoked, otherwise no download |
| `Client.App.Accept` | frontend/src/App.jsx:24-29 | an accepted file is stored and uploaded; otherwise only the rejection message is shown, and `file`, the POSTs and the downloads are unchanged |
| `Client.App.HandleDrop` | frontend/src/App.jsx:20-30 | always leaves `isDragging` false; uploads an accepted PDF or shows `Please drop a PDF file.` |
| `Client.App.HandleFileChange` | frontend/src/App.jsx:32-40 | uploads an accepted PDF or shows `Please select a PDF file.`, leaving the drag flag as it was |

## Left out

- Rendering (frontend/src/App.jsx:71-103) and styling: presentation only.
- `fetch`, `FormData`, `Blob`, `URL.createObjectURL` and the DOM anchor are browser I/O. The POST's result is an `Outcome` parameter, and a download is a recorded (name, revoked) event.
- Logging and browser side effects are not recorded: the `print` of the exception (app.py:44-45), the `doc.close()` that an exception skips (app.py:43), and `e.preventDefault()` with `e.dataTransfer.dropEffect = 'copy'` (frontend/src/App.jsx:10-11, 16, 21).
- A failure while reading an OK response's body is folded into `TransportFailure`. The code reaches the same status, `Error uploading file.`, and triggers no download.
- A JSON error body whose `error` field is present but not a string is not modelled. Only a present string or a missing field is. A JSON body on which reading `.error` throws (such as `null`) ends in the catch (frontend/src/App.jsx:66-67) and is folded into `NotOkUnparseable`, which gives the same status.
- `Client.App.UploadFile` treats each upload as one atomic step. React's asynchronous state updates and the `await` suspension are not modelled, so interleaved events during an upload are not either.
- Flask/CORS setup, directory creation, `file.save`, `os.remove`, `send_file`, `app.run`, the `PORT` variable and the HTTP status of a successful answer are server I/O. So are failures of `file.save` or `send_file`.
- The `@app.errorhandler` handlers (app.py:86-92) affect only aborted requests. The endpoint's explicit 400 answers do not pass through them.
- The home route (app.py:58-60) takes no part in the upload.
- `secure_filename` is werkzeug code. It is a parameter, and the naming property is proved for any value it returns.
- PyMuPDF and python-docx are foreign libraries. A document is a sequence of pages of (type code, clipped text) records, and the output document is a list of (style, text) paragraphs.
- The truthiness test `if file` (app.py:69) is not modelled separately. A werkzeug file part is truthy exactly when its name is non-empty, which the previous check already ensures.
- `Text.Lower`, `Text.Strip`: model ASCII only. Python's Unicode case mapping and Unicode whitespace (such as U+0085 and U+00A0) are not modelled.
- `Server.ExtractHighlightedText`: an exception is modelled at the moment an annotation is about to be visited. An exception after the last annotation (in `doc.close`) returns the same list as no exception, so it is not modelled separately.
