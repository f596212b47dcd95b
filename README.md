# HackRx document question answering: a Dafny model of the endpoint and the OCR reshaping

The service exposes one endpoint, `POST /hackrx/run`. A request names a document URL
and a list of questions. The endpoint checks a bearer token against the configured
API key. It downloads the document to a temporary file, runs layout OCR on it, and
asks the answering service each question in turn. It returns the answers in question
order. Whatever happens afterwards, the file at the path the downloader returned is
removed before the response leaves.

This project models the service's own logic in Dafny and proves properties of it:

- `py_strings.dfy`, module `PyStrings`: the Python string operations the code relies
  on, with Python's semantics. These are truthiness of an optional string,
  `startswith`, `replace(pat, "")` (which deletes every occurrence, not only a
  prefix), `strip()`, the clamped slice `s[a:b]` and `str(n)`.
- `main.py` → `main.dfy`, module `Api`:
  - `Authenticate`, the pure authentication decision.
  - `Run`, the request as a value: the response and the ordered list of external calls.
  - `RunHackrx`, the imperative endpoint over a file system, with its
    `try`/`except`/`finally` structure, proved equal to `Run`.
  - `CollectAnswers`, the question loop, proved equal to `Collected`.
- `services/ocr_service.py` → `ocr_service.dfy`, module `OcrService`: the settings
  check and the loops that turn a layout result into page records, words, a
  whole-document text and a page count. `ProcessDocument` and `ReadLines` keep the
  source's nested loops. They are proved equal to recursive specification functions,
  and the lemmas state what those functions guarantee.
- `os_files.dfy`, module `Os`: the set of existing paths, which `os.path.exists`
  reads and `os.remove` changes.
- `wrappers.dfy`: `Option` and `Result`.

External calls are inputs to the model:
- the downloader's result (`download: Option<string>`);
- the OCR service's outcome (`ocr`, a document or the exception it raised);
- the answering service's reply for each question (`replies`): what it returned, or
  that it raised;
- for the OCR module, the layout-analysis result (`Option<AnalyzeResult>`, `None`
  when the Azure client, the file or the poller raised).

Environment variables are parameters.

Status codes follow the code. The 400s raised for a failed download and for a failed
question are caught by the `except Exception` clause (main.py:59-60), so they leave the
endpoint as 500s, like the exceptions of the OCR and answering services. A missing API
key is a 500 "API key not configured.", raised before the `try`.

## Model

| member | source | states |
|---|---|---|
| `PyStrings.Truthy` | main.py:30-32 | an optional string is falsy exactly when it is `None` or `""` |
| `PyStrings.StartsWith` | main.py:32 | `startswith` compares the prefix character by character, case-sensitively; when it holds, the string is the prefix followed by the rest |
| `PyStrings.RemoveAll` | main.py:34 | `replace("Bearer ", "")` leaves the header unchanged exactly when "Bearer " does not occur in it, and makes it strictly shorter when it does |
| `PyStrings.RemoveAllAfterFirst` | main.py:34 | every occurrence is deleted, not only the first: when no occurrence starts inside `x`, the result for `x + pat + y` is `x` followed by the result for `y` |
| `PyStrings.RemoveAllLeading` | main.py:34 | deleting a leading "Bearer " and then every later occurrence is the same as deleting every occurrence in the rest |
| `PyStrings.TrimStart` | services/ocr_service.py:48 | the leading-whitespace trim is a suffix of the input; everything cut off is whitespace; the result does not start with whitespace |
| `PyStrings.TrimEnd` | services/ocr_service.py:48 | the trailing-whitespace trim is a prefix of the input; everything cut off is whitespace; the result does not end with whitespace |
| `PyStrings.Strip` | services/ocr_service.py:48 | `strip()` never lengthens a string, and its result neither starts nor ends with whitespace |
| `PyStrings.StripInfix` | services/ocr_service.py:48 | `strip()` removes only whitespace and only at the ends: the result is the infix of the input that starts after the leading whitespace run, and every character outside it is whitespace |
| `PyStrings.StripEmpty` | services/ocr_service.py:48 | a text strips to "" exactly when every character of it is whitespace, so a page whose lines are all blank gets an empty `full_text` |
| `PyStrings.StripTrailingSpace` | services/ocr_service.py:51-54 | appending one whitespace character (the newline after each page) does not change the stripped text |
| `PyStrings.Slice` | services/ocr_service.py:41 | slicing never fails; in-range bounds give the sub-sequence between them; bounds past the end are cut at the end; a start at or past the end gives "" |
| `PyStrings.NatToString` | main.py:56 | the question number in the failure message is a non-empty string of decimal digits, without a leading zero, whose decimal value is the number |
| `OcrService.ReadLines` | services/ocr_service.py:32-44 | the line and span loops build exactly the page text `LinesText` defines (each line's content plus a newline, in order) and the words list `LinesWords` defines, one `SpanWord` (the span's clamped slice of the content, its offset and length) per span |
| `OcrService.Processed` | services/ocr_service.py:7-57 | the configuration error comes exactly when the endpoint or the key is missing or empty, whatever the analysis; a document comes exactly when both are set and the analysis succeeded, with one page record per result page and the page count equal to it |
| `OcrService.ProcessDocument` | services/ocr_service.py:7-57 | a missing or empty endpoint or key gives the configuration error before the analysis is consulted; a failed analysis is re-raised; otherwise the loops return the dictionary `Shaped` defines |
| `OcrService.PageRecords` | services/ocr_service.py:31-50 | there is exactly one page record per result page |
| `OcrService.PageRecordAt` | services/ocr_service.py:31-50 | the i-th record has `page_number` i + 1, the stripped text of the i-th page and that page's words |
| `OcrService.WordsFollowSpans` | services/ocr_service.py:36-44 | a page has one word per span of its lines, in line-then-span order; the k-th word is built from the k-th span |
| `OcrService.WordIsClampedSlice` | services/ocr_service.py:40-44 | a word records its span's offset and length; its content is the content between offset and offset + length, cut at the end of the content; it has exactly `length` characters when the span lies inside the content |
| `OcrService.Shaped` | services/ocr_service.py:27-57 | `total_pages` equals the number of page records, which equals the number of result pages; with no pages the result is empty text, no pages and 0; the whole-document text is `DocumentText`, each page's unstripped text followed by a newline, and each page's `full_text` is that text after `Strip`, whose whitespace is Python's `str.isspace` set (`IsSpace`) |
| `OcrService.EmptyPageRecorded` | services/ocr_service.py:35-50 | a page without lines still yields a record with its number, empty text and no words, and still counts toward the total |
| `OcrService.SinglePageText` | services/ocr_service.py:46-54 | for a one-page result the whole-document text equals that page's `full_text` |
| `Api.Authenticate` | main.py:28-36 | a missing or empty key gives 500 whatever the header; a missing header or one not starting with the case-sensitive "Bearer " gives 401 "Missing or invalid authorization header"; a well-formed header whose token differs from the key gives 401 "Invalid API key"; success exactly when the header has the prefix and deleting every "Bearer " from it yields the key; every failure is 401 or 500 |
| `Api.BearerKeyAccepted` | main.py:32-36 | "Bearer " followed by the key is accepted exactly when the key does not itself contain "Bearer " |
| `Api.RepeatedPrefixAccepted` | main.py:32-36 | "Bearer Bearer " followed by such a key is accepted too |
| `Api.Usable` | main.py:54-56 | a reply is accepted exactly when the answering service returned a dictionary with an "answer" entry; the separate emptiness test never decides anything |
| `Api.Collected` | main.py:52-57 | the loop answers everything exactly when every reply is a returned, non-empty dictionary with "answer"; then the i-th answer is the i-th reply's "answer"; otherwise it stops at the first unusable reply, and it stops by an exception exactly when that reply is the answering service raising |
| `Api.CollectAnswers` | main.py:52-57 | the loop returns what `Collected` describes and asks questions 0, 1, … in order, up to and including the one it stopped at |
| `Api.Run` | main.py:38-63 | the request makes no call at all exactly when authentication fails, and exactly then is the response the authentication error; an answered request has one answer per question |
| `Api.RunHackrx` | main.py:38-63 | the endpoint's response and calls are those of `Run`; after a download that produced a path, that file no longer exists on every exit path and no other file changed; when authentication fails or the download returns no path, the endpoint changes no file |
| `Api.AuthenticationComesFirst` | main.py:43-46 | a request failing authentication makes no call at all, not even the download, and gets the 401 or 500 as raised; an authenticated one starts with the download |
| `Api.StepsInOrder` | main.py:45-63 | after a download that gave a path, the calls are a prefix of download, OCR, questions in order, followed by one removal of that path as the last call; a download without a path is the only call |
| `Api.RemovalOnlyOfDownload` | main.py:61-63 | no call but the last removes a file, and the last call is a removal exactly when authentication passed and the download gave a path |
| `Api.AnsweredInQuestionOrder` | main.py:52-58 | a request is answered exactly when authenticated, downloaded, OCR-processed and every reply is usable; then there are as many answers as questions, each the matching reply's "answer", and every question was asked |
| `Api.FailsAtFirstBadReply` | main.py:53-63 | when question k has the first unusable reply, the response is a 500: the 400 whose detail is `QuestionFailure(k)`, "Failed to answer question k+1", re-raised, or the answering service's own exception when it raised; exactly questions 0..k were asked and the file is still removed last |
| `Api.FailuresBecomeInternal` | main.py:45-60 | once authenticated, every failure is a 500: the failed-download 400, the failed-question 400 and the exceptions of the OCR and answering services are all caught and re-raised |
| `Os.FileSystem.Exists` | main.py:62 | `os.path.exists` is true exactly for a path in the file system |
| `Os.FileSystem.Remove` | main.py:63 | `os.remove` of an existing path takes exactly that path out of the file system |
| `Os.FileSystem.Create` | utils/document_handler.py:17-19 | the downloader's temporary file, kept after closing, adds exactly its path to the file system |
| `Api.MissingOcrSettingsFailRequest` | main.py:49-60 | with the OCR endpoint or key unset, an authenticated and downloaded request fails with the configuration error as a 500, the file is still removed and no question is asked |

## Left out

- Downloading (utils/document_handler.py): httpx, its 60 s timeout, the content-type to extension lookup and writing the temporary file. Only the outcome is an input: a path or `None`. `RunHackrx` records the file the downloader leaves behind by adding the path to the file system.
- Api.RunHackrx: does not model the temporary file the downloader creates before writing (utils/document_handler.py:17-19). When the write or the flush on close raises, the downloader's `except` (utils/document_handler.py:21-23) returns `None` and leaves that file on disk. The endpoint then has no path, so its `finally` cannot remove it. The model reads `None` as "no file was created", so its promise that the file system is unchanged covers only files the endpoint itself knows about.
- Python strings may hold lone surrogate code points, which a Dafny `char` cannot. Text from the layout service and HTTP headers is modelled as Unicode scalar values only.
- The Azure Document Intelligence client, the file read, the poller and `run_in_threadpool` (services/ocr_service.py:15-25). The analysis result is an input. `None` stands for any exception they raise.
- The answering service (services/qa_service.py). Only its signature is visible, so its implementation is not part of this model. Its reply for each question is an input, either a returned value or an exception (which exception is not distinguished); chunking, embedding, retrieval and prompt construction are not modelled.
- `async`/`await` scheduling, the FastAPI application and CORS setup (main.py:14-26), `load_dotenv`, `os.getenv` (settings are parameters) and `print` logging.
- The detail text of the 500, `str(e)`, which Starlette formats. `Internal` carries the caught exception itself instead.
- Pydantic validation: the `HttpUrl` check of the document URL, and a non-string `"answer"` value making the response model fail. Reply values are modelled as strings.
- `None` versus an empty list for `result.pages`, `page.lines` and `line.spans`. The source tests each for truthiness, so both skip the loop alike; the model writes both as `[]`.
- The check at main.py:50-51 ("OCR processing failed") cannot fire. `process_document_with_ocr` always returns a three-key dictionary, which is truthy, and its failures arrive as exceptions. The model has no such branch: an OCR failure reaches the `except` as the raised error, with the same 500.
- `os.remove` failing, and files changed by anyone else during a request.
