# PDF chatbot backend — a Dafny model

This project models the Flask backend of the tutor-ai PDF chatbot
(`project-root/chatbot/backend/app.py`). Clients upload one PDF. The
backend extracts the PDF's text, splits it into chunks and builds a
retrieval index over them. It then answers questions and gives summaries
through a hosted language model. All of this happens over a single slot
made of four module globals: `pdf_text`, `pdf_chunks`, `vector_store` and
`current_filename`.

The modules, bottom up:

- `Wrappers`: `Option`.
- `Whitespace`: Python's `str.isspace()` character set, and `str.strip()`
  as two position scans.
  - It also holds the `re.sub(r'\s+', ' ', …)` collapse and the normaliser
    `re.sub(r'\s+', ' ', text).strip()`.
- `Decimal`: the decimal numeral of a page number, and the parser that
  reads it back.
- `Extraction`: the page-marker serializer of `extract_text_from_pdf`.
  - It is a recursive specification function, and `ExtractText` is the
    `for` loop that grows `text` with `+=`.
- `Filenames`: `file.filename.lower().endswith('.pdf')`.
- `Processing`: the guard chains of `split_text_into_chunks`,
  `create_vector_store`, `generate_summary` and `answer_question`.
- `Handlers`: the four request handlers as pure transitions over a
  `SlotState` value. This module also holds the properties of the slot.
- `Server`: the class `Slot`, with the four globals as fields.
  - `UploadPdf` assigns them stage by stage, with early returns, as
    `upload_pdf` does.
  - Each method is proved to agree with the corresponding `Handlers`
    function.
  - `HandleChat`, `HandleSummary` and `HandleStatus` have no `modifies`
    clause, so they change no global.

Foreign stages become inputs:

- The exception text of `file.save`, if it raised (`saveError`).
- The PyPDF2 outcome, as `Option<seq<Option<string>>>`. `None` means
  opening or reading raised; otherwise it holds one `extract_text()`
  result per page.
- The text splitter, as a function. The source builds one splitter at
  import (app.py:39-43, 171), so the class `Slot` fixes it at construction,
  as it fixes `hasClient`.
- Whether building the FAISS index raised (`indexBuilt`).
- Each model reply, as `Option<string>`. `None` means the call raised.
- `hasClient` records whether `MISTRAL_API_KEY` was set.

A chat request body is a JSON value. A falsy body (`null`, `false`, `0`,
`""`, `[]`, `{}`) gets 400 "No data provided". A truthy body that is not an
object, or a `message` that is not a string, reaches the handler's 500
response, whose text is the `AttributeError` message Python produces.

A failed upload is evidently meant to leave the previous state unchanged.
The code does not do that. `pdf_text`, `pdf_chunks` and `vector_store` are each overwritten
before their own check, and `current_filename` is assigned last. The model
follows the code; see "## Findings".

## Model

| member | source | states |
|---|---|---|
| Whitespace.IsSpace | project-root/chatbot/backend/app.py:61-65 | the characters for which `str.isspace()` holds, which are those `\s` matches in a `str` pattern and those `strip()` removes |
| Whitespace.Strip | project-root/chatbot/backend/app.py:61 | the stripped text has no whitespace character at either end |
| Whitespace.StripIsMiddle | project-root/chatbot/backend/app.py:61 | `strip()` cuts a whitespace-only prefix and a whitespace-only suffix and keeps the middle |
| Whitespace.StripKeepsNonSpace | project-root/chatbot/backend/app.py:65 | `strip()` keeps every non-whitespace character, in order |
| Whitespace.StripEmptyIffBlank | project-root/chatbot/backend/app.py:61-62 | `not text.strip()` holds exactly when the text is whitespace only |
| Whitespace.StripFixedPoint | project-root/chatbot/backend/app.py:65 | text with no edge whitespace is its own `strip()` |
| Whitespace.Collapse | project-root/chatbot/backend/app.py:65 | `re.sub(r'\s+', ' ', text)`: the collapse run from the first position; `CollapseSingleSpaced`, `CollapseKeepsNonSpace` and `NormalizeIsJoinedWords` state what it does |
| Whitespace.CollapseFrom | project-root/chatbot/backend/app.py:65 | the collapse is empty exactly for empty input and starts with whitespace exactly when the input does |
| Whitespace.CollapseSingleSpaced | project-root/chatbot/backend/app.py:65 | after `re.sub(r'\s+', ' ', …)` the only whitespace is single plain spaces, never two adjacent |
| Whitespace.CollapseKeepsNonSpace | project-root/chatbot/backend/app.py:65 | the collapse keeps every non-whitespace character, in order |
| Whitespace.CollapseFixedPoint | project-root/chatbot/backend/app.py:65 | single-spaced text is left unchanged by the collapse |
| Whitespace.Normalize | project-root/chatbot/backend/app.py:65 | the cleaning step `re.sub(r'\s+', ' ', text).strip()`, collapse then strip; `NormalizeIsJoinedWords` gives its meaning |
| Whitespace.NormalizeIsJoinedWords | project-root/chatbot/backend/app.py:65 | the cleaned text is `' '.join(text.split())`: the maximal non-whitespace runs of the text, in order, each separated from the next by exactly one space |
| Whitespace.NormalizeShape | project-root/chatbot/backend/app.py:65 | the cleaned text has no edge whitespace, is single-spaced and keeps the non-whitespace characters in order |
| Whitespace.NormalizeIdempotent | project-root/chatbot/backend/app.py:65 | cleaning cleaned text changes nothing |
| Whitespace.NormalizeEmptyIffBlank | project-root/chatbot/backend/app.py:61-65 | the cleaned text is empty exactly when the input is whitespace only |
| Decimal.NatToDecimal | project-root/chatbot/backend/app.py:53 | the numeral `f"{page_num + 1}"` puts in a marker, never empty; `DecimalDigits` and `DecimalRoundTrip` state the rest |
| Decimal.DecimalDigits | project-root/chatbot/backend/app.py:53 | the page number in a marker is all digits with no leading zero |
| Decimal.DecimalRoundTrip | project-root/chatbot/backend/app.py:53 | reading back the numeral of a page number gives the number |
| Decimal.DecimalInjective | project-root/chatbot/backend/app.py:53 | different page numbers get different numerals |
| Extraction.PageBlock | project-root/chatbot/backend/app.py:52-53 | the block for page k: `"\n--- Page k ---\n"`, the page's text or `""` when `extract_text()` gave nothing, then `"\n"` |
| Extraction.Serialize | project-root/chatbot/backend/app.py:50-54 | the blocks of all pages in order, one per page, numbered from 1; `SerializeIsInOrderBlocks` relates it to the front-to-back reading |
| Extraction.ExtractedText | project-root/chatbot/backend/app.py:45-57 | `extract_text_from_pdf`: `""` when opening or reading raised, otherwise the serialized pages |
| Extraction.NoExtractableTextIff | project-root/chatbot/backend/app.py:195-197 | the rejection the extraction error describes refuses exactly the unreadable documents and those whose every page yields only whitespace, and it refuses everything the check as written refuses |
| Extraction.MarkersHideTextlessPages | project-root/chatbot/backend/app.py:195-197 | as written, a readable document whose pages all yield no text is not refused, because the page markers added at app.py:53 are not whitespace |
| Extraction.ExtractText | project-root/chatbot/backend/app.py:45-57 | the loop's result is the specified serialization, and `""` when reading failed |
| Extraction.SerializeIsInOrderBlocks | project-root/chatbot/backend/app.py:50-54 | the text is the in-order concatenation of `"\n--- Page k ---\n" + text_k + "\n"` for k = 1..n, a `None` page counting as `""` |
| Extraction.ExtractedNotBlank | project-root/chatbot/backend/app.py:50-54 | a document with at least one page never extracts to whitespace only |
| Extraction.ExtractedBlankIff | project-root/chatbot/backend/app.py:195-197 | the "could not extract text" check fires exactly when reading failed or there are no pages |
| Filenames.HasPdfExtension | project-root/chatbot/backend/app.py:186 | `file.filename.lower().endswith('.pdf')`, with ASCII lower-casing; `PdfExtensionChars` states it character by character |
| Filenames.PdfExtensionChars | project-root/chatbot/backend/app.py:186 | the extension test holds exactly when the name ends in `.` then `p`, `d`, `f`, each in either case |
| Filenames.PdfExtensionNotEmpty | project-root/chatbot/backend/app.py:183-187 | a name that passes the extension test is not empty |
| Filenames.PdfExtensionCaseInsensitive | project-root/chatbot/backend/app.py:186 | lower-casing the name first does not change the verdict |
| Processing.SplitTextIntoChunks | project-root/chatbot/backend/app.py:59-69 | `split_text_into_chunks`: `[]` for whitespace-only text, otherwise the splitter applied to the cleaned text; `SplitterInput` and `ChunksEmptyIffBlank` state its guarantees |
| Processing.SplitterInput | project-root/chatbot/backend/app.py:59-69 | blank text gives no chunks; otherwise the splitter receives the cleaned text, which is non-empty, single-spaced and has no edge whitespace |
| Processing.ChunksEmptyIffBlank | project-root/chatbot/backend/app.py:61-69 | with a splitter that returns at least one chunk for any text that is not whitespace only (the cleaned text it is handed here never is), the chunk list is empty exactly for whitespace-only text |
| Processing.CreateVectorStore | project-root/chatbot/backend/app.py:71-86 | an index exists exactly when there are chunks and the build did not raise, and it is built over those chunks |
| Processing.GenerateSummary | project-root/chatbot/backend/app.py:99-144 | `generate_summary`: the blank-text message, then the no-client message, then the stripped model reply or the fixed failure message; `SummaryGuards` states the order |
| Processing.SummaryGuards | project-root/chatbot/backend/app.py:99-144 | blank text, then a missing client, give fixed messages whatever the model says; otherwise the reply is stripped, or the fixed failure message is returned |
| Processing.SummaryHasNoEdgeSpace | project-root/chatbot/backend/app.py:99-144 | every summary has no whitespace at either end |
| Processing.AnswerQuestion | project-root/chatbot/backend/app.py:146-168 | `answer_question`: the no-index message, then the no-client message, then the stripped model reply or the fixed failure message; `AnswerGuards` states the order |
| Processing.AnswerGuards | project-root/chatbot/backend/app.py:146-168 | a missing index, then a missing client, give fixed messages whatever the model says; otherwise the reply is stripped, or the fixed failure message is returned |
| Processing.AnswerHasNoEdgeSpace | project-root/chatbot/backend/app.py:146-168 | every answer has no whitespace at either end |
| Handlers.Upload | project-root/chatbot/backend/app.py:174-223 | the `upload_pdf` transition: the three filename checks in source order, each leaving the globals as they were, then a 500 naming the save exception, then the stages after the save |
| Handlers.Ingest | project-root/chatbot/backend/app.py:195-197 | `pdf_text` is assigned the extracted text, then a blank text is refused with the extraction error |
| Handlers.Index | project-root/chatbot/backend/app.py:199-223 | `pdf_chunks` and then `vector_store` are each assigned before their own check; on success `current_filename` is set and the response carries the message, the filename, the chunk count and the summary |
| Handlers.MessageDistinguishes | project-root/chatbot/backend/app.py:178-265 | the `error` texts the handlers send are pairwise different, and the exception text in "Upload failed: …" or "Failed to process question: …" can be read back, so the text identifies the failure |
| Handlers.UploadEarlyExitsIgnoreLaterStages | project-root/chatbot/backend/app.py:178-192 | a rejected name or a failed save gives the same outcome whatever the document, splitter, index build, summary reply and client, and a failed save is a 500 naming the exception with the slot unchanged |
| Handlers.IngestSteps | project-root/chatbot/backend/app.py:195-197 | extraction fails exactly with no readable pages and then empties `pdf_text`; otherwise the serialized text is stored |
| Handlers.IngestResponses | project-root/chatbot/backend/app.py:195-219 | after the file is saved the answer is 200 or one of the extraction, chunking and index errors |
| Handlers.UploadRejectsBadFilename | project-root/chatbot/backend/app.py:179-187 | a missing part gives 400 "No PDF file provided", an empty name 400 "No file selected" and any other non-PDF name 400 "Only PDF files are allowed", each leaving all four globals unchanged |
| Handlers.UploadAcceptsPdfName | project-root/chatbot/backend/app.py:179-223 | a PDF name is never answered with one of the three filename errors |
| Handlers.UploadSucceedsIff | project-root/chatbot/backend/app.py:174-219 | the upload answers 200 exactly when the name is a PDF name, the file is saved, there is a page, chunks are made and the index is built |
| Handlers.UploadSuccess | project-root/chatbot/backend/app.py:195-219 | a successful upload sets all four globals from this upload, and `pages` is the number of chunks |
| Handlers.UploadExtractFailure | project-root/chatbot/backend/app.py:195-197 | extraction fails exactly for an unreadable or page-less document, and then only `pdf_text` changes, to `""` |
| Handlers.UploadChunkFailure | project-root/chatbot/backend/app.py:199-202 | chunking fails exactly when no chunks are made; `pdf_text` is new, `pdf_chunks` empty, the rest kept |
| Handlers.UploadStoreFailure | project-root/chatbot/backend/app.py:204-207 | indexing fails exactly when the build raises; text and chunks are new, the index is cleared, the filename kept |
| Handlers.UploadFailureKeepsFilename | project-root/chatbot/backend/app.py:209 | no failed upload changes `current_filename` |
| Handlers.Chat | project-root/chatbot/backend/app.py:226-251 | the `chat` transition: a falsy body, then a blank `message`, then a missing index are refused in that order; a truthy non-object body or a non-string `message` gives the 500 with Python's `AttributeError` text; otherwise the answer and the stripped question |
| Handlers.Summary | project-root/chatbot/backend/app.py:254-262 | `get_summary`: an empty `pdf_text` is refused, otherwise the `generate_summary` result |
| Handlers.Status | project-root/chatbot/backend/app.py:268-277 | `get_status`: `has_pdf` is a non-empty filename, then the filename, the number of chunks, whether an index exists and whether the client is configured |
| Handlers.ChatGuardOrder | project-root/chatbot/backend/app.py:230-247 | a falsy body, then a blank question, then a missing index are refused in that order; otherwise the stripped question is answered and echoed |
| Handlers.ChatAnswers | project-root/chatbot/backend/app.py:230-247 | chat answers 200 exactly for an object body with a non-blank string `message` while an index exists; the echoed question is non-empty with no edge whitespace |
| Handlers.ChatHello | project-root/chatbot/backend/app.py:230-247 | `{"message": "hello"}` is refused with the upload-first error without an index and answered with one |
| Handlers.ChatBeforeUpload | project-root/chatbot/backend/app.py:238-239 | before any upload a chat is refused with the upload-first error |
| Handlers.SummaryRequiresText | project-root/chatbot/backend/app.py:257-262 | `/summary` answers 200 exactly when `pdf_text` is non-empty, with the `generate_summary` result |
| Handlers.StatusInitial | project-root/chatbot/backend/app.py:271-277 | at start-up the status reports no PDF, no filename, no chunks and no index |
| Handlers.StatusAfterUpload | project-root/chatbot/backend/app.py:271-277 | after a successful upload the status reports its filename, a ready index and `chunks_count` equal to `pages` |
| Handlers.TextlessPdfAccepted | project-root/chatbot/backend/app.py:195-223 | as written, with a splitter that returns at least one chunk for any text that is not whitespace only, a readable PDF whose pages all yield no text is uploaded with 200 although it has no extractable text |
| Handlers.UploadLeavesMixedState | project-root/chatbot/backend/app.py:195-197 | as written, a failed extraction over a loaded slot empties only `pdf_text` and leaves the slot incoherent |
| Handlers.MixedStateSymptoms | project-root/chatbot/backend/app.py:226-277 | in that slot `/summary` says no PDF was uploaded while `/chat` still answers and `/status` still names the old file |
| Handlers.UploadLeavesOrphanChunks | project-root/chatbot/backend/app.py:204-209 | as written, an index failure on the first upload leaves text and chunks with no filename and no index |
| Handlers.UploadAtomicPreservesCoherence | project-root/chatbot/backend/app.py:174-223 | the all-or-nothing upload keeps the slot coherent (the chunks are the one splitter's output for the stored text, and the index is built over them), gives the same responses and changes nothing on failure |
| Server.Slot.constructor | project-root/chatbot/backend/app.py:28-43 | the globals start empty, with `hasClient` and the splitter fixed |
| Server.Slot.UploadPdf | project-root/chatbot/backend/app.py:174-223 | the new globals and the response are exactly those of the `upload_pdf` transition |
| Server.Slot.IngestPdf | project-root/chatbot/backend/app.py:195-197 | assigning `pdf_text` and checking it gives the extraction stage's globals and response |
| Server.Slot.IndexPdf | project-root/chatbot/backend/app.py:199-219 | assigning `pdf_chunks`, `vector_store` and `current_filename` in turn gives those stages' globals and response |
| Server.Slot.HandleChat | project-root/chatbot/backend/app.py:225-251 | the response is that of the `chat` transition, and no global changes |
| Server.Slot.HandleSummary | project-root/chatbot/backend/app.py:253-265 | the response is that of the `get_summary` transition, and no global changes |
| Server.Slot.HandleStatus | project-root/chatbot/backend/app.py:267-277 | the response is the status projection of the globals, and no global changes |

## Left out

- Flask routing, `request.files`, `request.json`, `jsonify` and CORS: requests are method arguments and responses are a status code with the fields `jsonify` would send.
- `file.save`, `os.path.join` and `os.makedirs` are file I/O: only whether saving raised, and its message, are modelled.
- PyPDF2 parsing is foreign code: only its outcome is modelled. An exception in the middle of the page loop is the same `None` as one at open, since either way the function returns `""`.
- `RecursiveCharacterTextSplitter` (chunk size 1000, overlap 200) is foreign code. It is a function parameter, and an exception raised inside it (a 500 from `upload_pdf`) is not modelled.
- HuggingFace embeddings, the FAISS index and top-3 retrieval involve floating point and foreign code: the index is the list of chunks it was built from.
- tiktoken truncation and the Mistral calls go over the network: each call is its reply, or `None` when it raised.
- `Filenames.HasPdfExtension` lower-cases ASCII letters only; Python's `str.lower()` also folds other Unicode letters.
- JSON numbers are integers only; floating-point bodies are not modelled.
- A chat request whose body does not decode as JSON is not modelled; `JNull` is only a body that decodes to JSON `null`. From Flask 2.1 on, a request with no JSON body, a non-JSON content type or malformed JSON makes `request.json` raise inside `chat`'s `try` (app.py:230). The `except Exception` at app.py:249-251 then answers 500 "Failed to process question: 415 Unsupported Media Type: …" (or "400 Bad Request: …"). Before Flask 2.1 a missing body gave `None` and hence 400 "No data provided", which is what `JNull` gets.
- The 500 branch of `get_summary` (app.py:263-265) cannot be reached, because `generate_summary` catches every exception itself; it has no model.
- `print` logging, `/health`, the `__main__` start-up block and concurrent requests on the shared globals are out of scope: the model is sequential.
- `project-root/chatbot/test_chatbot.py` and `project-root/chatbot/start_chatbot.py` are not part of this model: one is an HTTP client script, the other environment set-up.
- `script.js` (browser DOM, speech and canvas animation) is not part of this model.
- Extraction.NoExtractableText: the check the extraction error describes is stated and proved on its own; `Handlers.Upload` and `Handlers.UploadAtomic` keep the check as written, on the marked-up text.
- Decimal.NatToDecimal: its own contract states only that the numeral is non-empty; `Decimal.DecimalDigits` and `Decimal.DecimalRoundTrip` state the rest.
- Handlers.Upload, Handlers.Ingest, Handlers.Index, Handlers.Chat, Handlers.Summary, Handlers.Status, Processing.SplitTextIntoChunks, Processing.GenerateSummary, Processing.AnswerQuestion, Extraction.PageBlock, Extraction.Serialize, Extraction.ExtractedText, Whitespace.IsSpace, Whitespace.Collapse, Whitespace.Normalize and Filenames.HasPdfExtension carry no contract of their own: they are the definitions, and the lemmas in their rows state their properties.

## Findings

| source | as written | input that shows it | evidently intended | confidence | as-written member | corrected member |
|---|---|---|---|---|---|---|
| project-root/chatbot/backend/app.py:196-197 | the "could not extract text" check tests the marked-up text, which always holds a page marker when the document has a page | a readable PDF of scanned pages, each `extract_text()` giving `""` or `None`: `pdf_text` is `"\n--- Page 1 ---\n\n"`, not blank, so the upload answers 200 and the chunks hold only markers | a document whose pages yield no text is refused with "… might be corrupted or contain only images." | not executed | Handlers.TextlessPdfAccepted | Extraction.NoExtractableTextIff |
| project-root/chatbot/backend/app.py:195-209 | each global is overwritten before its own check, so a failing upload after a successful one leaves a mix of old and new state | upload `a.pdf` successfully, then upload `b.pdf` whose PDF cannot be read: `pdf_text` becomes `""` while the old index and `current_filename` `a.pdf` remain, so `/summary` says no PDF was uploaded while `/chat` answers from `a.pdf` and `/status` reports it | a failed upload leaves the previous state unchanged | not executed | Handlers.UploadLeavesMixedState | Handlers.UploadAtomicPreservesCoherence |
