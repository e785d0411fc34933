/** The request handlers `upload_pdf`, `chat`, `get_summary` and `get_status`
    (project-root/chatbot/backend/app.py:174-277) as pure transitions over the
    single document slot made of the four module globals. Flask is not
    modelled: a request is the handler's arguments and a response is a status
    code with the fields `jsonify` would carry. */
module Handlers {
  import opened Wrappers
  import opened Whitespace
  import opened Filenames
  import opened Extraction
  import opened Processing

  /** `pdf_text`, `pdf_chunks`, `vector_store`, `current_filename`. */
  datatype SlotState = SlotState(pdfText: string, pdfChunks: seq<string>,
                                 vectorStore: Option<VectorStore>, currentFilename: string)

  /** The globals at start-up (project-root/chatbot/backend/app.py:28-31). */
  const Initial := SlotState("", [], None, "")

  /** A request body that decoded as JSON (`request.json`); `JNull` is a
      body that decodes to JSON `null`. A request whose body does not decode
      is not modelled. Only integral numbers are modelled. */
  datatype JsonValue =
    | JNull
    | JBool(b: bool)
    | JNumber(n: int)
    | JString(s: string)
    | JArray(items: seq<JsonValue>)
    | JObject(fields: map<string, JsonValue>)

  /** Python truthiness of the decoded value. */
  predicate Truthy(v: JsonValue) {
    match v
    case JNull => false
    case JBool(b) => b
    case JNumber(n) => n != 0
    case JString(s) => s != ""
    case JArray(items) => items != []
    case JObject(fields) => fields != map[]
  }

  /** The Python type name that appears in an `AttributeError` message. */
  function PyTypeName(v: JsonValue): string {
    match v
    case JNull => "NoneType"
    case JBool(_) => "bool"
    case JNumber(_) => "int"
    case JString(_) => "str"
    case JArray(_) => "list"
    case JObject(_) => "dict"
  }

  /** `str(e)` for an `AttributeError` raised by `value.attribute(...)`. */
  function NoAttribute(v: JsonValue, attribute: string): string {
    "'" + PyTypeName(v) + "' object has no attribute '" + attribute + "'"
  }

  datatype Body =
    | ErrorBody(error: Failure)
    | UploadBody(message: string, filename: string, pages: nat, summary: string)
    | ChatBody(response: string, question: string)
    | SummaryBody(summary: string)
    | StatusBody(hasPdf: bool, filename: string, chunksCount: nat,
                 vectorStoreReady: bool, mistralConfigured: bool)

  datatype Response = Response(status: nat, body: Body)

  datatype Outcome = Outcome(state: SlotState, response: Response)

  /** The error cases of the handlers. */
  datatype Failure =
    | NoPdfPart
    | NoFileSelected
    | NotPdf
    | UploadFailed(detail: string)
    | ExtractFailed
    | ChunkFailed
    | StoreFailed
    | NoData
    | NoQuestion
    | UploadFirst
    | ChatFailed(detail: string)
    | NoPdfYet

  /** The `error` field `jsonify` sends for each failure; `detail` is
      `str(e)` of the exception caught. */
  function Message(f: Failure): string {
    match f
    case NoPdfPart => "No PDF file provided"
    case NoFileSelected => "No file selected"
    case NotPdf => "Only PDF files are allowed"
    case UploadFailed(detail) => "Upload failed: " + detail
    case ExtractFailed =>
      "Could not extract text from PDF. " + "The file might be corrupted or contain only images."
    case ChunkFailed => "Failed to process PDF text into chunks"
    case StoreFailed => "Failed to create vector store " + "for AI processing"
    case NoData => "No data provided"
    case NoQuestion => "No question provided"
    case UploadFirst => "No PDF uploaded yet. " + "Please upload a PDF first."
    case ChatFailed(detail) => "Failed to process question: " + detail
    case NoPdfYet => "No PDF uploaded yet"
  }

  lemma PrefixCancel(p: string, a: string, b: string)
    requires p + a == p + b
    ensures a == b
  {
    assert a == (p + a)[|p|..];
    assert b == (p + b)[|p|..];
  }

  /** Different failures send different `error` texts, so a client can tell
      every refusal apart, and an exception's text can be read back from
      the message. */
  lemma MessageDistinguishes(f: Failure, g: Failure)
    requires Message(f) == Message(g)
    ensures f == g
  {
    UploadFailedMarker(f);
    UploadFailedMarker(g);
    ChatFailedMarker(f);
    ChatFailedMarker(g);
    if f.UploadFailed? && g.UploadFailed? {
      PrefixCancel("Upload failed: ", f.detail, g.detail);
    } else if f.ChatFailed? && g.ChatFailed? {
      PrefixCancel("Failed to process question: ", f.detail, g.detail);
    } else if !f.UploadFailed? && !f.ChatFailed? && f != g {
      LiteralMessagesDiffer(f, g);
    }
  }

  /** Only the save failure's message starts with `U`. */
  lemma UploadFailedMarker(f: Failure)
    ensures |Message(f)| > 0 && (Message(f)[0] == 'U' <==> f.UploadFailed?)
  {
    match f
    case UploadFailed(d) =>
      var p := "Upload failed: ";
      assert Message(f) == p + d && (p + d)[0] == p[0];
    case ChatFailed(d) =>
      var p := "Failed to process question: ";
      assert Message(f) == p + d && (p + d)[0] == p[0];
    case _ =>
  }

  /** Only the chat failure's message starts with `F` and has `q` at
      position 18 (`Failed to process question`). */
  lemma ChatFailedMarker(f: Failure)
    ensures f.ChatFailed? <==> |Message(f)| > 18 && Message(f)[0] == 'F' && Message(f)[18] == 'q'
  {
    match f
    case UploadFailed(d) =>
      var p := "Upload failed: ";
      assert Message(f) == p + d && (p + d)[0] == p[0];
    case ChatFailed(d) =>
      var p := "Failed to process question: ";
      assert Message(f) == p + d && (p + d)[0] == p[0] && (p + d)[18] == p[18];
    case _ =>
  }

  /** The length and the fourth character of each fixed message. */
  function MessageKey(f: Failure): (int, char)
    requires !f.UploadFailed? && !f.ChatFailed?
  {
    match f
    case NoPdfPart => (20, 'P')
    case NoFileSelected => (16, 'f')
    case NotPdf => (26, 'y')
    case ExtractFailed => (84, 'l')
    case ChunkFailed => (38, 'l')
    case StoreFailed => (47, 'l')
    case NoData => (16, 'd')
    case NoQuestion => (20, 'q')
    case UploadFirst => (47, 'P')
    case NoPdfYet => (19, 'P')
  }

  lemma MessageKeyOf(f: Failure)
    requires !f.UploadFailed? && !f.ChatFailed?
    ensures |Message(f)| > 3
    ensures MessageKey(f) == (|Message(f)|, Message(f)[3])
  {
    if f.NoPdfPart? || f.NoFileSelected? || f.NotPdf? {
      UploadMessageKey(f);
    } else if f.ChunkFailed? {
      ChunkMessageKey();
    } else if f.NoData? || f.NoQuestion? || f.NoPdfYet? {
      RequestMessageKey(f);
    } else {
      SplitMessageKey(f);
    }
  }

  lemma UploadMessageKey(f: Failure)
    requires f.NoPdfPart? || f.NoFileSelected? || f.NotPdf?
    ensures |Message(f)| > 3 && MessageKey(f) == (|Message(f)|, Message(f)[3])
  {
  }

  lemma ChunkMessageKey()
    ensures |Message(ChunkFailed)| > 3
    ensures MessageKey(ChunkFailed) == (|Message(ChunkFailed)|, Message(ChunkFailed)[3])
  {
  }

  lemma RequestMessageKey(f: Failure)
    requires f.NoData? || f.NoQuestion? || f.NoPdfYet?
    ensures |Message(f)| > 3 && MessageKey(f) == (|Message(f)|, Message(f)[3])
  {
  }

  lemma SplitMessageKey(f: Failure)
    requires f.ExtractFailed? || f.StoreFailed? || f.UploadFirst?
    ensures |Message(f)| > 3 && MessageKey(f) == (|Message(f)|, Message(f)[3])
  {
    match f
    case ExtractFailed =>
      var p := "Could not extract text from PDF. ";
      assert Message(f) == p + "The file might be corrupted or contain only images.";
    case StoreFailed =>
      var p := "Failed to create vector store ";
      assert Message(f) == p + "for AI processing";
    case UploadFirst =>
      var p := "No PDF uploaded yet. ";
      assert Message(f) == p + "Please upload a PDF first.";
  }

  /** The fixed messages differ in their length or their fourth
      character. */
  lemma LiteralMessagesDiffer(f: Failure, g: Failure)
    requires !f.UploadFailed? && !f.ChatFailed? && !g.UploadFailed? && !g.ChatFailed?
    requires f != g
    ensures Message(f) != Message(g)
  {
    MessageKeyInjective(f, g);
    MessageKeyOf(f);
    MessageKeyOf(g);
  }

  lemma MessageKeyInjective(f: Failure, g: Failure)
    requires !f.UploadFailed? && !f.ChatFailed? && !g.UploadFailed? && !g.ChatFailed?
    requires f != g
    ensures MessageKey(f) != MessageKey(g)
  {
  }

  function Error(status: nat, failure: Failure): Response {
    Response(status, ErrorBody(failure))
  }

  function UploadedMessage(filename: string): string {
    "PDF \"" + filename + "\" uploaded and processed successfully!"
  }

  /** `upload_pdf`. `part` is the filename of the `pdf` form part, `None`
      when the request has none; `saveError` is the text of the exception
      `file.save` raised, if it did; `parsed`, `splitter`, `indexBuilt` and
      `summaryReply` are the outcomes of the foreign stages. Each global is
      assigned before its own check, as in the source. */
  function Upload(s: SlotState, hasClient: bool, part: Option<string>, saveError: Option<string>,
                  parsed: Option<seq<Option<string>>>, splitter: string -> seq<string>,
                  indexBuilt: bool, summaryReply: Option<string>): Outcome
  {
    if part.None? then Outcome(s, Error(400, NoPdfPart))
    else
      var filename := part.value;
      if filename == "" then Outcome(s, Error(400, NoFileSelected))
      else if !HasPdfExtension(filename) then Outcome(s, Error(400, NotPdf))
      else if saveError.Some? then Outcome(s, Error(500, UploadFailed(saveError.value)))
      else Ingest(s, hasClient, filename, parsed, splitter, indexBuilt, summaryReply)
  }

  /** The part of `upload_pdf` after the file is saved: `pdf_text` is
      assigned, then checked. */
  function Ingest(s: SlotState, hasClient: bool, filename: string,
                  parsed: Option<seq<Option<string>>>, splitter: string -> seq<string>,
                  indexBuilt: bool, summaryReply: Option<string>): Outcome
  {
    var s1 := s.(pdfText := ExtractedText(parsed));
    if Strip(s1.pdfText) == [] then Outcome(s1, Error(400, ExtractFailed))
    else Index(s1, hasClient, filename, splitter, indexBuilt, summaryReply)
  }

  /** The rest of `upload_pdf`: `pdf_chunks`, then `vector_store`, each
      assigned before its own check, then the filename and the initial
      summary. */
  function Index(s: SlotState, hasClient: bool, filename: string, splitter: string -> seq<string>,
                 indexBuilt: bool, summaryReply: Option<string>): Outcome
  {
    var s2 := s.(pdfChunks := SplitTextIntoChunks(s.pdfText, splitter));
    if s2.pdfChunks == [] then Outcome(s2, Error(400, ChunkFailed))
    else
      var s3 := s2.(vectorStore := CreateVectorStore(s2.pdfChunks, indexBuilt));
      if s3.vectorStore.None? then Outcome(s3, Error(400, StoreFailed))
      else
        var s4 := s3.(currentFilename := filename);
        var summary := GenerateSummary(s4.pdfText, hasClient, summaryReply);
        Outcome(s4, Response(200, UploadBody(UploadedMessage(filename), filename,
                                             |s4.pdfChunks|, summary)))
  }

  /** `chat`. `reply` is the outcome of the retrieval-augmented model call. */
  function Chat(s: SlotState, hasClient: bool, body: JsonValue, reply: Option<string>): Response {
    if !Truthy(body) then Error(400, NoData)
    else if !body.JObject? then Error(500, ChatFailed(NoAttribute(body, "get")))
    else
      var raw := if "message" in body.fields then body.fields["message"] else JString("");
      if !raw.JString? then Error(500, ChatFailed(NoAttribute(raw, "strip")))
      else
        var question := Strip(raw.s);
        if question == [] then Error(400, NoQuestion)
        else if s.vectorStore.None? then Error(400, UploadFirst)
        else Response(200, ChatBody(AnswerQuestion(question, s.vectorStore, hasClient, reply), question))
  }

  /** `get_summary`. Its 500 branch is unreachable, since `generate_summary`
      catches every exception itself. */
  function Summary(s: SlotState, hasClient: bool, reply: Option<string>): Response {
    if s.pdfText == "" then Error(400, NoPdfYet)
    else Response(200, SummaryBody(GenerateSummary(s.pdfText, hasClient, reply)))
  }

  /** `get_status`. `len(pdf_chunks) if pdf_chunks else 0` is `len(pdf_chunks)`. */
  function Status(s: SlotState, hasClient: bool): Response {
    Response(200, StatusBody(s.currentFilename != "", s.currentFilename, |s.pdfChunks|,
                             s.vectorStore.Some?, hasClient))
  }

  // ---------------------------------------------------------------------
  // Upload

  /** `upload_pdf` one step at a time: the checks before the file is saved,
      then the ingest stage. */
  lemma UploadSteps(s: SlotState, hasClient: bool, part: Option<string>, saveError: Option<string>,
                    parsed: Option<seq<Option<string>>>, splitter: string -> seq<string>,
                    indexBuilt: bool, summaryReply: Option<string>)
    ensures var o := Upload(s, hasClient, part, saveError, parsed, splitter, indexBuilt, summaryReply);
            && (part.None? ==> o == Outcome(s, Error(400, NoPdfPart)))
            && (part.Some? && part.value == "" ==> o == Outcome(s, Error(400, NoFileSelected)))
            && (part.Some? && part.value != "" && !HasPdfExtension(part.value) ==>
                  o == Outcome(s, Error(400, NotPdf)))
            && (part.Some? && HasPdfExtension(part.value) && saveError.Some? ==>
                  o == Outcome(s, Error(500, UploadFailed(saveError.value))))
            && (part.Some? && HasPdfExtension(part.value) && saveError.None? ==>
                  o == Ingest(s, hasClient, part.value, parsed, splitter, indexBuilt, summaryReply))
  {
    if part.Some? && HasPdfExtension(part.value) {
      PdfExtensionNotEmpty(part.value);
    }
  }

  /** The extraction stage fails exactly for a document that could not be
      read or has no pages, and then leaves `pdf_text` empty. */
  lemma IngestSteps(s: SlotState, hasClient: bool, filename: string,
                    parsed: Option<seq<Option<string>>>, splitter: string -> seq<string>,
                    indexBuilt: bool, summaryReply: Option<string>)
    ensures var o := Ingest(s, hasClient, filename, parsed, splitter, indexBuilt, summaryReply);
            && (parsed.None? || parsed.value == [] ==> o == Outcome(s.(pdfText := ""), Error(400, ExtractFailed)))
            && (parsed.Some? && parsed.value != [] ==>
                  o == Index(s.(pdfText := Serialize(parsed.value)), hasClient, filename, splitter,
                             indexBuilt, summaryReply))
  {
    ExtractedBlankIff(parsed);
  }

  /** The chunking and indexing stages, case by case. */
  lemma IndexSteps(s: SlotState, hasClient: bool, filename: string, splitter: string -> seq<string>,
                   indexBuilt: bool, summaryReply: Option<string>)
    ensures var o := Index(s, hasClient, filename, splitter, indexBuilt, summaryReply);
            var chunks := SplitTextIntoChunks(s.pdfText, splitter);
            && (chunks == [] ==> o == Outcome(s.(pdfChunks := []), Error(400, ChunkFailed)))
            && (chunks != [] && !indexBuilt ==>
                  o == Outcome(s.(pdfChunks := chunks, vectorStore := None), Error(400, StoreFailed)))
            && (chunks != [] && indexBuilt ==>
                  o == Outcome(SlotState(s.pdfText, chunks, Some(VectorStore(chunks)), filename),
                               Response(200, UploadBody(UploadedMessage(filename), filename, |chunks|,
                                                        GenerateSummary(s.pdfText, hasClient, summaryReply)))))
  {
  }

  /** The stages after the file is saved answer 200 or one of their own
      400 errors, never a filename error. */
  lemma IngestResponses(s: SlotState, hasClient: bool, filename: string,
                        parsed: Option<seq<Option<string>>>, splitter: string -> seq<string>,
                        indexBuilt: bool, summaryReply: Option<string>)
    ensures var r := Ingest(s, hasClient, filename, parsed, splitter, indexBuilt, summaryReply).response;
            r.status == 200 || (r.body.ErrorBody? && r.body.error in {ExtractFailed, ChunkFailed, StoreFailed})
  {
    IngestSteps(s, hasClient, filename, parsed, splitter, indexBuilt, summaryReply);
    if parsed.Some? && parsed.value != [] {
      IndexSteps(s.(pdfText := Serialize(parsed.value)), hasClient, filename, splitter, indexBuilt, summaryReply);
    }
  }

  /** A missing part, an empty name or a name without the `.pdf` extension
      is answered 400 with its own error, and the four globals stay as they
      were. */
  lemma UploadRejectsBadFilename(s: SlotState, hasClient: bool, part: Option<string>,
                                 saveError: Option<string>, parsed: Option<seq<Option<string>>>,
                                 splitter: string -> seq<string>, indexBuilt: bool,
                                 summaryReply: Option<string>)
    requires part.None? || !HasPdfExtension(part.value)
    ensures var o := Upload(s, hasClient, part, saveError, parsed, splitter, indexBuilt, summaryReply);
            && o.response.status == 400 && o.state == s
            && o.response.body.ErrorBody? && o.response.body.error in {NoPdfPart, NoFileSelected, NotPdf}
            && (part.None? ==> o.response.body.error == NoPdfPart)
            && (part.Some? && part.value == "" ==> o.response.body.error == NoFileSelected)
            && (part.Some? && part.value != "" ==> o.response.body.error == NotPdf)
  {
    UploadSteps(s, hasClient, part, saveError, parsed, splitter, indexBuilt, summaryReply);
  }

  /** Before the file is saved nothing downstream is consulted: a rejected
      name or a failed save gives the same outcome whatever the document,
      the splitter, the index build, the summary reply and the client, and a
      failed save is a 500 that names the exception and keeps the slot. */
  lemma UploadEarlyExitsIgnoreLaterStages(s: SlotState, part: Option<string>, saveError: Option<string>,
                                          hasClient: bool, parsed: Option<seq<Option<string>>>,
                                          splitter: string -> seq<string>, indexBuilt: bool,
                                          summaryReply: Option<string>,
                                          hasClient': bool, parsed': Option<seq<Option<string>>>,
                                          splitter': string -> seq<string>, indexBuilt': bool,
                                          summaryReply': Option<string>)
    requires part.None? || !HasPdfExtension(part.value) || saveError.Some?
    ensures Upload(s, hasClient, part, saveError, parsed, splitter, indexBuilt, summaryReply)
            == Upload(s, hasClient', part, saveError, parsed', splitter', indexBuilt', summaryReply')
    ensures part.Some? && HasPdfExtension(part.value) && saveError.Some? ==>
              Upload(s, hasClient, part, saveError, parsed, splitter, indexBuilt, summaryReply)
              == Outcome(s, Error(500, UploadFailed(saveError.value)))
  {
    UploadSteps(s, hasClient, part, saveError, parsed, splitter, indexBuilt, summaryReply);
    UploadSteps(s, hasClient', part, saveError, parsed', splitter', indexBuilt', summaryReply');
  }

  /** Conversely, a PDF name is never answered with a filename error. */
  lemma UploadAcceptsPdfName(s: SlotState, hasClient: bool, part: Option<string>,
                             saveError: Option<string>, parsed: Option<seq<Option<string>>>,
                             splitter: string -> seq<string>, indexBuilt: bool,
                             summaryReply: Option<string>)
    requires part.Some? && HasPdfExtension(part.value)
    ensures var o := Upload(s, hasClient, part, saveError, parsed, splitter, indexBuilt, summaryReply);
            !(o.response.body.ErrorBody? && o.response.body.error in {NoPdfPart, NoFileSelected, NotPdf})
  {
    UploadSteps(s, hasClient, part, saveError, parsed, splitter, indexBuilt, summaryReply);
    if saveError.None? {
      IngestResponses(s, hasClient, part.value, parsed, splitter, indexBuilt, summaryReply);
    }
  }

  /** The upload succeeds exactly when the name is a PDF name, the file is
      saved, the document has at least one page, the splitter yields chunks
      and the index is built. */
  lemma UploadSucceedsIff(s: SlotState, hasClient: bool, part: Option<string>,
                          saveError: Option<string>, parsed: Option<seq<Option<string>>>,
                          splitter: string -> seq<string>, indexBuilt: bool,
                          summaryReply: Option<string>)
    ensures var o := Upload(s, hasClient, part, saveError, parsed, splitter, indexBuilt, summaryReply);
            o.response.status == 200 <==>
              && part.Some? && HasPdfExtension(part.value) && saveError.None?
              && parsed.Some? && parsed.value != []
              && SplitTextIntoChunks(Serialize(parsed.value), splitter) != [] && indexBuilt
  {
    UploadSteps(s, hasClient, part, saveError, parsed, splitter, indexBuilt, summaryReply);
    if part.Some? && HasPdfExtension(part.value) && saveError.None? {
      IngestSteps(s, hasClient, part.value, parsed, splitter, indexBuilt, summaryReply);
      if parsed.Some? && parsed.value != [] {
        IndexSteps(s.(pdfText := Serialize(parsed.value)), hasClient, part.value, splitter, indexBuilt, summaryReply);
      }
    }
  }

  /** After a successful upload all four globals come from this upload, and
      `pages` is the number of chunks, not the number of PDF pages. */
  lemma UploadSuccess(s: SlotState, hasClient: bool, filename: string, pages: seq<Option<string>>,
                      splitter: string -> seq<string>, summaryReply: Option<string>)
    requires HasPdfExtension(filename) && pages != []
    requires SplitTextIntoChunks(Serialize(pages), splitter) != []
    ensures var o := Upload(s, hasClient, Some(filename), None, Some(pages), splitter, true, summaryReply);
            var chunks := SplitTextIntoChunks(Serialize(pages), splitter);
            && o.state == SlotState(Serialize(pages), chunks, Some(VectorStore(chunks)), filename)
            && o.response == Response(200, UploadBody(UploadedMessage(filename), filename, |chunks|,
                                                      GenerateSummary(Serialize(pages), hasClient, summaryReply)))
  {
    UploadSteps(s, hasClient, Some(filename), None, Some(pages), splitter, true, summaryReply);
    IngestSteps(s, hasClient, filename, Some(pages), splitter, true, summaryReply);
    IndexSteps(s.(pdfText := Serialize(pages)), hasClient, filename, splitter, true, summaryReply);
  }

  /** Extraction fails exactly for a document that could not be read or has
      no pages; `pdf_text` is then emptied and nothing else changes. */
  lemma UploadExtractFailure(s: SlotState, hasClient: bool, filename: string,
                             parsed: Option<seq<Option<string>>>, splitter: string -> seq<string>,
                             indexBuilt: bool, summaryReply: Option<string>)
    requires HasPdfExtension(filename)
    ensures var o := Upload(s, hasClient, Some(filename), None, parsed, splitter, indexBuilt, summaryReply);
            o.response == Error(400, ExtractFailed) <==> parsed.None? || parsed.value == []
    ensures parsed.None? || parsed.value == [] ==>
              Upload(s, hasClient, Some(filename), None, parsed, splitter, indexBuilt, summaryReply).state
                == s.(pdfText := "")
  {
    UploadSteps(s, hasClient, Some(filename), None, parsed, splitter, indexBuilt, summaryReply);
    IngestResponses(s, hasClient, filename, parsed, splitter, indexBuilt, summaryReply);
    IngestSteps(s, hasClient, filename, parsed, splitter, indexBuilt, summaryReply);
  }

  /** With text extracted, chunking fails exactly when the splitter yields
      nothing; `pdf_text` then holds the new text and `pdf_chunks` is emptied,
      while the index and the filename stay as they were. */
  lemma UploadChunkFailure(s: SlotState, hasClient: bool, filename: string, pages: seq<Option<string>>,
                           splitter: string -> seq<string>, indexBuilt: bool,
                           summaryReply: Option<string>)
    requires HasPdfExtension(filename) && pages != []
    ensures var o := Upload(s, hasClient, Some(filename), None, Some(pages), splitter, indexBuilt, summaryReply);
            o.response == Error(400, ChunkFailed) <==> SplitTextIntoChunks(Serialize(pages), splitter) == []
    ensures SplitTextIntoChunks(Serialize(pages), splitter) == [] ==>
              Upload(s, hasClient, Some(filename), None, Some(pages), splitter, indexBuilt, summaryReply).state
                == s.(pdfText := Serialize(pages), pdfChunks := [])
  {
    UploadSteps(s, hasClient, Some(filename), None, Some(pages), splitter, indexBuilt, summaryReply);
    IngestSteps(s, hasClient, filename, Some(pages), splitter, indexBuilt, summaryReply);
    IndexSteps(s.(pdfText := Serialize(pages)), hasClient, filename, splitter, indexBuilt, summaryReply);
  }

  /** With chunks made, indexing fails exactly when the build raises; text
      and chunks then hold the new values, the index is cleared and the
      filename stays as it was. */
  lemma UploadStoreFailure(s: SlotState, hasClient: bool, filename: string, pages: seq<Option<string>>,
                           splitter: string -> seq<string>, indexBuilt: bool,
                           summaryReply: Option<string>)
    requires HasPdfExtension(filename) && pages != []
    requires SplitTextIntoChunks(Serialize(pages), splitter) != []
    ensures var o := Upload(s, hasClient, Some(filename), None, Some(pages), splitter, indexBuilt, summaryReply);
            o.response == Error(400, StoreFailed) <==> !indexBuilt
    ensures !indexBuilt ==>
              Upload(s, hasClient, Some(filename), None, Some(pages), splitter, indexBuilt, summaryReply).state
                == s.(pdfText := Serialize(pages), pdfChunks := SplitTextIntoChunks(Serialize(pages), splitter),
                      vectorStore := None)
  {
    UploadSteps(s, hasClient, Some(filename), None, Some(pages), splitter, indexBuilt, summaryReply);
    IngestSteps(s, hasClient, filename, Some(pages), splitter, indexBuilt, summaryReply);
    IndexSteps(s.(pdfText := Serialize(pages)), hasClient, filename, splitter, indexBuilt, summaryReply);
  }

  /** Whatever fails, `current_filename` keeps the previous upload's name:
      it is assigned only after every stage has succeeded. */
  lemma UploadFailureKeepsFilename(s: SlotState, hasClient: bool, part: Option<string>,
                                   saveError: Option<string>, parsed: Option<seq<Option<string>>>,
                                   splitter: string -> seq<string>, indexBuilt: bool,
                                   summaryReply: Option<string>)
    ensures var o := Upload(s, hasClient, part, saveError, parsed, splitter, indexBuilt, summaryReply);
            o.response.status != 200 ==> o.state.currentFilename == s.currentFilename
  {
    UploadSteps(s, hasClient, part, saveError, parsed, splitter, indexBuilt, summaryReply);
    if part.Some? && HasPdfExtension(part.value) && saveError.None? {
      IngestSteps(s, hasClient, part.value, parsed, splitter, indexBuilt, summaryReply);
      if parsed.Some? && parsed.value != [] {
        IndexSteps(s.(pdfText := Serialize(parsed.value)), hasClient, part.value, splitter, indexBuilt, summaryReply);
      }
    }
  }

  // ---------------------------------------------------------------------
  // Chat, summary, status

  /** The chat guards in their order: a falsy body, then a blank question,
      then a missing index; any body that passes them reaches the model with
      the stripped question, which is echoed back. */
  lemma ChatGuardOrder(s: SlotState, hasClient: bool, body: JsonValue, reply: Option<string>)
    ensures !Truthy(body) ==> Chat(s, hasClient, body, reply) == Error(400, NoData)
    ensures Truthy(body) && body.JObject? && "message" !in body.fields ==>
              Chat(s, hasClient, body, reply) == Error(400, NoQuestion)
    ensures Truthy(body) && body.JObject? && "message" in body.fields && body.fields["message"].JString? ==>
              var question := body.fields["message"].s;
              && (IsBlank(question) ==> Chat(s, hasClient, body, reply) == Error(400, NoQuestion))
              && (!IsBlank(question) && s.vectorStore.None? ==>
                    Chat(s, hasClient, body, reply) == Error(400, UploadFirst))
              && (!IsBlank(question) && s.vectorStore.Some? ==>
                    Chat(s, hasClient, body, reply) ==
                      Response(200, ChatBody(AnswerQuestion(Strip(question), s.vectorStore, hasClient, reply),
                                             Strip(question))))
  {
    if Truthy(body) && body.JObject? && "message" in body.fields && body.fields["message"].JString? {
      StripEmptyIffBlank(body.fields["message"].s);
    }
  }

  /** A chat answer is given exactly for an object body whose `message` is a
      non-blank string while an index exists; the echoed question is then
      non-empty with no whitespace at either end, and the answer never comes
      from `answer_question`'s own missing-index guard. */
  lemma ChatAnswers(s: SlotState, hasClient: bool, body: JsonValue, reply: Option<string>)
    ensures var r := Chat(s, hasClient, body, reply);
            r.status == 200 <==>
              && body.JObject? && "message" in body.fields && body.fields["message"].JString?
              && !IsBlank(body.fields["message"].s) && s.vectorStore.Some?
    ensures var r := Chat(s, hasClient, body, reply);
            r.status == 200 ==>
              && r.body.ChatBody? && r.body.question != [] && NoEdgeSpace(r.body.question)
              && r.body.response == AnswerQuestion(r.body.question, s.vectorStore, hasClient, reply)
              && (hasClient ==> r.body.response == ReplyOr(reply, AnswerFailedMessage))
              && (!hasClient ==> r.body.response == NotConfiguredMessage)
  {
    if body.JObject? && "message" in body.fields && body.fields["message"].JString? {
      StripEmptyIffBlank(body.fields["message"].s);
    }
  }

  /** Before any upload, `{"message": "hello"}` is refused with the
      upload-first error. */
  lemma ChatBeforeUpload(hasClient: bool, reply: Option<string>)
    ensures Chat(Initial, hasClient, HelloBody, reply) == Error(400, UploadFirst)
  {
    ChatHello(Initial, hasClient, reply);
  }

  /** The request body `{"message": "hello"}`. */
  const HelloBody := JObject(map["message" := JString("hello")])

  /** `{"message": "hello"}` is answered exactly when an index exists. */
  lemma ChatHello(s: SlotState, hasClient: bool, reply: Option<string>)
    ensures s.vectorStore.None? ==> Chat(s, hasClient, HelloBody, reply) == Error(400, UploadFirst)
    ensures s.vectorStore.Some? ==> Chat(s, hasClient, HelloBody, reply).status == 200
  {
    var q := "hello";
    assert !IsSpace(q[0]) && !IsSpace(q[|q| - 1]);
    StripFixedPoint(q);
    assert HelloBody.fields["message"] == JString(q);
  }

  /** The summary is produced exactly when `pdf_text` is non-empty. */
  lemma SummaryRequiresText(s: SlotState, hasClient: bool, reply: Option<string>)
    ensures Summary(s, hasClient, reply).status == 200 <==> s.pdfText != ""
    ensures s.pdfText != "" ==>
              Summary(s, hasClient, reply).body.summary == GenerateSummary(s.pdfText, hasClient, reply)
    ensures s.pdfText == "" ==> Summary(s, hasClient, reply) == Error(400, NoPdfYet)
  {
  }

  /** Before any upload the status is `has_pdf: false`, `filename: ""`,
      `chunks_count: 0`, `vector_store_ready: false`. */
  lemma StatusInitial(hasClient: bool)
    ensures Status(Initial, hasClient) == Response(200, StatusBody(false, "", 0, false, hasClient))
  {
  }

  /** After a successful upload the status reports the upload: `has_pdf`,
      its filename, a positive `chunks_count` and a ready index. */
  lemma StatusAfterUpload(s: SlotState, hasClient: bool, filename: string, pages: seq<Option<string>>,
                          splitter: string -> seq<string>, summaryReply: Option<string>)
    requires HasPdfExtension(filename) && pages != []
    requires SplitTextIntoChunks(Serialize(pages), splitter) != []
    ensures var o := Upload(s, hasClient, Some(filename), None, Some(pages), splitter, true, summaryReply);
            var b := Status(o.state, hasClient).body;
            && b.hasPdf && b.filename == filename && b.chunksCount > 0 && b.vectorStoreReady
            && o.response.body.UploadBody? && b.chunksCount == o.response.body.pages
  {
    UploadSuccess(s, hasClient, filename, pages, splitter, summaryReply);
    PdfExtensionNotEmpty(filename);
  }

  // ---------------------------------------------------------------------
  // Coherence of the slot

  /** The slot describes one document: either nothing was loaded, or the
      filename passed the extension test, the text is not blank, the chunks
      are what the application's one splitter makes of that text, and the
      index is built over exactly those chunks. */
  predicate Coherent(s: SlotState, splitter: string -> seq<string>) {
    s == Initial
    || (&& HasPdfExtension(s.currentFilename) && !IsBlank(s.pdfText)
        && s.pdfChunks == SplitTextIntoChunks(s.pdfText, splitter) && s.pdfChunks != []
        && s.vectorStore == Some(VectorStore(s.pdfChunks)))
  }

  /** As written, a failed extraction after a successful upload empties
      `pdf_text` and keeps everything else, which leaves the slot
      incoherent. */
  lemma UploadLeavesMixedState(s: SlotState, hasClient: bool, filename: string,
                               splitter: string -> seq<string>, indexBuilt: bool,
                               summaryReply: Option<string>)
    requires Coherent(s, splitter) && s != Initial && HasPdfExtension(filename)
    ensures var o := Upload(s, hasClient, Some(filename), None, None, splitter, indexBuilt, summaryReply);
            && o == Outcome(s.(pdfText := ""), Error(400, ExtractFailed))
            && !Coherent(o.state, splitter)
  {
    UploadExtractFailure(s, hasClient, filename, None, splitter, indexBuilt, summaryReply);
    EmptiedTextIncoherent(s, splitter);
  }

  /** Emptying `pdf_text` of a loaded slot makes it incoherent. */
  lemma EmptiedTextIncoherent(s: SlotState, splitter: string -> seq<string>)
    requires Coherent(s, splitter) && s != Initial
    ensures !Coherent(s.(pdfText := ""), splitter)
  {
    assert IsBlank(s.(pdfText := "").pdfText);
  }

  /** What a client then sees in such a slot: `/summary` says no PDF was
      uploaded while `/chat` still answers from the previous document and
      `/status` still names it. */
  lemma MixedStateSymptoms(t: SlotState, hasClient: bool, reply: Option<string>)
    requires t.pdfText == "" && t.vectorStore.Some? && t.currentFilename != ""
    ensures Summary(t, hasClient, reply) == Error(400, NoPdfYet)
    ensures Chat(t, hasClient, HelloBody, reply).status == 200
    ensures Status(t, hasClient).body.hasPdf && Status(t, hasClient).body.filename == t.currentFilename
  {
    ChatHello(t, hasClient, reply);
  }

  /** As written, an index that fails to build on the first upload leaves
      text and chunks in place with no filename and no index. */
  lemma UploadLeavesOrphanChunks(hasClient: bool, filename: string, pages: seq<Option<string>>,
                                 splitter: string -> seq<string>, summaryReply: Option<string>)
    requires HasPdfExtension(filename) && pages != []
    requires SplitTextIntoChunks(Serialize(pages), splitter) != []
    ensures var o := Upload(Initial, hasClient, Some(filename), None, Some(pages), splitter, false, summaryReply);
            && o.response == Error(400, StoreFailed)
            && !Coherent(o.state, splitter)
            && Status(o.state, hasClient).body == StatusBody(false, "", |o.state.pdfChunks|, false, hasClient)
  {
    UploadStoreFailure(Initial, hasClient, filename, pages, splitter, false, summaryReply);
  }

  /** As written, a readable PDF whose pages all yield no text (a scanned,
      image-only document) is accepted with 200, although the extraction
      error names "contain only images" as a reason for refusing it. */
  lemma TextlessPdfAccepted(s: SlotState, hasClient: bool, filename: string, pages: seq<Option<string>>,
                            splitter: string -> seq<string>, summaryReply: Option<string>)
    requires HasPdfExtension(filename) && pages != []
    requires forall i :: 0 <= i < |pages| ==> IsBlank(PageText(pages[i]))
    requires forall t :: !IsBlank(t) ==> splitter(t) != []
    ensures NoExtractableText(Some(pages))
    ensures Upload(s, hasClient, Some(filename), None, Some(pages), splitter, true, summaryReply).response.status == 200
  {
    MarkersHideTextlessPages(pages);
    StripEmptyIffBlank(Serialize(pages));
    ChunksEmptyIffBlank(Serialize(pages), splitter);
    UploadSuccess(s, hasClient, filename, pages, splitter, summaryReply);
  }

  /** The upload as it is evidently meant to behave: a failed upload leaves
      the previous state unchanged; the responses are those of `upload_pdf`. */
  function UploadAtomic(s: SlotState, hasClient: bool, part: Option<string>, saveError: Option<string>,
                        parsed: Option<seq<Option<string>>>, splitter: string -> seq<string>,
                        indexBuilt: bool, summaryReply: Option<string>): Outcome
  {
    var o := Upload(s, hasClient, part, saveError, parsed, splitter, indexBuilt, summaryReply);
    if o.response.status == 200 then o else Outcome(s, o.response)
  }

  /** The atomic upload keeps the slot coherent from every coherent state,
      changes nothing on failure and agrees with the source on success. */
  lemma UploadAtomicPreservesCoherence(s: SlotState, hasClient: bool, part: Option<string>,
                                       saveError: Option<string>, parsed: Option<seq<Option<string>>>,
                                       splitter: string -> seq<string>, indexBuilt: bool,
                                       summaryReply: Option<string>)
    requires Coherent(s, splitter)
    ensures var a := UploadAtomic(s, hasClient, part, saveError, parsed, splitter, indexBuilt, summaryReply);
            var o := Upload(s, hasClient, part, saveError, parsed, splitter, indexBuilt, summaryReply);
            && Coherent(a.state, splitter)
            && a.response == o.response
            && (a.response.status != 200 ==> a.state == s)
            && (a.response.status == 200 ==> a.state == o.state)
  {
    var o := Upload(s, hasClient, part, saveError, parsed, splitter, indexBuilt, summaryReply);
    UploadSucceedsIff(s, hasClient, part, saveError, parsed, splitter, indexBuilt, summaryReply);
    if o.response.status == 200 {
      UploadSuccess(s, hasClient, part.value, parsed.value, splitter, summaryReply);
      ExtractedNotBlank(parsed.value);
    }
  }
}
