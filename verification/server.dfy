/** The module globals of project-root/chatbot/backend/app.py as one object,
    and the handlers as its methods. `UploadPdf` assigns the globals one stage
    at a time with early returns, as `upload_pdf` does; the read-only handlers
    have no `modifies` clause, so the verifier checks that they change no
    global. */
module Server {
  import opened Wrappers
  import opened Whitespace
  import opened Filenames
  import opened Extraction
  import opened Processing
  import opened Handlers

  class Slot {
    var pdfText: string
    var pdfChunks: seq<string>
    var vectorStore: Option<VectorStore>
    var currentFilename: string
    /** Whether `MISTRAL_API_KEY` was set at start-up (`mistral_client`). */
    const hasClient: bool
    /** The `RecursiveCharacterTextSplitter` built once at import
        (`text_splitter`); every upload uses this one. */
    const splitter: string -> seq<string>

    function State(): SlotState
      reads this
    {
      SlotState(pdfText, pdfChunks, vectorStore, currentFilename)
    }

    constructor (hasClient: bool, splitter: string -> seq<string>)
      ensures State() == Initial && this.hasClient == hasClient && this.splitter == splitter
    {
      pdfText, pdfChunks, vectorStore, currentFilename := "", [], None, "";
      this.hasClient := hasClient;
      this.splitter := splitter;
    }

    /** `upload_pdf`. */
    method UploadPdf(part: Option<string>, saveError: Option<string>,
                     parsed: Option<seq<Option<string>>>, indexBuilt: bool, summaryReply: Option<string>) returns (response: Response)
      modifies this
      ensures Outcome(State(), response)
              == Upload(old(State()), hasClient, part, saveError, parsed, splitter, indexBuilt, summaryReply)
    {
      if part.None? {
        return Error(400, NoPdfPart);
      }
      var filename := part.value;
      if filename == "" {
        return Error(400, NoFileSelected);
      }
      if !HasPdfExtension(filename) {
        return Error(400, NotPdf);
      }
      if saveError.Some? {
        return Error(500, UploadFailed(saveError.value));
      }
      response := IngestPdf(filename, parsed, indexBuilt, summaryReply);
    }

    /** The stages of `upload_pdf` after the file is saved: `pdf_text` is
        assigned before its check. */
    method IngestPdf(filename: string, parsed: Option<seq<Option<string>>>, indexBuilt: bool,
                     summaryReply: Option<string>) returns (response: Response)
      modifies this
      ensures Outcome(State(), response)
              == Ingest(old(State()), hasClient, filename, parsed, splitter, indexBuilt, summaryReply)
    {
      pdfText := ExtractText(parsed);
      if Strip(pdfText) == [] {
        return Error(400, ExtractFailed);
      }
      response := IndexPdf(filename, indexBuilt, summaryReply);
    }

    /** `pdf_chunks`, then `vector_store`, each assigned before its check,
        then `current_filename` and the initial summary. */
    method IndexPdf(filename: string, indexBuilt: bool,
                    summaryReply: Option<string>) returns (response: Response)
      modifies this
      ensures Outcome(State(), response)
              == Index(old(State()), hasClient, filename, splitter, indexBuilt, summaryReply)
    {
      pdfChunks := SplitTextIntoChunks(pdfText, splitter);
      if pdfChunks == [] {
        return Error(400, ChunkFailed);
      }
      vectorStore := CreateVectorStore(pdfChunks, indexBuilt);
      if vectorStore.None? {
        return Error(400, StoreFailed);
      }
      currentFilename := filename;
      var summary := GenerateSummary(pdfText, hasClient, summaryReply);
      response := Response(200, UploadBody(UploadedMessage(filename), filename, |pdfChunks|, summary));
    }

    /** `chat`. */
    method HandleChat(body: JsonValue, reply: Option<string>) returns (response: Response)
      ensures response == Chat(State(), hasClient, body, reply)
    {
      response := Chat(State(), hasClient, body, reply);
    }

    /** `get_summary`. */
    method HandleSummary(reply: Option<string>) returns (response: Response)
      ensures response == Summary(State(), hasClient, reply)
    {
      response := Summary(State(), hasClient, reply);
    }

    /** `get_status`. */
    method HandleStatus() returns (response: Response)
      ensures response == Status(State(), hasClient)
    {
      response := Status(State(), hasClient);
    }
  }
}
