/** `PDFProcessor.split_text_into_chunks`, `PDFProcessor.create_vector_store`,
    `AIAssistant.generate_summary` and `AIAssistant.answer_question`
    (project-root/chatbot/backend/app.py:59-168), down to their guard chains.
    The text splitter, the embedding index and the hosted model are foreign
    code: the splitter is a function parameter, index construction a flag
    saying whether it raised, and each model call its reply, `None` when the
    call raised. */
module Processing {
  import opened Wrappers
  import opened Whitespace

  /** What the index is built over; its numerics are not modelled. */
  datatype VectorStore = VectorStore(chunks: seq<string>)

  // The long messages are written in pieces only so that the verifier can
  // read their first characters.
  const NoTextMessage := "No text content found in the PDF."
  const NotConfiguredMessage := "Mistral AI API key not configured." + " Please set MISTRAL_API_KEY in your .env file."
  const SummaryFailedMessage := "Unable to generate summary at this time."
  const NoStoreMessage := "No PDF has been uploaded yet." + " Please upload a PDF first."
  const AnswerFailedMessage := "I'm sorry, I encountered an error" + " while processing your question. Please try again."

  /** Whitespace-only text gives no chunks; anything else is normalised and
      only the normalised, non-empty text reaches the splitter. */
  function SplitTextIntoChunks(text: string, splitter: string -> seq<string>): seq<string> {
    if Strip(text) == [] then [] else splitter(Normalize(text))
  }

  /** What the splitter is given: nothing for whitespace-only text, and
      otherwise the normalised text, which is then non-empty, single-spaced
      and without whitespace at either end. */
  lemma SplitterInput(text: string, splitter: string -> seq<string>)
    ensures IsBlank(text) ==> SplitTextIntoChunks(text, splitter) == []
    ensures !IsBlank(text) ==>
              && SplitTextIntoChunks(text, splitter) == splitter(Normalize(text))
              && Normalize(text) != [] && SingleSpaced(Normalize(text)) && NoEdgeSpace(Normalize(text))
  {
    StripEmptyIffBlank(text);
    NormalizeEmptyIffBlank(text);
    NormalizeShape(text);
  }

  /** When the splitter returns at least one chunk for any text that is not
      whitespace only (the text it is handed here never is), the chunk list
      is empty exactly for whitespace-only text. */
  lemma ChunksEmptyIffBlank(text: string, splitter: string -> seq<string>)
    requires forall t :: !IsBlank(t) ==> splitter(t) != []
    ensures SplitTextIntoChunks(text, splitter) == [] <==> IsBlank(text)
  {
    SplitterInput(text, splitter);
    NormalizeEmptyIffBlank(text);
  }

  /** `create_vector_store`: no chunks gives `None` without building; a build
      that raises gives `None`; otherwise the index holds these chunks. */
  function CreateVectorStore(chunks: seq<string>, built: bool): (r: Option<VectorStore>)
    ensures r.Some? <==> chunks != [] && built
    ensures r.Some? ==> r.value.chunks == chunks
  {
    if chunks == [] then None
    else if built then Some(VectorStore(chunks))
    else None
  }

  /** The reply of a model call as the backend returns it: the stripped
      content, or the fixed message when the call raised. */
  function ReplyOr(reply: Option<string>, failed: string): string {
    match reply
    case Some(content) => Strip(content)
    case None => failed
  }

  /** `generate_summary`: blank text, then a missing client, are answered
      with fixed messages before any model call. */
  function GenerateSummary(text: string, hasClient: bool, reply: Option<string>): string {
    if Strip(text) == [] then NoTextMessage
    else if !hasClient then NotConfiguredMessage
    else ReplyOr(reply, SummaryFailedMessage)
  }

  /** `answer_question`: a missing index, then a missing client, are
      answered with fixed messages before any model call. */
  function AnswerQuestion(question: string, store: Option<VectorStore>, hasClient: bool,
                          reply: Option<string>): string {
    if store.None? then NoStoreMessage
    else if !hasClient then NotConfiguredMessage
    else ReplyOr(reply, AnswerFailedMessage)
  }

  /** The summary consults the model only for non-blank text with a client
      configured; otherwise it is a fixed message, whatever the model would
      have said. */
  lemma SummaryGuards(text: string, hasClient: bool, reply: Option<string>, other: Option<string>)
    ensures IsBlank(text) ==> GenerateSummary(text, hasClient, reply) == NoTextMessage
    ensures !IsBlank(text) && !hasClient ==> GenerateSummary(text, hasClient, reply) == NotConfiguredMessage
    ensures IsBlank(text) || !hasClient ==>
              GenerateSummary(text, hasClient, reply) == GenerateSummary(text, hasClient, other)
    ensures !IsBlank(text) && hasClient && reply.None? ==>
              GenerateSummary(text, hasClient, reply) == SummaryFailedMessage
    ensures !IsBlank(text) && hasClient && reply.Some? ==>
              GenerateSummary(text, hasClient, reply) == Strip(reply.value)
  {
    StripEmptyIffBlank(text);
  }

  /** Whatever happens, the summary has no whitespace at either end: model
      replies are stripped and none of the fixed messages has any. */
  lemma SummaryHasNoEdgeSpace(text: string, hasClient: bool, reply: Option<string>)
    ensures NoEdgeSpace(GenerateSummary(text, hasClient, reply))
  {
    FixedMessagesHaveNoEdgeSpace();
  }

  /** The answer consults the model only when an index exists and a client
      is configured. */
  lemma AnswerGuards(question: string, store: Option<VectorStore>, hasClient: bool,
                     reply: Option<string>, other: Option<string>)
    ensures store.None? ==> AnswerQuestion(question, store, hasClient, reply) == NoStoreMessage
    ensures store.Some? && !hasClient ==> AnswerQuestion(question, store, hasClient, reply) == NotConfiguredMessage
    ensures store.None? || !hasClient ==>
              AnswerQuestion(question, store, hasClient, reply) == AnswerQuestion(question, store, hasClient, other)
    ensures store.Some? && hasClient ==>
              AnswerQuestion(question, store, hasClient, reply) == ReplyOr(reply, AnswerFailedMessage)
  {
  }

  lemma AnswerHasNoEdgeSpace(question: string, store: Option<VectorStore>, hasClient: bool,
                             reply: Option<string>)
    ensures NoEdgeSpace(AnswerQuestion(question, store, hasClient, reply))
  {
    FixedMessagesHaveNoEdgeSpace();
  }

  lemma FixedMessagesHaveNoEdgeSpace()
    ensures NoEdgeSpace(NoTextMessage) && NoEdgeSpace(NotConfiguredMessage)
    ensures NoEdgeSpace(SummaryFailedMessage) && NoEdgeSpace(NoStoreMessage)
    ensures NoEdgeSpace(AnswerFailedMessage)
  {
    assert NoTextMessage[0] == 'N' && NoTextMessage[|NoTextMessage| - 1] == '.';
    assert NotConfiguredMessage[0] == 'M' && NotConfiguredMessage[|NotConfiguredMessage| - 1] == '.';
    assert SummaryFailedMessage[0] == 'U' && SummaryFailedMessage[|SummaryFailedMessage| - 1] == '.';
    assert NoStoreMessage[0] == 'N' && NoStoreMessage[|NoStoreMessage| - 1] == '.';
    assert AnswerFailedMessage[0] == 'I' && AnswerFailedMessage[|AnswerFailedMessage| - 1] == '.';
  }
}
