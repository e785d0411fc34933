/** The text serialisation of `PDFProcessor.extract_text_from_pdf`
    (project-root/chatbot/backend/app.py:45-57). PyPDF2 itself is not part of
    this model: its outcome is given as `None` when opening or reading the
    document raised, or as the list of per-page results of
    `page.extract_text()`, each of which may be `None`. */
module Extraction {
  import opened Wrappers
  import opened Whitespace
  import opened Decimal

  /** `page.extract_text() or ""`. */
  function PageText(t: Option<string>): string {
    t.GetOr("")
  }

  /** The block appended for the page numbered `k` (counting from 1). */
  function PageBlock(k: nat, t: Option<string>): string {
    "\n--- Page " + NatToDecimal(k) + " ---\n" + PageText(t) + "\n"
  }

  /** The text the loop has built after the given pages, appending one block
      per page at the end, as `text += ...` does. */
  function Serialize(pages: seq<Option<string>>): string
    decreases |pages|
  {
    if pages == [] then ""
    else Serialize(pages[..|pages| - 1]) + PageBlock(|pages|, pages[|pages| - 1])
  }

  /** Reference reading of the document shape: the block of page `first`,
      followed by the blocks of the remaining pages, numbered on from there. */
  function BlocksFrom(pages: seq<Option<string>>, first: nat): string
    decreases |pages|
  {
    if pages == [] then ""
    else PageBlock(first, pages[0]) + BlocksFrom(pages[1..], first + 1)
  }

  /** The result of `extract_text_from_pdf`: any exception gives `""`. */
  function ExtractedText(parsed: Option<seq<Option<string>>>): string {
    match parsed
    case None => ""
    case Some(pages) => Serialize(pages)
  }

  /** The loop of `extract_text_from_pdf`, growing `text` page by page. */
  method ExtractText(parsed: Option<seq<Option<string>>>) returns (text: string)
    ensures text == ExtractedText(parsed)
  {
    if parsed.None? {
      return "";
    }
    var pages := parsed.value;
    text := "";
    for i := 0 to |pages|
      invariant text == Serialize(pages[..i])
    {
      assert pages[..i + 1][..i] == pages[..i];
      text := text + PageBlock(i + 1, pages[i]);
    }
    assert pages[..|pages|] == pages;
  }

  lemma {:induction false} BlocksFromSnoc(pages: seq<Option<string>>, x: Option<string>, first: nat)
    ensures BlocksFrom(pages + [x], first) == BlocksFrom(pages, first) + PageBlock(first + |pages|, x)
    decreases |pages|
  {
    if pages == [] {
      assert BlocksFrom([x], first) == PageBlock(first, x) + BlocksFrom([], first + 1);
    } else {
      assert (pages + [x])[1..] == pages[1..] + [x];
      BlocksFromSnoc(pages[1..], x, first + 1);
    }
  }

  /** The extracted text is the in-order concatenation of
      `"\n--- Page k ---\n" + text_k + "\n"` for k = 1..n. */
  lemma {:induction false} SerializeIsInOrderBlocks(pages: seq<Option<string>>)
    ensures Serialize(pages) == BlocksFrom(pages, 1)
    decreases |pages|
  {
    if pages != [] {
      var init := pages[..|pages| - 1];
      SerializeIsInOrderBlocks(init);
      BlocksFromSnoc(init, pages[|pages| - 1], 1);
      assert init + [pages[|pages| - 1]] == pages;
    }
  }

  /** The second character of every page block is the `-` of its marker. */
  lemma PageBlockDash(k: nat, t: Option<string>)
    ensures |PageBlock(k, t)| > 1 && PageBlock(k, t)[1] == '-'
  {
    var marker := "\n--- Page ";
    var rest := NatToDecimal(k) + " ---\n" + PageText(t) + "\n";
    assert PageBlock(k, t) == marker + rest;
  }

  /** A document with at least one page never extracts to whitespace only:
      every page contributes its marker. */
  lemma ExtractedNotBlank(pages: seq<Option<string>>)
    requires |pages| > 0
    ensures !IsBlank(Serialize(pages))
  {
    var prefix := Serialize(pages[..|pages| - 1]);
    var block := PageBlock(|pages|, pages[|pages| - 1]);
    PageBlockDash(|pages|, pages[|pages| - 1]);
    assert Serialize(pages)[|prefix| + 1] == block[1];
  }

  /** The "could not extract text" rejection happens exactly when reading the
      document failed or the document has no pages. */
  lemma ExtractedBlankIff(parsed: Option<seq<Option<string>>>)
    ensures Strip(ExtractedText(parsed)) == [] <==> (parsed.None? || parsed.value == [])
  {
    StripEmptyIffBlank(ExtractedText(parsed));
    if parsed.Some? && parsed.value != [] {
      ExtractedNotBlank(parsed.value);
    }
  }

  /** The text of the pages alone, without the page markers. */
  function PagesText(pages: seq<Option<string>>): string
    decreases |pages|
  {
    if pages == [] then ""
    else PagesText(pages[..|pages| - 1]) + PageText(pages[|pages| - 1])
  }

  /** The rejection the extraction error message describes ("corrupted or
      contain only images"): the document could not be read, or no page
      yields any non-whitespace text. */
  predicate NoExtractableText(parsed: Option<seq<Option<string>>>) {
    parsed.None? || IsBlank(PagesText(parsed.value))
  }

  lemma {:induction false} PagesTextBlankIff(pages: seq<Option<string>>)
    ensures IsBlank(PagesText(pages)) <==> forall i :: 0 <= i < |pages| ==> IsBlank(PageText(pages[i]))
    decreases |pages|
  {
    if pages != [] {
      var n := |pages| - 1;
      var init := pages[..n];
      PagesTextBlankIff(init);
      BlankAppend(PagesText(init), PageText(pages[n]));
      assert forall i :: 0 <= i < n ==> init[i] == pages[i];
    }
  }

  /** The intended check rejects exactly the unreadable documents and those
      whose every page yields only whitespace, and it rejects everything the
      check on the marked-up text rejects. */
  lemma NoExtractableTextIff(parsed: Option<seq<Option<string>>>)
    ensures NoExtractableText(parsed)
            <==> parsed.None? || forall i :: 0 <= i < |parsed.value| ==> IsBlank(PageText(parsed.value[i]))
    ensures Strip(ExtractedText(parsed)) == [] ==> NoExtractableText(parsed)
  {
    ExtractedBlankIff(parsed);
    if parsed.Some? {
      PagesTextBlankIff(parsed.value);
    }
  }

  /** As written, a readable document whose pages all yield no text passes
      the "could not extract text" check, because the page markers alone
      are not whitespace. */
  lemma MarkersHideTextlessPages(pages: seq<Option<string>>)
    requires pages != []
    requires forall i :: 0 <= i < |pages| ==> IsBlank(PageText(pages[i]))
    ensures NoExtractableText(Some(pages))
    ensures Strip(ExtractedText(Some(pages))) != []
  {
    PagesTextBlankIff(pages);
    ExtractedBlankIff(Some(pages));
  }
}
