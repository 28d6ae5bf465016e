/**
 * `DOCXTextExtractor.extract`: the document's paragraphs are read in order, each
 * stripped; empty ones are skipped. A paragraph whose style name contains `Heading`
 * closes the block collected so far (if any), becomes the current section and always
 * advances the page counter, which stands in for the page numbers a DOCX file lacks;
 * every other paragraph is collected. The collected paragraphs left at the end make
 * the last block.
 *
 * python-docx is an input: a document is its sequence of paragraphs, and `None` in
 * place of the document stands for `Document(...)` or the loop raising, which the
 * extractor turns into the empty list.
 */
module DocxExtractor {
  import opened Wrappers
  import opened Text
  import opened Schemas
  import opened BlockText

  /** A paragraph as python-docx reports it: its text and, if it has a style, the style's name. */
  datatype Paragraph = Paragraph(text: string, style: Option<string>)

  /** `para.style and "Heading" in para.style.name`. */
  predicate IsHeadingStyle(style: Option<string>) {
    style.Some? && IndexOf(style.value, "Heading").Some?
  }

  /** `text_blocks`, `current_section`, `current_text` and `current_page` between two paragraphs. */
  datatype DocxState = DocxState(blocks: seq<TextBlock>, section: Option<string>, current: seq<string>, page: int)

  /** The block the collected paragraphs make. */
  function Pending(st: DocxState): TextBlock {
    TextBlock(JoinLines(st.current), st.page, st.section)
  }

  /** The blocks with the collected paragraphs, if any, saved as one more. */
  function Flush(st: DocxState): seq<TextBlock> {
    if st.current != [] then st.blocks + [Pending(st)] else st.blocks
  }

  /** One round of the paragraph loop. */
  function DocxStep(st: DocxState, para: Paragraph): DocxState {
    var text := Strip(para.text);
    if text == [] then st
    else if IsHeadingStyle(para.style) then DocxState(Flush(st), Some(text), [], st.page + 1)
    else st.(current := st.current + [text])
  }

  function DocxScan(paras: seq<Paragraph>): DocxState
    decreases |paras|
  {
    if paras == [] then DocxState([], None, [], 1)
    else DocxStep(DocxScan(paras[..|paras| - 1]), paras[|paras| - 1])
  }

  /** What `extract` returns; `None` is a document python-docx could not read. */
  function DocxExtract(doc: Option<seq<Paragraph>>): seq<TextBlock> {
    match doc
    case None => []
    case Some(paras) => Flush(DocxScan(paras))
  }

  method ExtractDocx(doc: Option<seq<Paragraph>>) returns (textBlocks: seq<TextBlock>)
    ensures textBlocks == DocxExtract(doc)
  {
    if doc.None? {
      return [];
    }
    var paras := doc.value;
    textBlocks := [];
    var currentPage := 1;
    var currentSection: Option<string> := None;
    var currentText: seq<string> := [];
    for i := 0 to |paras|
      invariant DocxState(textBlocks, currentSection, currentText, currentPage) == DocxScan(paras[..i])
    {
      assert paras[..i + 1][..i] == paras[..i];
      var text := Strip(paras[i].text);
      if text == [] {
        continue;
      }
      if paras[i].style.Some? && IndexOf(paras[i].style.value, "Heading").Some? {
        if currentText != [] {
          textBlocks := textBlocks + [TextBlock(JoinLines(currentText), currentPage, currentSection)];
          currentText := [];
        }
        currentSection := Some(text);
        currentPage := currentPage + 1;
      } else {
        currentText := currentText + [text];
      }
    }
    assert paras[..|paras|] == paras;
    if currentText != [] {
      textBlocks := textBlocks + [TextBlock(JoinLines(currentText), currentPage, currentSection)];
    }
  }

  // ---------------------------------------------------------------------------
  // Pages and sections

  /** The stripped texts of the paragraphs with text that have a heading style, in order. */
  function Headings(paras: seq<Paragraph>): seq<string>
    decreases |paras|
  {
    if paras == [] then []
    else
      var p := paras[|paras| - 1];
      Headings(paras[..|paras| - 1]) + (if Strip(p.text) != [] && IsHeadingStyle(p.style) then [Strip(p.text)] else [])
  }

  /** The most recent heading's stripped text, or none before the first heading. */
  function LastHeading(paras: seq<Paragraph>): Option<string> {
    var hs := Headings(paras);
    if hs == [] then None else Some(hs[|hs| - 1])
  }

  /**
   * A block's page is at least 1 and below `next`, its text is non-empty with nothing
   * to strip, and its section is none on page 1 and otherwise heading number
   * `page - 1` of `hs`: the heading whose page the block is on.
   */
  predicate GoodBlock(hs: seq<string>, b: TextBlock, next: int) {
    && 1 <= b.page < next
    && b.text != [] && IsStripped(b.text)
    && (b.page == 1 ==> b.section.None?)
    && (b.page > 1 ==> b.page - 2 < |hs| && b.section == Some(hs[b.page - 2]))
  }

  predicate DocxShape(st: DocxState, paras: seq<Paragraph>) {
    && st.page == 1 + |Headings(paras)|
    && st.section == LastHeading(paras)
    && PagesIncreasing(st.blocks)
    && (forall b | b in st.blocks :: GoodBlock(Headings(paras), b, st.page))
    && CleanLines(st.current)
  }

  lemma HeadingsSnoc(paras: seq<Paragraph>, p: Paragraph)
    ensures Headings(paras + [p]) == Headings(paras) + (if Strip(p.text) != [] && IsHeadingStyle(p.style) then [Strip(p.text)] else [])
  {
    assert (paras + [p])[..|paras|] == paras;
  }

  lemma GoodBlocksGrow(hs: seq<string>, hs': seq<string>, blocks: seq<TextBlock>, next: int, next': int)
    requires (forall b | b in blocks :: GoodBlock(hs, b, next)) && next <= next' && hs <= hs'
    ensures forall b | b in blocks :: GoodBlock(hs', b, next')
  {
    forall b | b in blocks ensures GoodBlock(hs', b, next') {
      if b.page > 1 {
        assert hs'[b.page - 2] == hs[b.page - 2];
      }
    }
  }

  /** Saving the collected paragraphs keeps the blocks in shape, below the next page. */
  lemma FlushShape(st: DocxState, paras: seq<Paragraph>, next: int)
    requires DocxShape(st, paras) && st.page < next
    ensures PagesIncreasing(Flush(st))
    ensures forall b | b in Flush(st) :: GoodBlock(Headings(paras), b, next)
  {
    var hs := Headings(paras);
    assert forall b | b in st.blocks :: GoodBlock(hs, b, next);
    if st.current != [] {
      JoinCleanLines(st.current);
      IncreasingSnoc(st.blocks, Pending(st));
      assert GoodBlock(hs, Pending(st), next);
    }
  }

  /**
   * A heading paragraph with text saves the collected paragraphs, if any, as a block on
   * the current page under the current section; its stripped text becomes the section,
   * the page advances by one and nothing is left collected.
   */
  lemma HeadingStepShape(st: DocxState, paras: seq<Paragraph>, p: Paragraph, whole: seq<Paragraph>)
    requires DocxShape(st, paras) && Strip(p.text) != [] && IsHeadingStyle(p.style) && whole == paras + [p]
    ensures DocxShape(DocxStep(st, p), whole)
    ensures DocxStep(st, p).section == Some(Strip(p.text)) == LastHeading(whole)
    ensures DocxStep(st, p).page == st.page + 1 && DocxStep(st, p).current == []
    ensures DocxStep(st, p).blocks == st.blocks + (if st.current != [] then [TextBlock(JoinLines(st.current), st.page, st.section)] else [])
  {
    HeadingsSnoc(paras, p);
    FlushShape(st, paras, st.page + 1);
    GoodBlocksGrow(Headings(paras), Headings(whole), Flush(st), st.page + 1, st.page + 1);
  }

  /** Any other paragraph changes neither the section nor the page, and keeps the shape. */
  lemma BodyStepShape(st: DocxState, paras: seq<Paragraph>, p: Paragraph, whole: seq<Paragraph>)
    requires DocxShape(st, paras) && !(Strip(p.text) != [] && IsHeadingStyle(p.style)) && whole == paras + [p]
    ensures DocxShape(DocxStep(st, p), whole)
    ensures DocxStep(st, p).section == st.section && DocxStep(st, p).page == st.page && DocxStep(st, p).blocks == st.blocks
  {
    var text := Strip(p.text);
    HeadingsSnoc(paras, p);
    assert Headings(whole) == Headings(paras);
    if text != [] {
      assert forall l | l in st.current + [text] :: l in st.current || l == text;
    }
  }

  /**
   * After the loop the page is one plus the number of headings, the section is the most
   * recent heading (none before the first), and every saved block is in shape.
   */
  lemma {:induction false} DocxScanShape(paras: seq<Paragraph>)
    ensures DocxShape(DocxScan(paras), paras)
    decreases |paras|
  {
    if paras != [] {
      var n := |paras| - 1;
      var prev := DocxScan(paras[..n]);
      DocxScanShape(paras[..n]);
      var p := paras[n];
      assert paras[..n] + [p] == paras;
      if Strip(p.text) != [] && IsHeadingStyle(p.style) {
        HeadingStepShape(prev, paras[..n], p, paras);
      } else {
        BodyStepShape(prev, paras[..n], p, paras);
      }
    }
  }

  /**
   * Pages strictly increase from 1 and never pass one more than the number of heading
   * paragraphs; every text is non-empty with nothing to strip; a block on page 1 has no
   * section, and a block on page `k > 1` has the stripped text of the `(k - 1)`-th
   * heading, the most recent heading before its paragraphs.
   */
  lemma DocxBlocksShape(paras: seq<Paragraph>)
    ensures PagesIncreasing(DocxExtract(Some(paras)))
    ensures var hs := Headings(paras);
      forall b | b in DocxExtract(Some(paras)) ::
        && 1 <= b.page <= 1 + |hs|
        && b.text != [] && IsStripped(b.text)
        && (b.page == 1 ==> b.section.None?)
        && (b.page > 1 ==> b.section == Some(hs[b.page - 2]))
  {
    var st := DocxScan(paras);
    DocxScanShape(paras);
    FlushShape(st, paras, st.page + 1);
  }

  // ---------------------------------------------------------------------------
  // Every body paragraph lands in exactly one block, in order

  /** The stripped texts of the non-empty paragraphs that are not headings, in order. */
  function BodyTexts(paras: seq<Paragraph>): seq<string>
    decreases |paras|
  {
    if paras == [] then []
    else
      var p := paras[|paras| - 1];
      var text := Strip(p.text);
      if text != [] && !IsHeadingStyle(p.style) then BodyTexts(paras[..|paras| - 1]) + [text]
      else BodyTexts(paras[..|paras| - 1])
  }

  lemma BodyTextsSnoc(paras: seq<Paragraph>, p: Paragraph)
    ensures Strip(p.text) != [] && !IsHeadingStyle(p.style) ==> BodyTexts(paras + [p]) == BodyTexts(paras) + [Strip(p.text)]
    ensures Strip(p.text) == [] || IsHeadingStyle(p.style) ==> BodyTexts(paras + [p]) == BodyTexts(paras)
  {
    assert (paras + [p])[..|paras|] == paras;
  }

  predicate TextsInvariant(st: DocxState, paras: seq<Paragraph>) {
    NoNewlines(st.current) && BlockLines(st.blocks) + st.current == BodyTexts(paras)
  }

  lemma FlushLines(st: DocxState)
    requires NoNewlines(st.current)
    ensures BlockLines(Flush(st)) == BlockLines(st.blocks) + st.current
  {
    if st.current != [] {
      BlockLinesSnoc(st.blocks, Pending(st));
      SplitJoin(st.current, '\n');
    }
  }

  lemma DocxStepTexts(st: DocxState, paras: seq<Paragraph>, p: Paragraph)
    requires TextsInvariant(st, paras) && '\n' !in p.text
    ensures TextsInvariant(DocxStep(st, p), paras + [p])
  {
    var text := Strip(p.text);
    BodyTextsSnoc(paras, p);
    StrippedHasNoNewline(p.text);
    if text != [] {
      if IsHeadingStyle(p.style) {
        FlushLines(st);
      } else {
        assert forall l | l in st.current + [text] :: l in st.current || l == text;
      }
    }
  }

  lemma {:induction false} DocxScanTexts(paras: seq<Paragraph>)
    requires forall p | p in paras :: '\n' !in p.text
    ensures TextsInvariant(DocxScan(paras), paras)
    decreases |paras|
  {
    if paras != [] {
      var n := |paras| - 1;
      assert forall p | p in paras[..n] :: p in paras;
      assert paras[n] in paras;
      DocxScanTexts(paras[..n]);
      DocxStepTexts(DocxScan(paras[..n]), paras[..n], paras[n]);
      assert paras[..n] + [paras[n]] == paras;
    }
  }

  /**
   * Nothing is lost or repeated: for paragraphs without line breaks, splitting the
   * blocks' texts back at `"\n"` gives exactly the non-empty, non-heading paragraphs,
   * stripped, in order.
   */
  lemma DocxKeepsBodyTexts(paras: seq<Paragraph>)
    requires forall p | p in paras :: '\n' !in p.text
    ensures BlockLines(DocxExtract(Some(paras))) == BodyTexts(paras)
  {
    DocxScanTexts(paras);
    FlushLines(DocxScan(paras));
  }
}
