/**
 * `MDTextExtractor.extract`: the whitespace-normalised file text is read line by line.
 * A line starting with `#` closes the block collected so far (if any), moving to the
 * next page, and becomes the current section; every other non-blank line is collected.
 * With no block at all the whole text is one page-1 block. The file read is an input:
 * `None` stands for a read or decode that raised, which yields the empty list.
 */
module MdExtractor {
  import opened Wrappers
  import opened Text
  import opened Schemas
  import opened Whitespace
  import opened BlockText

  /**
   * `re.sub(r'^#+\s+', '', line)`: the leading `#`s and the whitespace after them are
   * removed, but only when whitespace does follow them; otherwise the line is kept whole.
   */
  function HeadingText(line: string): string {
    var rest := DropLeading(line, '#');
    if |rest| < |line| && rest != [] && IsSpace(rest[0]) then LStrip(rest) else line
  }

  /** `text_blocks`, `current_section`, `current_text` and `page` between two lines. */
  datatype MdState = MdState(blocks: seq<TextBlock>, section: Option<string>, current: seq<string>, page: int)

  const MdStart := MdState([], None, [], 1)

  /** The block the collected lines make. */
  function Pending(st: MdState): TextBlock {
    TextBlock(JoinLines(st.current), st.page, st.section)
  }

  /** One round of the line loop. */
  function MdStep(st: MdState, line: string): MdState {
    var ls := Strip(line);
    if StartsWith(ls, "#") then
      if st.current != [] then MdState(st.blocks + [Pending(st)], Some(HeadingText(ls)), [], st.page + 1)
      else st.(section := Some(HeadingText(ls)))
    else if ls != [] then st.(current := st.current + [ls])
    else st
  }

  function MdScan(lines: seq<string>): MdState
    decreases |lines|
  {
    if lines == [] then MdStart else MdStep(MdScan(lines[..|lines| - 1]), lines[|lines| - 1])
  }

  /** The blocks after the final flush. */
  function Flush(st: MdState): seq<TextBlock> {
    if st.current != [] then st.blocks + [Pending(st)] else st.blocks
  }

  /** What `extract` returns for a file whose read gave `file`. */
  function MdExtract(file: Option<string>): seq<TextBlock> {
    match file
    case None => []
    case Some(raw) =>
      var text := NormalizeWhitespace(raw);
      var blocks := Flush(MdScan(Split(text, "\n")));
      if blocks != [] then blocks else [TextBlock(text, 1, None)]
  }

  /** The line loop and the final flush. */
  method CollectMdLines(lines: seq<string>) returns (textBlocks: seq<TextBlock>)
    ensures textBlocks == Flush(MdScan(lines))
  {
    textBlocks := [];
    var currentSection: Option<string> := None;
    var currentText: seq<string> := [];
    var page := 1;
    for i := 0 to |lines|
      invariant MdState(textBlocks, currentSection, currentText, page) == MdScan(lines[..i])
    {
      assert lines[..i + 1][..i] == lines[..i];
      var lineStripped := Strip(lines[i]);
      if StartsWith(lineStripped, "#") {
        if currentText != [] {
          textBlocks := textBlocks + [TextBlock(JoinLines(currentText), page, currentSection)];
          currentText := [];
          page := page + 1;
        }
        currentSection := Some(HeadingText(lineStripped));
      } else {
        if lineStripped != [] {
          currentText := currentText + [lineStripped];
        }
      }
    }
    assert lines[..|lines|] == lines;
    if currentText != [] {
      textBlocks := textBlocks + [TextBlock(JoinLines(currentText), page, currentSection)];
    }
  }

  method ExtractMd(file: Option<string>) returns (blocks: seq<TextBlock>)
    ensures blocks == MdExtract(file)
  {
    if file.None? {
      return [];
    }
    var text := NormalizeWhitespace(file.value);
    blocks := CollectMdLines(Split(text, "\n"));
    if blocks == [] {
      blocks := [TextBlock(text, 1, None)];
    }
  }

  // ---------------------------------------------------------------------------
  // Pages, texts and sections

  /** Block `i` is on page `i + 1`; its text is non-empty with nothing to strip; only the first may lack a section. */
  predicate BlocksShape(blocks: seq<TextBlock>) {
    forall i | 0 <= i < |blocks| ::
      && blocks[i].page == i + 1
      && blocks[i].text != [] && IsStripped(blocks[i].text)
      && (i > 0 ==> blocks[i].section.Some?)
  }

  predicate StateShape(st: MdState) {
    && BlocksShape(st.blocks)
    && st.page == |st.blocks| + 1
    && CleanLines(st.current)
    && (st.page > 1 ==> st.section.Some?)
  }

  lemma PendingShape(st: MdState)
    requires StateShape(st) && st.current != []
    ensures BlocksShape(st.blocks + [Pending(st)])
  {
    JoinCleanLines(st.current);
    var r := st.blocks + [Pending(st)];
    forall i | 0 <= i < |r|
      ensures r[i].page == i + 1 && r[i].text != [] && IsStripped(r[i].text) && (i > 0 ==> r[i].section.Some?)
    {
      if i < |st.blocks| {
        assert r[i] == st.blocks[i];
      }
    }
  }

  lemma MdStepShape(st: MdState, line: string)
    requires StateShape(st)
    ensures StateShape(MdStep(st, line))
  {
    var ls := Strip(line);
    if StartsWith(ls, "#") {
      if st.current != [] {
        PendingShape(st);
      }
    } else if ls != [] {
      assert forall l | l in st.current + [ls] :: l in st.current || l == ls;
    }
  }

  lemma {:induction false} MdScanShape(lines: seq<string>)
    ensures StateShape(MdScan(lines))
    decreases |lines|
  {
    if lines != [] {
      MdScanShape(lines[..|lines| - 1]);
      MdStepShape(MdScan(lines[..|lines| - 1]), lines[|lines| - 1]);
    }
  }

  /**
   * Unless the fallback applies, block `i` is on page `i + 1` (pages are exactly
   * 1, 2, …, n), its text is non-empty with nothing to strip, and every block but the
   * first carries a section.
   */
  lemma MdBlocksShape(lines: seq<string>)
    ensures BlocksShape(Flush(MdScan(lines)))
  {
    MdScanShape(lines);
    var st := MdScan(lines);
    if st.current != [] {
      PendingShape(st);
    }
  }

  // ---------------------------------------------------------------------------
  // Every body line lands in exactly one block, in order

  /** The stripped lines that are neither blank nor headings, in order. */
  function BodyLines(lines: seq<string>): seq<string>
    decreases |lines|
  {
    if lines == [] then []
    else
      var ls := Strip(lines[|lines| - 1]);
      if !StartsWith(ls, "#") && ls != [] then BodyLines(lines[..|lines| - 1]) + [ls] else BodyLines(lines[..|lines| - 1])
  }

  lemma PendingLines(st: MdState)
    requires st.current != [] && NoNewlines(st.current)
    ensures Split(Pending(st).text, "\n") == st.current
  {
    SplitJoin(st.current, '\n');
  }

  lemma BodyLinesSnoc(prefix: seq<string>, line: string)
    ensures !StartsWith(Strip(line), "#") && Strip(line) != [] ==> BodyLines(prefix + [line]) == BodyLines(prefix) + [Strip(line)]
    ensures StartsWith(Strip(line), "#") || Strip(line) == [] ==> BodyLines(prefix + [line]) == BodyLines(prefix)
  {
    assert (prefix + [line])[..|prefix|] == prefix;
  }

  predicate LinesInvariant(st: MdState, prefix: seq<string>) {
    NoNewlines(st.current) && BlockLines(st.blocks) + st.current == BodyLines(prefix)
  }

  lemma MdStepLines(st: MdState, prefix: seq<string>, line: string)
    requires LinesInvariant(st, prefix) && '\n' !in line
    ensures LinesInvariant(MdStep(st, line), prefix + [line])
  {
    var ls := Strip(line);
    BodyLinesSnoc(prefix, line);
    StrippedHasNoNewline(line);
    if StartsWith(ls, "#") {
      if st.current != [] {
        BlockLinesSnoc(st.blocks, Pending(st));
        PendingLines(st);
      }
    } else if ls != [] {
      assert forall l | l in st.current + [ls] :: l in st.current || l == ls;
    }
  }

  lemma {:induction false} MdScanLines(lines: seq<string>)
    requires NoNewlines(lines)
    ensures LinesInvariant(MdScan(lines), lines)
    decreases |lines|
  {
    if lines != [] {
      var n := |lines| - 1;
      assert forall l | l in lines[..n] :: l in lines;
      assert lines[n] in lines;
      MdScanLines(lines[..n]);
      MdStepLines(MdScan(lines[..n]), lines[..n], lines[n]);
      assert lines[..n] + [lines[n]] == lines;
    }
  }

  /**
   * Nothing is lost or repeated: splitting the blocks' texts back at `"\n"` gives exactly
   * the non-blank, non-heading lines, stripped, in order.
   */
  lemma MdKeepsBodyLines(lines: seq<string>)
    requires NoNewlines(lines)
    ensures BlockLines(Flush(MdScan(lines))) == BodyLines(lines)
  {
    MdScanLines(lines);
    var st := MdScan(lines);
    if st.current != [] {
      BlockLinesSnoc(st.blocks, Pending(st));
      PendingLines(st);
    }
  }

  // ---------------------------------------------------------------------------
  // The heading text

  /** Dropping a leading run of `c` drops it whatever follows. */
  lemma {:induction false} DropLeadingRun(run: string, s: string, c: char)
    requires forall i | 0 <= i < |run| :: run[i] == c
    ensures DropLeading(run + s, c) == DropLeading(s, c)
    decreases |run|
  {
    if run != [] {
      assert (run + s)[0] == c && (run + s)[1..] == run[1..] + s;
      DropLeadingRun(run[1..], s, c);
      assert DropLeading(run + s, c) == DropLeading(run[1..] + s, c);
    } else {
      assert run + s == s;
    }
  }

  /** Stripping a leading run of whitespace strips it whatever follows. */
  lemma {:induction false} LStripRun(run: string, s: string)
    requires forall i | 0 <= i < |run| :: IsSpace(run[i])
    ensures LStrip(run + s) == LStrip(s)
    decreases |run|
  {
    if run != [] {
      assert IsSpace((run + s)[0]) && (run + s)[1..] == run[1..] + s;
      LStripRun(run[1..], s);
      assert LStrip(run + s) == LStrip(run[1..] + s);
    } else {
      assert run + s == s;
    }
  }

  /**
   * A line made of a run of `#`s, a run of whitespace and a rest that does not start
   * with whitespace has the rest as its heading text.
   */
  lemma HeadingTextMatch(hashes: string, space: string, rest: string)
    requires hashes != [] && forall i | 0 <= i < |hashes| :: hashes[i] == '#'
    requires space != [] && forall i | 0 <= i < |space| :: IsSpace(space[i])
    requires rest == [] || !IsSpace(rest[0])
    ensures HeadingText(hashes + space + rest) == rest
  {
    assert hashes + space + rest == hashes + (space + rest);
    DropLeadingRun(hashes, space + rest, '#');
    assert (space + rest)[0] == space[0];
    assert DropLeading(space + rest, '#') == space + rest;
    LStripRun(space, rest);
  }

  /**
   * The heading text differs from the line exactly when the line starts with one or more
   * `#`s followed by a whitespace character; otherwise the line is kept whole.
   */
  lemma HeadingTextChanges(line: string)
    ensures HeadingText(line) != line
      <==> exists k | 0 < k < |line| :: IsSpace(line[k]) && forall j | 0 <= j < k :: line[j] == '#'
  {
    var rest := DropLeading(line, '#');
    var k0 := |line| - |rest|;
    DropLeadingSlice(line, '#');
    if exists k | 0 < k < |line| :: IsSpace(line[k]) && forall j | 0 <= j < k :: line[j] == '#' {
      var k :| 0 < k < |line| && IsSpace(line[k]) && forall j | 0 <= j < k :: line[j] == '#';
      assert rest != [] && rest[0] == line[k];
      assert |LStrip(rest)| < |line|;
    }
  }

  // ---------------------------------------------------------------------------
  // The section of every body line

  /** The section the `#` lines among `lines` leave: the last one's heading text, or none. */
  function LastMdHeading(lines: seq<string>): Option<string>
    decreases |lines|
  {
    if lines == [] then None
    else
      var ls := Strip(lines[|lines| - 1]);
      if StartsWith(ls, "#") then Some(HeadingText(ls)) else LastMdHeading(lines[..|lines| - 1])
  }

  /** Each body line, stripped, with the section of the `#` lines before it, in order. */
  function SectionedBody(lines: seq<string>): seq<(string, Option<string>)>
    decreases |lines|
  {
    if lines == [] then []
    else
      var prefix := lines[..|lines| - 1];
      var ls := Strip(lines[|lines| - 1]);
      if !StartsWith(ls, "#") && ls != [] then SectionedBody(prefix) + [(ls, LastMdHeading(prefix))] else SectionedBody(prefix)
  }

  /** Every line of `ls` with the section `section`. */
  function Tag(ls: seq<string>, section: Option<string>): (r: seq<(string, Option<string>)>)
    ensures |r| == |ls| && forall i | 0 <= i < |ls| :: r[i] == (ls[i], section)
  {
    seq(|ls|, i requires 0 <= i < |ls| => (ls[i], section))
  }

  /** Every line of every block, with that block's section, in order. */
  function Tagged(blocks: seq<TextBlock>): seq<(string, Option<string>)>
    decreases |blocks|
  {
    if blocks == [] then []
    else
      var b := blocks[|blocks| - 1];
      Tagged(blocks[..|blocks| - 1]) + Tag(Split(b.text, "\n"), b.section)
  }

  predicate SectionInvariant(st: MdState, prefix: seq<string>) {
    && NoNewlines(st.current)
    && st.section == LastMdHeading(prefix)
    && Tagged(st.blocks) + Tag(st.current, st.section) == SectionedBody(prefix)
  }

  lemma TaggedSnoc(blocks: seq<TextBlock>, b: TextBlock)
    ensures Tagged(blocks + [b]) == Tagged(blocks) + Tag(Split(b.text, "\n"), b.section)
  {
    assert (blocks + [b])[..|blocks|] == blocks;
  }

  lemma PrefixOfSnoc(prefix: seq<string>, line: string)
    ensures (prefix + [line])[..|prefix|] == prefix && (prefix + [line])[|prefix|] == line
  {
  }

  /** Saving the collected lines moves them, with their section, into the blocks. */
  lemma PendingTagged(st: MdState)
    requires st.current != [] && NoNewlines(st.current)
    ensures Tagged(st.blocks + [Pending(st)]) == Tagged(st.blocks) + Tag(st.current, st.section)
  {
    TaggedSnoc(st.blocks, Pending(st));
    PendingLines(st);
  }

  /** Lines without `\n` stay so when the last is set apart. */
  lemma NoNewlinesSnoc(lines: seq<string>)
    requires lines != [] && NoNewlines(lines)
    ensures NoNewlines(lines[..|lines| - 1]) && '\n' !in lines[|lines| - 1]
  {
    assert lines[|lines| - 1] in lines;
    assert forall l | l in lines[..|lines| - 1] :: l in lines;
  }

  lemma MdStepSections(st: MdState, prefix: seq<string>, line: string, whole: seq<string>)
    requires SectionInvariant(st, prefix) && '\n' !in line
    requires whole == prefix + [line]
    ensures SectionInvariant(MdStep(st, line), whole)
  {
    var ls := Strip(line);
    PrefixOfSnoc(prefix, line);
    StrippedHasNoNewline(line);
    if StartsWith(ls, "#") {
      assert SectionedBody(whole) == SectionedBody(prefix);
      if st.current != [] {
        PendingTagged(st);
      }
      assert Tag([], Some(HeadingText(ls))) == [];
    } else if ls != [] {
      assert SectionedBody(whole) == SectionedBody(prefix) + [(ls, st.section)];
      assert Tag(st.current + [ls], st.section) == Tag(st.current, st.section) + [(ls, st.section)];
      assert forall l | l in st.current + [ls] :: l in st.current || l == ls;
    }
  }

  lemma {:induction false} MdScanSections(lines: seq<string>)
    requires NoNewlines(lines)
    ensures SectionInvariant(MdScan(lines), lines)
    decreases |lines|
  {
    if lines == [] {
      assert Tag([], None) == [];
    } else {
      var n := |lines| - 1;
      var prefix := lines[..n];
      NoNewlinesSnoc(lines);
      MdScanSections(prefix);
      MdStepSections(MdScan(prefix), prefix, lines[n], lines);
    }
  }

  /**
   * Every block's section is the one its lines were written under: reading the blocks
   * line by line, each line paired with its block's section, gives exactly the body
   * lines, each paired with the heading text of the last `#` line before it (none before
   * the first `#` line).
   */
  lemma MdBlockSections(lines: seq<string>)
    requires NoNewlines(lines)
    ensures Tagged(Flush(MdScan(lines))) == SectionedBody(lines)
  {
    MdScanSections(lines);
    var st := MdScan(lines);
    if st.current != [] {
      PendingTagged(st);
    } else {
      assert Tag([], st.section) == [];
    }
  }

  /** The same for a whole file, whenever the fallback block is not used. */
  lemma MdExtractSections(raw: string)
    ensures var lines := Split(NormalizeWhitespace(raw), "\n");
      Flush(MdScan(lines)) != [] ==> Tagged(MdExtract(Some(raw))) == SectionedBody(lines)
  {
    var lines := Split(NormalizeWhitespace(raw), "\n");
    SplitLinesHaveNoNewline(NormalizeWhitespace(raw));
    MdBlockSections(lines);
  }

  /** The lines of the normalised file text, as the extractor cuts them, qualify. */
  lemma SplitLinesQualify(text: string)
    ensures NoNewlines(Split(text, "\n"))
  {
    SplitLinesHaveNoNewline(text);
  }
}
