/**
 * `PDFTextExtractor.extract`: every page whose extracted text is non-empty is
 * whitespace-normalised and read line by line. Leading heading-like lines, up to the
 * first body line, set the page's section (the last one wins); every later non-blank
 * line, heading-like or not, is body. A page gives at most one block: its body lines,
 * or, when every line was heading-like, its whole normalised text with no section.
 *
 * pdfplumber is an input: a document is the sequence of what `page.extract_text()`
 * returned for each page (`None` when the page has no text layer), and `None` in place
 * of the document stands for pdfplumber raising anywhere, which the extractor turns
 * into the empty list.
 */
module PdfExtractor {
  import opened Wrappers
  import opened Text
  import opened Schemas
  import opened Whitespace
  import opened BlockText

  // ---------------------------------------------------------------------------
  // The heading heuristic

  predicate IsUpperAscii(c: char) { 'A' <= c <= 'Z' }
  predicate IsLowerAscii(c: char) { 'a' <= c <= 'z' }
  predicate IsDigitAscii(c: char) { '0' <= c <= '9' }

  /** The length of the longest prefix of `s` whose characters all satisfy `inClass`. */
  function RunLength(s: string, inClass: char -> bool): (k: nat)
    ensures k <= |s|
    ensures forall i | 0 <= i < k :: inClass(s[i])
    ensures k < |s| ==> !inClass(s[k])
    decreases |s|
  {
    if s == [] || !inClass(s[0]) then 0 else 1 + RunLength(s[1..], inClass)
  }

  /** `str.isupper()`: some cased character, and none of them lower-case. */
  predicate IsUpperText(s: string) {
    && (exists i | 0 <= i < |s| :: IsUpperAscii(s[i]))
    && (forall i | 0 <= i < |s| :: !IsLowerAscii(s[i]))
  }

  /** `re.match(r'^\d+[\.\)]\s+', s)`: digits, then `.` or `)`, then whitespace. */
  predicate NumberedHeading(s: string) {
    var k := RunLength(s, IsDigitAscii);
    1 <= k && k + 1 < |s| && (s[k] == '.' || s[k] == ')') && IsSpace(s[k + 1])
  }

  /** `re.match(r'^[A-Z][a-z]+(\s+[A-Z][a-z]+)*$', s)`: capitalised words separated by whitespace. */
  predicate TitleWords(s: string)
    decreases |s|
  {
    && |s| >= 2 && IsUpperAscii(s[0])
    && var w := 1 + RunLength(s[1..], IsLowerAscii);
       && w >= 2
       && (w == |s| || var g := RunLength(s[w..], IsSpace); g >= 1 && TitleWords(s[w + g..]))
  }

  /** `is_heading`: shorter than 100 characters and upper-case, numbered or title-cased. */
  predicate IsHeading(s: string) {
    |s| < 100 && (IsUpperText(s) || NumberedHeading(s) || TitleWords(s))
  }

  // ---------------------------------------------------------------------------
  // One page

  /** `current_section` and `current_text` between two lines of a page. */
  datatype PageState = PageState(section: Option<string>, current: seq<string>)

  /** One round of the line loop. */
  function PageStep(st: PageState, line: string): PageState {
    var ls := Strip(line);
    if ls == [] then st
    else if IsHeading(ls) && st.current == [] then st.(section := Some(ls))
    else st.(current := st.current + [ls])
  }

  function PageScan(lines: seq<string>): PageState
    decreases |lines|
  {
    if lines == [] then PageState(None, []) else PageStep(PageScan(lines[..|lines| - 1]), lines[|lines| - 1])
  }

  /** The block a page whose normalised text is `t` gives, if any. */
  function NormalizedPageBlock(t: string, pageNum: int): Option<TextBlock> {
    var st := PageScan(Split(t, "\n"));
    if st.current != [] then Some(TextBlock(JoinLines(st.current), pageNum, st.section))
    else if t != [] then Some(TextBlock(t, pageNum, None))
    else None
  }

  /** The block page `pageNum` gives, if any, when `extract_text()` returned `text`. */
  function PageBlock(text: Option<string>, pageNum: int): Option<TextBlock> {
    if text.None? || text.value == [] then None
    else NormalizedPageBlock(NormalizeWhitespace(text.value), pageNum)
  }

  // ---------------------------------------------------------------------------
  // The document

  /** What each page gives, in page order; page numbers are 1-based positions. */
  function PageResults(pages: seq<Option<string>>): (r: seq<Option<TextBlock>>)
    ensures |r| == |pages|
  {
    PerPage(pages, PageBlock)
  }

  /** `f` applied to every page and its 1-based number, in page order. */
  function PerPage<T>(pages: seq<Option<string>>, f: (Option<string>, int) -> T): (r: seq<T>)
    ensures |r| == |pages|
    decreases |pages|
  {
    if pages == [] then []
    else
      var n := |pages| - 1;
      PerPage(pages[..n], f) + [f(pages[n], n + 1)]
  }

  /** The blocks of the pages that gave one, in page order. */
  function Collected(results: seq<Option<TextBlock>>): (r: seq<TextBlock>)
    ensures forall b | b in r :: Some(b) in results
    decreases |results|
  {
    if results == [] then []
    else
      var n := |results| - 1;
      var prev := Collected(results[..n]);
      assert forall b | b in prev :: Some(b) in results by {
        forall b | b in prev ensures Some(b) in results {
          var i :| 0 <= i < n && results[..n][i] == Some(b);
          assert results[i] == Some(b);
        }
      }
      if results[n].Some? then prev + [results[n].value] else prev
  }

  /** What `extract` returns; `None` is a document pdfplumber could not read. */
  function PdfExtract(pdf: Option<seq<Option<string>>>): seq<TextBlock> {
    match pdf
    case None => []
    case Some(pages) => Collected(PageResults(pages))
  }

  /** The line loop of one page. */
  method ScanPageLines(lines: seq<string>) returns (currentSection: Option<string>, currentText: seq<string>)
    ensures PageState(currentSection, currentText) == PageScan(lines)
  {
    currentSection := None;
    currentText := [];
    for i := 0 to |lines|
      invariant PageState(currentSection, currentText) == PageScan(lines[..i])
    {
      assert lines[..i + 1][..i] == lines[..i];
      var lineStripped := Strip(lines[i]);
      if lineStripped == [] {
        continue;
      }
      var isHeading := |lineStripped| < 100 && (IsUpperText(lineStripped) || NumberedHeading(lineStripped) || TitleWords(lineStripped));
      if isHeading && currentText == [] {
        currentSection := Some(lineStripped);
      } else {
        currentText := currentText + [lineStripped];
      }
    }
    assert lines[..|lines|] == lines;
  }

  /** The body of the page loop for one page. */
  method ExtractPage(text: Option<string>, pageNum: int) returns (block: Option<TextBlock>)
    ensures block == PageBlock(text, pageNum)
  {
    if text.None? || text.value == [] {
      return None;
    }
    var t := NormalizeWhitespace(text.value);
    var currentSection, currentText := ScanPageLines(Split(t, "\n"));
    if currentText != [] {
      block := Some(TextBlock(JoinLines(currentText), pageNum, currentSection));
    } else if t != [] {
      block := Some(TextBlock(t, pageNum, None));
    } else {
      block := None;
    }
  }

  method ExtractPdf(pdf: Option<seq<Option<string>>>) returns (textBlocks: seq<TextBlock>)
    ensures textBlocks == PdfExtract(pdf)
  {
    if pdf.None? {
      return [];
    }
    var pages := pdf.value;
    textBlocks := [];
    for i := 0 to |pages|
      invariant textBlocks == Collected(PageResults(pages[..i]))
    {
      ghost var results := PageResults(pages[..i + 1]);
      assert pages[..i + 1][..i] == pages[..i];
      assert results[..i] == PageResults(pages[..i]);
      var block := ExtractPage(pages[i], i + 1);
      if block.Some? {
        textBlocks := textBlocks + [block.value];
      }
    }
    assert pages[..|pages|] == pages;
  }

  // ---------------------------------------------------------------------------
  // Sections and bodies

  /** The stripped non-blank lines, in order. */
  function NonBlank(lines: seq<string>): seq<string>
    decreases |lines|
  {
    if lines == [] then []
    else
      var ls := Strip(lines[|lines| - 1]);
      if ls != [] then NonBlank(lines[..|lines| - 1]) + [ls] else NonBlank(lines[..|lines| - 1])
  }

  /** How many of the lines, from the first, are heading-like. */
  function LeadCount(ls: seq<string>): (k: nat)
    ensures k <= |ls|
    ensures forall i | 0 <= i < k :: IsHeading(ls[i])
    ensures k < |ls| ==> !IsHeading(ls[k])
    decreases |ls|
  {
    if ls == [] || !IsHeading(ls[0]) then 0 else 1 + LeadCount(ls[1..])
  }

  lemma LeadCountUnique(ls: seq<string>, k: nat)
    requires k <= |ls|
    requires forall i | 0 <= i < k :: IsHeading(ls[i])
    requires k < |ls| ==> !IsHeading(ls[k])
    ensures k == LeadCount(ls)
  {
  }

  /** The section and body a page scan ends with, in terms of its non-blank lines. */
  predicate ScanMatches(st: PageState, ls: seq<string>) {
    var k := LeadCount(ls);
    st.current == ls[k..] && st.section == (if k == 0 then None else Some(ls[k - 1]))
  }

  lemma NonBlankSnoc(prefix: seq<string>, line: string)
    ensures Strip(line) != [] ==> NonBlank(prefix + [line]) == NonBlank(prefix) + [Strip(line)]
    ensures Strip(line) == [] ==> NonBlank(prefix + [line]) == NonBlank(prefix)
  {
    assert (prefix + [line])[..|prefix|] == prefix;
  }

  lemma PageStepMatches(st: PageState, ls: seq<string>, line: string)
    requires ScanMatches(st, ls) && Strip(line) != []
    ensures ScanMatches(PageStep(st, line), ls + [Strip(line)])
  {
    var x := Strip(line);
    if IsHeading(x) && st.current == [] {
      HeadingStepMatches(st, ls, x);
    } else {
      BodyStepMatches(st, ls, x);
    }
  }

  /** A heading-like line before any body line becomes the section. */
  lemma HeadingStepMatches(st: PageState, ls: seq<string>, x: string)
    requires ScanMatches(st, ls) && IsHeading(x) && st.current == []
    ensures ScanMatches(st.(section := Some(x)), ls + [x])
  {
    var ls' := ls + [x];
    LeadCountUnique(ls', |ls'|);
  }

  /** Any other line is appended to the body. */
  lemma BodyStepMatches(st: PageState, ls: seq<string>, x: string)
    requires ScanMatches(st, ls) && !(IsHeading(x) && st.current == [])
    ensures ScanMatches(st.(current := st.current + [x]), ls + [x])
  {
    var k := LeadCount(ls);
    var ls' := ls + [x];
    if st.current == [] {
      LeadCountUnique(ls', |ls|);
      assert ls'[k..] == [x];
    } else {
      assert k < |ls|;
      assert forall i | 0 <= i <= k :: ls'[i] == ls[i];
      LeadCountUnique(ls', k);
      assert ls'[k..] == ls[k..] + [x];
    }
  }

  lemma {:induction false} PageScanMatches(lines: seq<string>)
    ensures ScanMatches(PageScan(lines), NonBlank(lines))
    decreases |lines|
  {
    if lines != [] {
      var n := |lines| - 1;
      PageScanMatches(lines[..n]);
      NonBlankSnoc(lines[..n], lines[n]);
      assert lines[..n] + [lines[n]] == lines;
      if Strip(lines[n]) != [] {
        PageStepMatches(PageScan(lines[..n]), NonBlank(lines[..n]), lines[n]);
      }
    }
  }

  lemma NonBlankClean(lines: seq<string>)
    ensures CleanLines(NonBlank(lines))
    decreases |lines|
  {
    if lines != [] {
      NonBlankClean(lines[..|lines| - 1]);
    }
  }

  lemma NormalizedPageBlockContent(t: string, pageNum: int)
    ensures var ls := NonBlank(Split(t, "\n"));
      var k := LeadCount(ls);
      NormalizedPageBlock(t, pageNum)
        == if k < |ls| then Some(TextBlock(JoinLines(ls[k..]), pageNum, if k == 0 then None else Some(ls[k - 1])))
           else if t != [] then Some(TextBlock(t, pageNum, None))
           else None
  {
    PageScanMatches(Split(t, "\n"));
  }

  lemma NormalizedPageBlockIff(t: string, pageNum: int)
    ensures NormalizedPageBlock(t, pageNum).Some? <==> t != []
  {
    if t == [] {
      var lines := Split(t, "\n");
      assert Join([""], "\n") == "";
      SplitJoin([""], '\n');
      assert lines == [""];
      assert lines[..0] == [];
      assert PageScan(lines) == PageStep(PageScan([]), "");
    }
  }

  lemma NormalizedPageBlockClean(t: string, pageNum: int)
    requires IsStripped(t) && NormalizedPageBlock(t, pageNum).Some?
    ensures var b := NormalizedPageBlock(t, pageNum).value;
      b.page == pageNum && b.text != [] && IsStripped(b.text)
  {
    var lines := Split(t, "\n");
    PageScanMatches(lines);
    NonBlankClean(lines);
    var ls := NonBlank(lines);
    var k := LeadCount(ls);
    if k < |ls| {
      assert forall l | l in ls[k..] :: l in ls;
      JoinCleanLines(ls[k..]);
    }
  }

  /**
   * A page with text gives exactly one block. Its body is the page's stripped non-blank
   * lines from the first that is not heading-like on, joined by newlines, under the
   * last heading-like line before it (no section if there was none); when every line
   * is heading-like the block is the whole normalised text with no section.
   */
  lemma PageBlockContent(raw: string, pageNum: int)
    requires HasText(raw)
    ensures var t := NormalizeWhitespace(raw);
      var ls := NonBlank(Split(t, "\n"));
      var k := LeadCount(ls);
      PageBlock(Some(raw), pageNum)
        == if k < |ls| then Some(TextBlock(JoinLines(ls[k..]), pageNum, if k == 0 then None else Some(ls[k - 1])))
           else Some(TextBlock(t, pageNum, None))
  {
    NormalizedEmptyIff(raw);
    NormalizedPageBlockContent(NormalizeWhitespace(raw), pageNum);
  }

  /** A page gives a block exactly when its text has a visible character. */
  lemma PageBlockIff(text: Option<string>, pageNum: int)
    ensures PageBlock(text, pageNum).Some? <==> text.Some? && HasText(text.value)
  {
    if text.Some? && text.value != [] {
      NormalizedEmptyIff(text.value);
      NormalizedPageBlockIff(NormalizeWhitespace(text.value), pageNum);
    } else if text.Some? {
      assert !HasText(text.value);
    }
  }

  /** A block is on the page it was made for, and its text is non-empty with nothing to strip. */
  lemma PageBlockClean(text: Option<string>, pageNum: int)
    requires PageBlock(text, pageNum).Some?
    ensures var b := PageBlock(text, pageNum).value;
      b.page == pageNum && b.text != [] && IsStripped(b.text)
  {
    NormalizeWhitespaceShape(text.value);
    NormalizedPageBlockClean(NormalizeWhitespace(text.value), pageNum);
  }

  /** Whatever page `i + 1` gives is on page `i + 1`. */
  predicate Numbered(results: seq<Option<TextBlock>>) {
    forall i | 0 <= i < |results| && results[i].Some? :: results[i].value.page == i + 1
  }

  lemma NumberedPrefix(results: seq<Option<TextBlock>>, n: nat)
    requires Numbered(results) && n <= |results|
    ensures Numbered(results[..n])
  {
  }

  lemma CollectedSnoc(results: seq<Option<TextBlock>>)
    requires results != []
    ensures var n := |results| - 1;
      Collected(results)
        == if results[n].Some? then Collected(results[..n]) + [results[n].value] else Collected(results[..n])
  {
  }

  lemma {:induction false} CollectedIff(results: seq<Option<TextBlock>>, p: int)
    requires Numbered(results)
    ensures (exists b | b in Collected(results) :: b.page == p) <==> 1 <= p <= |results| && results[p - 1].Some?
    decreases |results|
  {
    if results != [] {
      var n := |results| - 1;
      NumberedPrefix(results, n);
      CollectedIff(results[..n], p);
      CollectedSnoc(results);
      if 1 <= p <= n {
        assert results[..n][p - 1] == results[p - 1];
      }
      if p == n + 1 && results[n].Some? {
        assert results[n].value in Collected(results);
      }
    }
  }

  lemma {:induction false} CollectedIncreasing(results: seq<Option<TextBlock>>)
    requires Numbered(results)
    ensures PagesIncreasing(Collected(results))
    ensures forall b | b in Collected(results) :: 1 <= b.page <= |results|
    decreases |results|
  {
    if results != [] {
      var n := |results| - 1;
      var prev := Collected(results[..n]);
      NumberedPrefix(results, n);
      CollectedIncreasing(results[..n]);
      CollectedSnoc(results);
      var r := Collected(results);
      if results[n].Some? {
        assert r == prev + [results[n].value];
        forall i, j | 0 <= i < j < |r| ensures r[i].page < r[j].page {
          assert r[i] == prev[i];
          if j < |prev| {
            assert r[j] == prev[j];
          } else {
            assert prev[i] in prev;
          }
        }
      }
    }
  }

  lemma PageResultsNumbered(pages: seq<Option<string>>)
    ensures Numbered(PageResults(pages))
  {
    var r := PageResults(pages);
    forall i | 0 <= i < |r| && r[i].Some? ensures r[i].value.page == i + 1 {
      PageResultAt(pages, i);
      PageBlockClean(pages[i], i + 1);
    }
  }

  /** Page `i + 1` gives a block exactly when its text has a visible character. */
  predicate ResultsMatchText(results: seq<Option<TextBlock>>, pages: seq<Option<string>>) {
    && |results| == |pages|
    && forall i | 0 <= i < |pages| :: results[i].Some? <==> pages[i].Some? && HasText(pages[i].value)
  }

  lemma PageResultsMatchText(pages: seq<Option<string>>)
    ensures ResultsMatchText(PageResults(pages), pages)
  {
    var r := PageResults(pages);
    forall i | 0 <= i < |pages| ensures r[i].Some? <==> pages[i].Some? && HasText(pages[i].value) {
      PageResultAt(pages, i);
      PageBlockIff(pages[i], i + 1);
    }
  }

  lemma CollectedMatchesText(results: seq<Option<TextBlock>>, pages: seq<Option<string>>, p: int)
    requires Numbered(results) && ResultsMatchText(results, pages)
    ensures (exists b | b in Collected(results) :: b.page == p)
      <==> 1 <= p <= |pages| && pages[p - 1].Some? && HasText(pages[p - 1].value)
  {
    CollectedIff(results, p);
  }

  /** Page `p` has a block exactly when `extract_text()` gave it a visible character. */
  lemma PdfBlocksIff(pages: seq<Option<string>>, p: int)
    ensures (exists b | b in PdfExtract(Some(pages)) :: b.page == p)
      <==> 1 <= p <= |pages| && pages[p - 1].Some? && HasText(pages[p - 1].value)
  {
    PageResultsNumbered(pages);
    PageResultsMatchText(pages);
    CollectedMatchesText(PageResults(pages), pages, p);
  }

  lemma CollectedAt(results: seq<Option<TextBlock>>, b: TextBlock)
    requires Numbered(results) && b in Collected(results)
    ensures 1 <= b.page <= |results| && results[b.page - 1] == Some(b)
  {
    var i :| 0 <= i < |results| && results[i] == Some(b);
  }

  /** Blocks come in strictly increasing page order, so no page has two. */
  lemma PdfBlocksIncreasing(pages: seq<Option<string>>)
    ensures PagesIncreasing(PdfExtract(Some(pages)))
  {
    PageResultsNumbered(pages);
    CollectedIncreasing(PageResults(pages));
  }

  /** Each block is the one its own page gives. */
  lemma PdfBlocksFromPages(pages: seq<Option<string>>, b: TextBlock)
    requires b in PdfExtract(Some(pages))
    ensures 1 <= b.page <= |pages| && PageBlock(pages[b.page - 1], b.page) == Some(b)
  {
    var results := PageResults(pages);
    PageResultsNumbered(pages);
    CollectedAt(results, b);
    PageResultAt(pages, b.page - 1);
  }

  /** Position `i` holds what page `i + 1` gives. */
  lemma {:induction false} PerPageAt<T>(pages: seq<Option<string>>, f: (Option<string>, int) -> T, i: int)
    requires 0 <= i < |pages|
    ensures PerPage(pages, f)[i] == f(pages[i], i + 1)
    decreases |pages|
  {
    var n := |pages| - 1;
    if i < n {
      PerPageAt(pages[..n], f, i);
      assert pages[..n][i] == pages[i];
    }
  }

  lemma PageResultAt(pages: seq<Option<string>>, i: int)
    requires 0 <= i < |pages|
    ensures PageResults(pages)[i] == PageBlock(pages[i], i + 1)
  {
    PerPageAt(pages, PageBlock, i);
  }
}
