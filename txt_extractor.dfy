/**
 * `TXTTextExtractor.extract`: the whitespace-normalised file text is cut at `"\n\n"`
 * into paragraphs; each paragraph with text becomes a block whose page is the
 * paragraph's 1-based position. With no such paragraph the whole text is one page-1
 * block. The file read is an input: `None` stands for a read or decode that raised,
 * which the extractor turns into the empty list.
 */
module TxtExtractor {
  import opened Wrappers
  import opened Text
  import opened Schemas
  import opened Whitespace
  import opened BlockText

  /** The block paragraph `k` (0-based) of `paras` becomes. */
  predicate FromParagraph(paras: seq<string>, b: TextBlock) {
    && 1 <= b.page <= |paras|
    && b.text == Strip(paras[b.page - 1])
    && b.text != []
    && b.section == None
  }

  /** The blocks of the paragraph loop after its first `n` rounds, in paragraph order. */
  function Blocks(paras: seq<string>, n: nat): (r: seq<TextBlock>)
    requires n <= |paras|
    ensures |r| <= n
  {
    if n == 0 then []
    else
      var t := Strip(paras[n - 1]);
      if t != [] then Blocks(paras, n - 1) + [TextBlock(t, n, None)] else Blocks(paras, n - 1)
  }

  /** The blocks of the whole paragraph loop. */
  function ParagraphBlocks(paras: seq<string>): seq<TextBlock> {
    Blocks(paras, |paras|)
  }

  /** The blocks of an already normalised text. */
  function TxtBlocksOf(text: string): seq<TextBlock> {
    var blocks := ParagraphBlocks(Split(text, "\n\n"));
    if blocks != [] then blocks else [TextBlock(text, 1, None)]
  }

  /** What `extract` returns for a file whose read gave `file`. */
  function TxtExtract(file: Option<string>): seq<TextBlock> {
    match file
    case None => []
    case Some(raw) => TxtBlocksOf(NormalizeWhitespace(raw))
  }

  /** The `enumerate(paragraphs, start=1)` loop. */
  method CollectParagraphs(paragraphs: seq<string>) returns (blocks: seq<TextBlock>)
    ensures blocks == ParagraphBlocks(paragraphs)
  {
    blocks := [];
    for idx := 0 to |paragraphs|
      invariant blocks == Blocks(paragraphs, idx)
    {
      var para := Strip(paragraphs[idx]);
      if para != [] {
        blocks := blocks + [TextBlock(para, idx + 1, None)];
      }
    }
  }

  method ExtractTxt(file: Option<string>) returns (blocks: seq<TextBlock>)
    ensures blocks == TxtExtract(file)
  {
    if file.None? {
      return [];
    }
    var text := NormalizeWhitespace(file.value);
    blocks := CollectParagraphs(Split(text, "\n\n"));
    if blocks == [] {
      blocks := [TextBlock(text, 1, None)];
    }
  }

  /** Round `n` of the loop appends the block of paragraph `n` when that paragraph has text. */
  lemma BlocksStep(paras: seq<string>, n: nat)
    requires 0 < n <= |paras|
    ensures Blocks(paras, n)
      == Blocks(paras, n - 1) + if Strip(paras[n - 1]) != [] then [TextBlock(Strip(paras[n - 1]), n, None)] else []
  {
  }

  lemma InAppend<T>(a: seq<T>, b: seq<T>, x: T)
    requires x in a
    ensures x in a + b
  {
  }

  /** Every block of the first `n` rounds is the stripped text of the paragraph its page names. */
  lemma {:induction false} BlocksFrom(paras: seq<string>, n: nat)
    requires n <= |paras|
    ensures forall b | b in Blocks(paras, n) :: FromParagraph(paras, b) && b.page <= n
    decreases n
  {
    if n > 0 {
      BlocksFrom(paras, n - 1);
      BlocksStep(paras, n);
      forall b | b in Blocks(paras, n) ensures FromParagraph(paras, b) && b.page <= n {
        if b !in Blocks(paras, n - 1) {
          assert b == TextBlock(Strip(paras[n - 1]), n, None);
        }
      }
    }
  }

  /** The first `n` rounds give blocks on pages 1 to `n` only. */
  lemma {:induction false} BlocksPages(paras: seq<string>, n: nat)
    requires n <= |paras|
    ensures forall b | b in Blocks(paras, n) :: 1 <= b.page <= n
    decreases n
  {
    if n > 0 {
      BlocksPages(paras, n - 1);
      BlocksStep(paras, n);
    }
  }

  /** A paragraph with text among the first `n` gives a block on its own page. */
  lemma {:induction false} BlockAt(paras: seq<string>, n: nat, k: int)
    requires n <= |paras|
    requires 1 <= k <= n && Strip(paras[k - 1]) != []
    ensures TextBlock(Strip(paras[k - 1]), k, None) in Blocks(paras, n)
    decreases n
  {
    BlocksStep(paras, n);
    var last := if Strip(paras[n - 1]) != [] then [TextBlock(Strip(paras[n - 1]), n, None)] else [];
    if k < n {
      BlockAt(paras, n - 1, k);
      InAppend(Blocks(paras, n - 1), last, TextBlock(Strip(paras[k - 1]), k, None));
    } else {
      assert last == [TextBlock(Strip(paras[k - 1]), k, None)];
    }
  }

  /** A block of the whole loop is on the page of a paragraph with text. */
  lemma ParagraphBlockPage(paras: seq<string>, b: TextBlock)
    requires b in ParagraphBlocks(paras)
    ensures 1 <= b.page <= |paras| && Strip(paras[b.page - 1]) != []
  {
    BlocksFrom(paras, |paras|);
  }

  /** A paragraph gives a block exactly when it has text; blank paragraphs still use up a page number. */
  lemma ParagraphBlocksIff(paras: seq<string>, k: int)
    ensures (exists b | b in ParagraphBlocks(paras) :: b.page == k) <==> 1 <= k <= |paras| && Strip(paras[k - 1]) != []
  {
    if exists b | b in ParagraphBlocks(paras) :: b.page == k {
      var b :| b in ParagraphBlocks(paras) && b.page == k;
      ParagraphBlockPage(paras, b);
    }
    if 1 <= k <= |paras| && Strip(paras[k - 1]) != [] {
      BlockAt(paras, |paras|, k);
    }
  }

  /** Blocks come in strictly increasing page order. */
  lemma {:induction false} BlocksIncreasing(paras: seq<string>, n: nat)
    requires n <= |paras|
    ensures PagesIncreasing(Blocks(paras, n))
    decreases n
  {
    if n > 0 {
      BlocksIncreasing(paras, n - 1);
      BlocksIncreasingStep(paras, n);
    }
  }

  lemma BlocksIncreasingStep(paras: seq<string>, n: nat)
    requires 0 < n <= |paras| && PagesIncreasing(Blocks(paras, n - 1))
    ensures PagesIncreasing(Blocks(paras, n))
  {
    var prev := Blocks(paras, n - 1);
    BlocksPages(paras, n - 1);
    BlocksStep(paras, n);
    var t := Strip(paras[n - 1]);
    if t != [] {
      IncreasingSnoc(prev, TextBlock(t, n, None));
    }
  }

  lemma {:induction false} JoinHasText(parts: seq<string>, sep: string)
    requires NonSpace(sep) == []
    requires HasText(Join(parts, sep))
    ensures exists p | p in parts :: HasText(p)
    decreases |parts|
  {
    HasTextIffNonSpace(Join(parts, sep));
    if |parts| == 1 {
      assert parts[0] in parts;
    } else {
      NonSpaceAppend(parts[0] + sep, Join(parts[1..], sep));
      NonSpaceAppend(parts[0], sep);
      HasTextIffNonSpace(parts[0]);
      if HasText(parts[0]) {
        assert parts[0] in parts;
      } else {
        HasTextIffNonSpace(Join(parts[1..], sep));
        JoinHasText(parts[1..], sep);
        var p :| p in parts[1..] && HasText(p);
        assert p in parts;
      }
    }
  }

  /** A text with any visible character has a paragraph with text. */
  lemma TextHasParagraph(text: string)
    requires HasText(text)
    ensures ParagraphBlocks(Split(text, "\n\n")) != []
  {
    var paras := Split(text, "\n\n");
    HasTextIffNonSpace(text);
    assert NonSpace("\n\n") == [];
    JoinHasText(paras, "\n\n");
    ParasHaveText(paras);
  }

  lemma ParasHaveText(paras: seq<string>)
    requires exists p | p in paras :: HasText(p)
    ensures ParagraphBlocks(paras) != []
  {
    var p :| p in paras && HasText(p);
    var k :| 0 <= k < |paras| && paras[k] == p;
    StripKeepsText(p);
    BlockAt(paras, |paras|, k + 1);
  }

  lemma NormalizedHasText(raw: string)
    requires HasText(raw)
    ensures HasText(NormalizeWhitespace(raw))
  {
    NormalizeWhitespaceKeepsText(raw);
    HasTextIffNonSpace(raw);
    HasTextIffNonSpace(NormalizeWhitespace(raw));
  }

  /**
   * A file with any visible character yields one block per paragraph with text, each
   * holding that stripped paragraph, on strictly increasing pages, with no section.
   */
  lemma TxtBlocksFromParagraphs(raw: string)
    requires HasText(raw)
    ensures var paras := Split(NormalizeWhitespace(raw), "\n\n");
      && TxtExtract(Some(raw)) == ParagraphBlocks(paras)
      && PagesIncreasing(TxtExtract(Some(raw)))
      && forall b | b in TxtExtract(Some(raw)) :: FromParagraph(paras, b)
  {
    var text := NormalizeWhitespace(raw);
    NormalizedHasText(raw);
    TextHasParagraph(text);
    BlocksFrom(Split(text, "\n\n"), |Split(text, "\n\n")|);
    BlocksIncreasing(Split(text, "\n\n"), |Split(text, "\n\n")|);
  }

  /** A file with no visible character yields the single fallback block with empty text on page 1. */
  lemma TxtBlankFile(raw: string)
    requires !HasText(raw)
    ensures TxtExtract(Some(raw)) == [TextBlock("", 1, None)]
  {
    NormalizedEmptyIff(raw);
    EmptyTextBlocks();
  }

  lemma EmptyTextBlocks()
    ensures TxtBlocksOf("") == [TextBlock("", 1, None)]
  {
    var paras := Split("", "\n\n");
    assert paras == [""] by {
      assert Join([""], "\n\n") == "";
    }
  }
}
