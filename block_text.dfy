/**
 * What the extractors share: a block's text is its collected lines or paragraphs,
 * each stripped and non-empty, joined by a newline.
 */
module BlockText {
  import opened Text
  import opened Schemas

  /** Every collected line is non-empty and has nothing to strip. */
  predicate CleanLines(ls: seq<string>) {
    forall l | l in ls :: l != [] && IsStripped(l)
  }

  /** `'\n'.join(ls)`. */
  function JoinLines(ls: seq<string>): string {
    Join(ls, "\n")
  }

  lemma {:induction false} JoinEnds(ls: seq<string>)
    requires ls != [] && ls[0] != [] && ls[|ls| - 1] != []
    requires forall l | l in ls :: l != []
    ensures JoinLines(ls) != []
    ensures JoinLines(ls)[0] == ls[0][0]
    ensures JoinLines(ls)[|JoinLines(ls)| - 1] == ls[|ls| - 1][|ls[|ls| - 1]| - 1]
    decreases |ls|
  {
    assert ls[0] in ls && ls[|ls| - 1] in ls;
    if |ls| > 1 {
      assert forall l | l in ls[1..] :: l in ls;
      assert ls[1..][0] in ls;
      JoinEnds(ls[1..]);
      var rest := JoinLines(ls[1..]);
      assert JoinLines(ls) == ls[0] + "\n" + rest;
    }
  }

  /** Joining clean lines gives non-empty text with nothing to strip. */
  lemma JoinCleanLines(ls: seq<string>)
    requires ls != [] && CleanLines(ls)
    ensures JoinLines(ls) != [] && IsStripped(JoinLines(ls))
  {
    assert ls[0] in ls && ls[|ls| - 1] in ls;
    JoinEnds(ls);
  }

  /** Block pages strictly increase along the list, so no page has two blocks. */
  predicate PagesIncreasing(blocks: seq<TextBlock>) {
    forall i, j | 0 <= i < j < |blocks| :: blocks[i].page < blocks[j].page
  }

  /** A block placed after blocks on earlier pages keeps the order. */
  lemma IncreasingSnoc(blocks: seq<TextBlock>, b: TextBlock)
    requires PagesIncreasing(blocks) && forall x | x in blocks :: x.page < b.page
    ensures PagesIncreasing(blocks + [b])
  {
    var r := blocks + [b];
    forall i, j | 0 <= i < j < |r| ensures r[i].page < r[j].page {
      assert r[i] == blocks[i] && r[i] in blocks;
      if j < |blocks| {
        assert r[j] == blocks[j];
      }
    }
  }

  /** The lines of each block, split back at `"\n"`, one after the other. */
  function BlockLines(blocks: seq<TextBlock>): seq<string>
    decreases |blocks|
  {
    if blocks == [] then [] else BlockLines(blocks[..|blocks| - 1]) + Split(blocks[|blocks| - 1].text, "\n")
  }

  predicate NoNewlines(ls: seq<string>) {
    forall l | l in ls :: '\n' !in l
  }

  lemma BlockLinesSnoc(blocks: seq<TextBlock>, b: TextBlock)
    ensures BlockLines(blocks + [b]) == BlockLines(blocks) + Split(b.text, "\n")
  {
    assert (blocks + [b])[..|blocks|] == blocks;
  }

  lemma StrippedHasNoNewline(line: string)
    requires '\n' !in line
    ensures '\n' !in Strip(line)
  {
    StripSlice(line);
    var r := Strip(line);
    var lo := |line| - |LStrip(line)|;
    assert forall k | 0 <= k < |r| :: r[k] == line[lo + k];
  }
}
