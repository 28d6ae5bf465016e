/**
 * `BaseTextExtractor.normalize_whitespace`, the clean-up every extractor applies to
 * text it has read: runs of spaces become one space, runs of three or more newlines
 * become two, every line loses its trailing whitespace, and the whole is stripped.
 *
 * The result has no run of two spaces, no line ending in whitespace and nothing to
 * strip at either end, and it keeps every visible character in order. It may still
 * hold three newlines in a row: the newline collapse runs before the lines are
 * right-stripped, so `"a\n \n \nb"` comes out as `"a\n\n\nb"`.
 */
module Whitespace {
  import opened Text

  /** No two neighbouring characters of `s` are both the plain space. */
  predicate NoDoubleSpace(s: string) {
    forall i | 0 <= i < |s| - 1 :: !(s[i] == ' ' && s[i + 1] == ' ')
  }

  /** Every line of `s` that a newline ends is empty or ends in a visible character. */
  predicate LinesTrimmed(s: string) {
    forall i | 0 < i < |s| && s[i] == '\n' :: s[i - 1] == '\n' || !IsSpace(s[i - 1])
  }

  /** `s` with its leading run of `c` removed. */
  function DropLeading(s: string, c: char): (r: string)
    ensures |r| <= |s|
    ensures r != [] ==> r[0] != c
    decreases |s|
  {
    if s != [] && s[0] == c then DropLeading(s[1..], c) else s
  }

  /** What is dropped is a run of `c`, and what is kept is the rest of `s`. */
  lemma {:induction false} DropLeadingSlice(s: string, c: char)
    ensures var r := DropLeading(s, c);
      && r == s[|s| - |r|..]
      && forall i | 0 <= i < |s| - |r| :: s[i] == c
    decreases |s|
  {
    if s != [] && s[0] == c {
      DropLeadingSlice(s[1..], c);
      var r := DropLeading(s, c);
      forall i | 1 <= i < |s| - |r| ensures s[i] == c {
        assert s[1..][i - 1] == s[i];
      }
    }
  }

  /** `re.sub(r' +', ' ', s)`. */
  function CollapseSpaces(s: string): (r: string)
    ensures s != [] ==> r != [] && r[0] == s[0]
    decreases |s|
  {
    if s == [] then []
    else if s[0] == ' ' then [' '] + CollapseSpaces(DropLeading(s, ' '))
    else [s[0]] + CollapseSpaces(s[1..])
  }

  /** `re.sub(r'\n{3,}', '\n\n', s)`. */
  function CollapseNewlines(s: string): (r: string)
    ensures s != [] ==> r != [] && r[0] == s[0]
    decreases |s|
  {
    if s == [] then []
    else if s[0] == '\n' then
      var rest := DropLeading(s, '\n');
      var k := |s| - |rest|;
      (if k >= 3 then "\n\n" else s[..k]) + CollapseNewlines(rest)
    else [s[0]] + CollapseNewlines(s[1..])
  }

  /** `[line.rstrip() for line in lines]`. */
  function RStripAll(lines: seq<string>): (r: seq<string>)
    ensures |r| == |lines|
    decreases |lines|
  {
    if lines == [] then [] else [RStrip(lines[0])] + RStripAll(lines[1..])
  }

  /** `'\n'.join(line.rstrip() for line in s.split('\n'))`. */
  function RStripLines(s: string): string {
    Join(RStripAll(Split(s, "\n")), "\n")
  }

  /** `normalize_whitespace(text)`. */
  function NormalizeWhitespace(s: string): string {
    Strip(RStripLines(CollapseNewlines(CollapseSpaces(s))))
  }

  // ---------------------------------------------------------------------------
  // No run of two spaces

  lemma SliceNoDouble(s: string, i: nat, j: nat)
    requires i <= j <= |s| && NoDoubleSpace(s)
    ensures NoDoubleSpace(s[i..j])
  {
    var t := s[i..j];
    assert forall k | 0 <= k < |t| :: t[k] == s[i + k];
  }

  lemma AppendNoDouble(a: string, b: string)
    requires NoDoubleSpace(a) && NoDoubleSpace(b)
    requires a != [] && b != [] ==> a[|a| - 1] != ' ' || b[0] != ' '
    ensures NoDoubleSpace(a + b)
  {
    var ab := a + b;
    forall i | 0 <= i < |ab| - 1 ensures !(ab[i] == ' ' && ab[i + 1] == ' ') {
      if i + 1 < |a| {
        assert ab[i] == a[i] && ab[i + 1] == a[i + 1];
      } else if i >= |a| {
        assert ab[i] == b[i - |a|] && ab[i + 1] == b[i + 1 - |a|];
      }
    }
  }

  lemma AppendNoDoubleParts(a: string, b: string)
    requires NoDoubleSpace(a + b)
    ensures NoDoubleSpace(a) && NoDoubleSpace(b)
  {
    assert a == (a + b)[..|a|];
    assert b == (a + b)[|a|..];
    SliceNoDouble(a + b, 0, |a|);
    SliceNoDouble(a + b, |a|, |a + b|);
  }

  lemma {:induction false} CollapseSpacesNoDouble(s: string)
    ensures NoDoubleSpace(CollapseSpaces(s))
    decreases |s|
  {
    if s != [] {
      if s[0] == ' ' {
        var rest := DropLeading(s, ' ');
        CollapseSpacesNoDouble(rest);
        AppendNoDouble([' '], CollapseSpaces(rest));
      } else {
        CollapseSpacesNoDouble(s[1..]);
        AppendNoDouble([s[0]], CollapseSpaces(s[1..]));
      }
    }
  }

  lemma {:induction false} CollapseNewlinesNoDouble(s: string)
    requires NoDoubleSpace(s)
    ensures NoDoubleSpace(CollapseNewlines(s))
    decreases |s|
  {
    if s != [] {
      if s[0] == '\n' {
        var rest := DropLeading(s, '\n');
        DropLeadingSlice(s, '\n');
        var k := |s| - |rest|;
        var head := if k >= 3 then "\n\n" else s[..k];
        assert forall i | 0 <= i < |head| :: head[i] == '\n';
        SliceNoDouble(s, k, |s|);
        CollapseNewlinesNoDouble(rest);
        AppendNoDouble(head, CollapseNewlines(rest));
      } else {
        SliceNoDouble(s, 1, |s|);
        CollapseNewlinesNoDouble(s[1..]);
        AppendNoDouble([s[0]], CollapseNewlines(s[1..]));
      }
    }
  }

  lemma {:induction false} JoinNoDouble(parts: seq<string>)
    requires forall p | p in parts :: NoDoubleSpace(p)
    ensures NoDoubleSpace(Join(parts, "\n"))
    decreases |parts|
  {
    if |parts| > 1 {
      assert forall p | p in parts[1..] :: p in parts;
      JoinNoDouble(parts[1..]);
      AppendNoDouble(parts[0], "\n");
      assert parts[0] in parts;
      AppendNoDouble(parts[0] + "\n", Join(parts[1..], "\n"));
    } else if |parts| == 1 {
      assert parts[0] in parts;
    }
  }

  lemma {:induction false} JoinNoDoubleParts(parts: seq<string>)
    requires NoDoubleSpace(Join(parts, "\n"))
    ensures forall p | p in parts :: NoDoubleSpace(p)
    decreases |parts|
  {
    if |parts| > 1 {
      AppendNoDoubleParts(parts[0] + "\n", Join(parts[1..], "\n"));
      AppendNoDoubleParts(parts[0], "\n");
      JoinNoDoubleParts(parts[1..]);
      assert forall p | p in parts :: p == parts[0] || p in parts[1..];
    }
  }

  lemma {:induction false} RStripAllNoDouble(lines: seq<string>)
    requires forall p | p in lines :: NoDoubleSpace(p)
    ensures forall p | p in RStripAll(lines) :: NoDoubleSpace(p)
    decreases |lines|
  {
    if lines != [] {
      assert lines[0] in lines;
      RStripSlice(lines[0]);
      SliceNoDouble(lines[0], 0, |RStrip(lines[0])|);
      assert forall p | p in lines[1..] :: p in lines;
      RStripAllNoDouble(lines[1..]);
    }
  }

  lemma RStripLinesNoDouble(s: string)
    requires NoDoubleSpace(s)
    ensures NoDoubleSpace(RStripLines(s))
  {
    var lines := Split(s, "\n");
    JoinNoDoubleParts(lines);
    RStripAllNoDouble(lines);
    JoinNoDouble(RStripAll(lines));
  }

  // ---------------------------------------------------------------------------
  // No line ends in whitespace

  /** The right-stripped lines hold no newline and end in a visible character unless empty. */
  predicate TrimmedLines(lines: seq<string>) {
    forall p | p in lines :: '\n' !in p && (p != [] ==> !IsSpace(p[|p| - 1]))
  }

  lemma {:induction false} RStripAllTrimmed(lines: seq<string>)
    requires forall p | p in lines :: '\n' !in p
    ensures TrimmedLines(RStripAll(lines))
    decreases |lines|
  {
    if lines != [] {
      var q := RStrip(lines[0]);
      assert lines[0] in lines;
      RStripSlice(lines[0]);
      assert forall k | 0 <= k < |q| :: q[k] == lines[0][k];
      assert '\n' !in q;
      assert forall p | p in lines[1..] :: p in lines;
      RStripAllTrimmed(lines[1..]);
    }
  }

  lemma {:induction false} JoinTrimmed(lines: seq<string>)
    requires TrimmedLines(lines)
    ensures LinesTrimmed(Join(lines, "\n"))
    decreases |lines|
  {
    if |lines| == 1 {
      assert lines[0] in lines;
    } else if |lines| > 1 {
      var q := lines[0];
      assert q in lines;
      assert forall p | p in lines[1..] :: p in lines;
      JoinTrimmed(lines[1..]);
      var rest := Join(lines[1..], "\n");
      var r := Join(lines, "\n");
      assert r == q + "\n" + rest;
      forall i | 0 < i < |r| && r[i] == '\n' ensures r[i - 1] == '\n' || !IsSpace(r[i - 1]) {
        if i > |q| + 1 {
          assert r[i] == rest[i - |q| - 1] && r[i - 1] == rest[i - |q| - 2];
        } else if i == |q| + 1 {
          assert r[i - 1] == '\n';
        } else {
          assert i == |q|;
          assert r[i - 1] == q[|q| - 1];
        }
      }
    }
  }

  lemma SplitLinesHaveNoNewline(s: string)
    ensures forall p | p in Split(s, "\n") :: '\n' !in p
  {
    forall p | p in Split(s, "\n") ensures '\n' !in p {
      FreeChar(p, '\n');
    }
  }

  lemma RStripLinesTrimmed(s: string)
    ensures LinesTrimmed(RStripLines(s))
  {
    SplitLinesHaveNoNewline(s);
    RStripAllTrimmed(Split(s, "\n"));
    JoinTrimmed(RStripAll(Split(s, "\n")));
  }

  lemma SliceTrimmed(s: string, i: nat, j: nat)
    requires i <= j <= |s| && LinesTrimmed(s)
    ensures LinesTrimmed(s[i..j])
  {
    var t := s[i..j];
    forall k | 0 < k < |t| && t[k] == '\n' ensures t[k - 1] == '\n' || !IsSpace(t[k - 1]) {
      assert t[k] == s[i + k] && t[k - 1] == s[i + k - 1];
    }
  }

  lemma StripKeepsShape(c: string)
    requires NoDoubleSpace(c) && LinesTrimmed(c)
    ensures IsStripped(Strip(c)) && NoDoubleSpace(Strip(c)) && LinesTrimmed(Strip(c))
  {
    var r := Strip(c);
    var lo := |c| - |LStrip(c)|;
    StripSlice(c);
    SliceShape(c, lo, lo + |r|, r);
  }

  lemma SliceShape(s: string, i: nat, j: nat, t: string)
    requires i <= j <= |s| && t == s[i..j] && NoDoubleSpace(s) && LinesTrimmed(s)
    ensures NoDoubleSpace(t) && LinesTrimmed(t)
  {
    SliceNoDouble(s, i, j);
    SliceTrimmed(s, i, j);
  }

  lemma CollapsedNoDouble(s: string)
    ensures NoDoubleSpace(CollapseNewlines(CollapseSpaces(s)))
  {
    CollapseSpacesNoDouble(s);
    CollapseNewlinesNoDouble(CollapseSpaces(s));
  }

  /**
   * `normalize_whitespace` leaves nothing to strip at either end, no run of two spaces,
   * and no line ending in whitespace.
   */
  lemma NormalizeWhitespaceShape(s: string)
    ensures IsStripped(NormalizeWhitespace(s))
    ensures NoDoubleSpace(NormalizeWhitespace(s))
    ensures LinesTrimmed(NormalizeWhitespace(s))
  {
    var b := CollapseNewlines(CollapseSpaces(s));
    CollapsedNoDouble(s);
    RStripLinesNoDouble(b);
    RStripLinesTrimmed(b);
    StripKeepsShape(RStripLines(b));
  }

  // ---------------------------------------------------------------------------
  // Only whitespace is removed

  lemma NonSpaceOfRun(s: string, n: nat, c: char)
    requires n <= |s| && IsSpace(c) && forall i | 0 <= i < n :: s[i] == c
    ensures NonSpace(s[..n]) == []
  {
    NonSpaceOfBlank(s[..n]);
  }

  lemma {:induction false} CollapseSpacesNonSpace(s: string)
    ensures NonSpace(CollapseSpaces(s)) == NonSpace(s)
    decreases |s|
  {
    if s != [] {
      if s[0] == ' ' {
        var rest := DropLeading(s, ' ');
        DropLeadingSlice(s, ' ');
        var k := |s| - |rest|;
        CollapseSpacesNonSpace(rest);
        NonSpaceAppend([' '], CollapseSpaces(rest));
        assert s == s[..k] + rest;
        NonSpaceAppend(s[..k], rest);
        NonSpaceOfRun(s, k, ' ');
      } else {
        CollapseSpacesNonSpace(s[1..]);
        NonSpaceAppend([s[0]], CollapseSpaces(s[1..]));
        assert s == [s[0]] + s[1..];
        NonSpaceAppend([s[0]], s[1..]);
      }
    }
  }

  lemma {:induction false} CollapseNewlinesNonSpace(s: string)
    ensures NonSpace(CollapseNewlines(s)) == NonSpace(s)
    decreases |s|
  {
    if s != [] {
      if s[0] == '\n' {
        var rest := DropLeading(s, '\n');
        DropLeadingSlice(s, '\n');
        var k := |s| - |rest|;
        var head := if k >= 3 then "\n\n" else s[..k];
        CollapseNewlinesNonSpace(rest);
        NonSpaceAppend(head, CollapseNewlines(rest));
        NonSpaceOfBlank(head);
        TakeDrop(s, k);
        NonSpaceAppend(s[..k], rest);
        NonSpaceOfRun(s, k, '\n');
      } else {
        CollapseNewlinesNonSpace(s[1..]);
        NonSpaceAppend([s[0]], CollapseNewlines(s[1..]));
        assert s == [s[0]] + s[1..];
        NonSpaceAppend([s[0]], s[1..]);
      }
    }
  }

  lemma TakeDrop<T>(s: seq<T>, k: nat)
    requires k <= |s|
    ensures s == s[..k] + s[k..]
  {
  }

  lemma {:induction false} JoinRStripNonSpace(lines: seq<string>)
    ensures NonSpace(Join(RStripAll(lines), "\n")) == NonSpace(Join(lines, "\n"))
    decreases |lines|
  {
    if |lines| == 1 {
      RStripNonSpace(lines[0]);
    } else if |lines| > 1 {
      var r := RStripAll(lines);
      assert r[1..] == RStripAll(lines[1..]);
      JoinRStripNonSpace(lines[1..]);
      RStripNonSpace(lines[0]);
      NonSpaceAppend(RStrip(lines[0]) + "\n", Join(r[1..], "\n"));
      NonSpaceAppend(RStrip(lines[0]), "\n");
      NonSpaceAppend(lines[0] + "\n", Join(lines[1..], "\n"));
      NonSpaceAppend(lines[0], "\n");
    }
  }

  /** `normalize_whitespace` removes only whitespace: every visible character survives, in order. */
  lemma NormalizeWhitespaceKeepsText(s: string)
    ensures NonSpace(NormalizeWhitespace(s)) == NonSpace(s)
  {
    var a := CollapseSpaces(s);
    var b := CollapseNewlines(a);
    CollapseSpacesNonSpace(s);
    CollapseNewlinesNonSpace(a);
    JoinRStripNonSpace(Split(b, "\n"));
    StripNonSpace(RStripLines(b));
  }

  /** `normalize_whitespace` gives the empty string exactly when the input has no visible character. */
  lemma NormalizedEmptyIff(s: string)
    ensures NormalizeWhitespace(s) == [] <==> !HasText(s)
  {
    var t := NormalizeWhitespace(s);
    NormalizeWhitespaceKeepsText(s);
    NormalizeWhitespaceShape(s);
    HasTextIffNonSpace(s);
    HasTextIffNonSpace(t);
    if t != [] {
      assert !IsSpace(t[0]);
    }
  }
}
