/**
 * The chunker's text normaliser (`_normalize`): non-breaking spaces become spaces,
 * every run of whitespace becomes one space, and the ends are stripped.
 */
module Normalization {
  import opened Text

  const Nbsp: char := '\U{A0}'

  /** Every whitespace character of `s` is a plain space. */
  predicate OnlyPlainSpaces(s: string) {
    forall i | 0 <= i < |s| :: IsSpace(s[i]) ==> s[i] == ' '
  }

  /** No two neighbouring characters of `s` are both whitespace. */
  predicate NoAdjacentSpaces(s: string) {
    forall i | 0 <= i < |s| - 1 :: !(IsSpace(s[i]) && IsSpace(s[i + 1]))
  }

  /** The shape `_normalize` produces: words separated by single plain spaces. */
  predicate IsNormal(s: string) {
    OnlyPlainSpaces(s) && NoAdjacentSpaces(s) && IsStripped(s)
  }

  /** `text.replace(" ", " ")`. */
  function ReplaceNbsp(s: string): (r: string)
    ensures |r| == |s|
    ensures NonSpace(r) == NonSpace(s)
    decreases |s|
  {
    if s == [] then []
    else
      var c := if s[0] == Nbsp then ' ' else s[0];
      assert s == [s[0]] + s[1..];
      [c] + ReplaceNbsp(s[1..])
  }

  /** `re.sub(r"\s+", " ", s)`: each maximal run of whitespace becomes a single space. */
  function CollapseRuns(s: string): (r: string)
    ensures |r| <= |s|
    ensures s != [] ==> r != [] && r[0] == (if IsSpace(s[0]) then ' ' else s[0])
    decreases |s|
  {
    if s == [] then []
    else if IsSpace(s[0]) then [' '] + CollapseRuns(LStrip(s))
    else [s[0]] + CollapseRuns(s[1..])
  }

  /** Prepending one character keeps the collapsed shape when it does not start a second space. */
  lemma ConsShape(c: char, t: string)
    requires OnlyPlainSpaces(t) && NoAdjacentSpaces(t)
    requires IsSpace(c) ==> c == ' ' && (t != [] ==> !IsSpace(t[0]))
    ensures OnlyPlainSpaces([c] + t) && NoAdjacentSpaces([c] + t)
  {
    var u := [c] + t;
    assert forall i | 1 <= i < |u| :: u[i] == t[i - 1];
  }

  /** After collapsing, whitespace is only single plain spaces. */
  lemma {:induction false} CollapseRunsShape(s: string)
    ensures OnlyPlainSpaces(CollapseRuns(s)) && NoAdjacentSpaces(CollapseRuns(s))
    decreases |s|
  {
    if s != [] {
      if IsSpace(s[0]) {
        var rest := LStrip(s);
        CollapseRunsShape(rest);
        ConsShape(' ', CollapseRuns(rest));
      } else {
        CollapseRunsShape(s[1..]);
        ConsShape(s[0], CollapseRuns(s[1..]));
      }
    }
  }

  /** Collapsing never loses or reorders a visible character. */
  lemma {:induction false} CollapseRunsNonSpace(s: string)
    ensures NonSpace(CollapseRuns(s)) == NonSpace(s)
    decreases |s|
  {
    if s != [] {
      if IsSpace(s[0]) {
        var rest := LStrip(s);
        CollapseRunsNonSpace(rest);
        LStripNonSpace(s);
        NonSpaceAppend([' '], CollapseRuns(rest));
      } else {
        CollapseRunsNonSpace(s[1..]);
        NonSpaceAppend([s[0]], CollapseRuns(s[1..]));
        assert s == [s[0]] + s[1..];
        NonSpaceAppend([s[0]], s[1..]);
      }
    }
  }

  /** A slice of a collapsed string is still collapsed. */
  lemma SliceShape(t: string, i: nat, j: nat, r: string)
    requires i <= j <= |t| && r == t[i..j]
    requires OnlyPlainSpaces(t) && NoAdjacentSpaces(t)
    ensures OnlyPlainSpaces(r) && NoAdjacentSpaces(r)
  {
    assert forall k | 0 <= k < |r| :: r[k] == t[i + k];
  }

  /** Stripping a collapsed string gives a normal one. */
  lemma StripShape(t: string)
    requires OnlyPlainSpaces(t) && NoAdjacentSpaces(t)
    ensures IsNormal(Strip(t))
  {
    var r := Strip(t);
    var i := |t| - |LStrip(t)|;
    StripSlice(t);
    SliceShape(t, i, i + |r|, r);
  }

  /** A normal string holds no non-breaking space. */
  lemma NormalHasNoNbsp(r: string)
    requires IsNormal(r)
    ensures Nbsp !in r
  {
    if Nbsp in r {
      var k :| 0 <= k < |r| && r[k] == Nbsp;
      assert IsSpace(r[k]);
    }
  }

  /** `_normalize(text)`. */
  function Normalize(s: string): string {
    Strip(CollapseRuns(ReplaceNbsp(s)))
  }

  /** `_normalize` yields words separated by single plain spaces, with nothing around them. */
  lemma NormalizeIsNormal(s: string)
    ensures IsNormal(Normalize(s))
  {
    CollapseRunsShape(ReplaceNbsp(s));
    StripShape(CollapseRuns(ReplaceNbsp(s)));
  }

  /** `_normalize` removes only whitespace and leaves no non-breaking space behind. */
  lemma NormalizeKeepsText(s: string)
    ensures NonSpace(Normalize(s)) == NonSpace(s)
    ensures Nbsp !in Normalize(s)
  {
    var t := CollapseRuns(ReplaceNbsp(s));
    CollapseRunsNonSpace(ReplaceNbsp(s));
    StripNonSpace(t);
    NormalizeIsNormal(s);
    NormalHasNoNbsp(Normalize(s));
  }

  /** A normal string is non-empty exactly when it has a visible character. */
  lemma NormalEmptyIff(s: string)
    requires IsNormal(s)
    ensures s == [] <==> NonSpace(s) == []
  {
    if s != [] {
      assert NonSpace(s) == [s[0]] + NonSpace(s[1..]);
    }
  }

  /** `_normalize` yields the empty string exactly for blank input. */
  lemma NormalizeEmptyIff(s: string)
    ensures Normalize(s) == [] <==> !HasText(s)
  {
    NormalizeIsNormal(s);
    NormalEmptyIff(Normalize(s));
    NormalizeKeepsText(s);
    HasTextIffNonSpace(s);
  }

  lemma {:induction false} CollapseRunsFixes(s: string)
    requires OnlyPlainSpaces(s) && NoAdjacentSpaces(s)
    ensures CollapseRuns(s) == s
    decreases |s|
  {
    if s != [] {
      if IsSpace(s[0]) {
        assert |s| > 1 ==> !IsSpace(s[1]);
        assert LStrip(s) == s[1..] by {
          assert LStrip(s[1..]) == s[1..];
        }
      }
      CollapseRunsFixes(s[1..]);
    }
  }

  lemma {:induction false} ReplaceNbspFixes(s: string)
    requires Nbsp !in s
    ensures ReplaceNbsp(s) == s
    decreases |s|
  {
    if s != [] {
      ReplaceNbspFixes(s[1..]);
    }
  }

  /** `_normalize` leaves a normal string unchanged. */
  lemma NormalizeFixesNormal(s: string)
    requires IsNormal(s)
    ensures Normalize(s) == s
  {
    assert Nbsp !in s by {
      if Nbsp in s {
        var i :| 0 <= i < |s| && s[i] == Nbsp;
        assert IsSpace(s[i]);
      }
    }
    ReplaceNbspFixes(s);
    CollapseRunsFixes(s);
    StripOfStripped(s);
  }

  /** `_normalize` is idempotent. */
  lemma NormalizeIdempotent(s: string)
    ensures Normalize(Normalize(s)) == Normalize(s)
  {
    NormalizeIsNormal(s);
    NormalizeFixesNormal(Normalize(s));
  }
}
