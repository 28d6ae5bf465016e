/**
 * The Python string primitives the ingestion code leans on, written out:
 * `str.isspace`, `strip`/`lstrip`/`rstrip`, `split(sep)`, `sep.join(...)`,
 * `str(int)` for non-negative integers and ASCII `lower()`.
 */
module Text {
  import opened Wrappers

  /** `str.isspace()` of one character; the same set is matched by `\s` in a `str` regex. */
  predicate IsSpace(c: char) {
    ('\t' <= c <= '\r') || ('\U{1C}' <= c <= ' ') || c == '\U{85}' || c == '\U{A0}'
    || c == '\U{1680}' || ('\U{2000}' <= c <= '\U{200A}') || c == '\U{2028}' || c == '\U{2029}'
    || c == '\U{202F}' || c == '\U{205F}' || c == '\U{3000}'
  }

  /** The characters of `s` that are not whitespace, in order: what a reader sees. */
  function NonSpace(s: string): (r: string)
    ensures |r| <= |s|
    ensures forall c | c in r :: !IsSpace(c)
  {
    if s == [] then [] else (if IsSpace(s[0]) then [] else [s[0]]) + NonSpace(s[1..])
  }

  lemma {:induction false} NonSpaceAppend(a: string, b: string)
    ensures NonSpace(a + b) == NonSpace(a) + NonSpace(b)
  {
    if a != [] {
      assert (a + b)[1..] == a[1..] + b;
      NonSpaceAppend(a[1..], b);
    } else {
      assert a + b == b;
    }
  }

  lemma {:induction false} NonSpaceOfBlank(s: string)
    requires forall i | 0 <= i < |s| :: IsSpace(s[i])
    ensures NonSpace(s) == []
  {
    if s != [] {
      NonSpaceOfBlank(s[1..]);
    }
  }

  /** `s` has a character that is not whitespace, i.e. `s.strip()` is non-empty. */
  predicate HasText(s: string) {
    exists i :: 0 <= i < |s| && !IsSpace(s[i])
  }

  lemma {:induction false} HasTextIffNonSpace(s: string)
    ensures HasText(s) <==> NonSpace(s) != []
  {
    if s != [] {
      HasTextIffNonSpace(s[1..]);
      if HasText(s[1..]) {
        var i :| 0 <= i < |s[1..]| && !IsSpace(s[1..][i]);
        assert !IsSpace(s[i + 1]);
      }
      if HasText(s) && IsSpace(s[0]) {
        var i :| 0 <= i < |s| && !IsSpace(s[i]);
        assert s[1..][i - 1] == s[i];
      }
    }
  }

  /** `s.lstrip()`: drops the leading run of whitespace. */
  function LStrip(s: string): (r: string)
    ensures |r| <= |s|
    ensures r != [] ==> !IsSpace(r[0])
  {
    if s != [] && IsSpace(s[0]) then LStrip(s[1..]) else s
  }

  /** What `lstrip()` drops is whitespace, and what it keeps is the rest of `s`. */
  lemma {:induction false} LStripSlice(s: string)
    ensures var r := LStrip(s);
      && r == s[|s| - |r|..]
      && forall i | 0 <= i < |s| - |r| :: IsSpace(s[i])
  {
    if s != [] && IsSpace(s[0]) {
      LStripSlice(s[1..]);
      var r := LStrip(s);
      forall i | 1 <= i < |s| - |r| ensures IsSpace(s[i]) {
        assert s[1..][i - 1] == s[i];
      }
    }
  }

  /** `s.rstrip()`: drops the trailing run of whitespace. */
  function RStrip(s: string): (r: string)
    ensures |r| <= |s|
    ensures r != [] ==> !IsSpace(r[|r| - 1])
  {
    if s != [] && IsSpace(s[|s| - 1]) then RStrip(s[..|s| - 1]) else s
  }

  /** What `rstrip()` drops is whitespace, and what it keeps is the start of `s`. */
  lemma {:induction false} RStripSlice(s: string)
    ensures var r := RStrip(s);
      && r == s[..|r|]
      && forall i | |r| <= i < |s| :: IsSpace(s[i])
  {
    if s != [] && IsSpace(s[|s| - 1]) {
      var init := s[..|s| - 1];
      RStripSlice(init);
      var r := RStrip(s);
      forall i | |r| <= i < |s| - 1 ensures IsSpace(s[i]) {
        assert init[i] == s[i];
      }
    }
  }

  /** `s.strip()`: neither starts nor ends with whitespace. */
  function Strip(s: string): (r: string)
    ensures |r| <= |s|
    ensures IsStripped(r)
  {
    RStripSlice(LStrip(s));
    RStrip(LStrip(s))
  }

  /**
   * What `strip()` keeps is a slice of `s`: everything before it and everything after
   * it is whitespace.
   */
  lemma StripSlice(s: string)
    ensures var r := Strip(s);
      var lo := |s| - |LStrip(s)|;
      && lo + |r| <= |s|
      && r == s[lo..lo + |r|]
      && (forall i | 0 <= i < lo :: IsSpace(s[i]))
      && (forall i | lo + |r| <= i < |s| :: IsSpace(s[i]))
  {
    var l := LStrip(s);
    LStripSlice(s);
    RStripSlice(l);
    ComposeSlices(s, l, RStrip(l), |s| - |l|);
  }

  /** A prefix `r` of the suffix `l` of `s` from `lo` on, followed in `l` only by whitespace. */
  lemma ComposeSlices(s: string, l: string, r: string, lo: int)
    requires 0 <= lo <= |s| && l == s[lo..] && |r| <= |l| && r == l[..|r|]
    requires forall i | |r| <= i < |l| :: IsSpace(l[i])
    ensures lo + |r| <= |s| && r == s[lo..lo + |r|]
    ensures forall i | lo + |r| <= i < |s| :: IsSpace(s[i])
  {
    forall i | lo + |r| <= i < |s| ensures IsSpace(s[i]) {
      assert l[i - lo] == s[i];
    }
  }

  /** Stripping never loses a visible character, and empties exactly the blank strings. */
  lemma StripKeepsText(s: string)
    ensures NonSpace(Strip(s)) == NonSpace(s)
    ensures Strip(s) == [] <==> !HasText(s)
  {
    StripNonSpace(s);
    HasTextIffNonSpace(s);
    var r := Strip(s);
    HasTextIffNonSpace(r);
    if r != [] {
      assert !IsSpace(r[0]);
    }
  }

  lemma StripNonSpace(s: string)
    ensures NonSpace(Strip(s)) == NonSpace(s)
  {
    LStripNonSpace(s);
    RStripNonSpace(LStrip(s));
  }

  lemma {:induction false} LStripNonSpace(s: string)
    ensures NonSpace(LStrip(s)) == NonSpace(s)
  {
    if s != [] && IsSpace(s[0]) {
      LStripNonSpace(s[1..]);
    }
  }

  lemma {:induction false} RStripNonSpace(s: string)
    ensures NonSpace(RStrip(s)) == NonSpace(s)
  {
    if s != [] && IsSpace(s[|s| - 1]) {
      var init := s[..|s| - 1];
      assert s == init + [s[|s| - 1]];
      NonSpaceAppend(init, [s[|s| - 1]]);
      RStripNonSpace(init);
    }
  }

  /** A string that `strip()` leaves unchanged. */
  predicate IsStripped(s: string) {
    s != [] ==> !IsSpace(s[0]) && !IsSpace(s[|s| - 1])
  }

  lemma StripOfStripped(s: string)
    requires IsStripped(s)
    ensures Strip(s) == s
  {
    assert LStrip(s) == s;
    assert RStrip(s) == s;
  }

  /** `s.startswith(p)`. */
  predicate StartsWith(s: string, p: string) {
    |p| <= |s| && s[..|p|] == p
  }

  /** `sep` occurs in `s` starting at position `k`. */
  predicate OccursAt(s: string, sep: string, k: int) {
    0 <= k && k + |sep| <= |s| && s[k..k + |sep|] == sep
  }

  /** No occurrence of `sep` in `s` starts before position `end`. */
  ghost predicate NoOccurrenceBefore(s: string, sep: string, end: int) {
    forall k | k < end :: !OccursAt(s, sep, k)
  }

  /** `sep` occurs nowhere in `s`. */
  ghost predicate Free(s: string, sep: string) {
    NoOccurrenceBefore(s, sep, |s|)
  }

  lemma OccursAtShift(s: string, sep: string, k: int)
    requires s != [] && 0 <= k
    ensures OccursAt(s, sep, k + 1) <==> OccursAt(s[1..], sep, k)
  {
    if 0 <= k && k + 1 + |sep| <= |s| {
      assert s[1..][k..k + |sep|] == s[k + 1..k + 1 + |sep|];
    }
  }

  lemma OccursAtPrefix(s: string, sep: string, i: nat, k: int)
    requires i <= |s|
    ensures OccursAt(s[..i], sep, k) ==> OccursAt(s, sep, k)
  {
    if OccursAt(s[..i], sep, k) {
      assert s[..i][k..k + |sep|] == s[k..k + |sep|];
    }
  }

  /** `s.find(sep)`: the leftmost occurrence of a non-empty separator. */
  function IndexOf(s: string, sep: string): (r: Option<nat>)
    requires sep != []
    ensures r.Some? ==> OccursAt(s, sep, r.value)
    ensures NoOccurrenceBefore(s, sep, if r.Some? then r.value else |s|)
    decreases |s|
  {
    if |s| < |sep| then None
    else if s[..|sep|] == sep then Some(0)
    else
      var t := IndexOf(s[1..], sep);
      assert !OccursAt(s, sep, 0);
      assert forall k | 0 <= k :: OccursAt(s, sep, k + 1) <==> OccursAt(s[1..], sep, k) by {
        forall k | 0 <= k ensures OccursAt(s, sep, k + 1) <==> OccursAt(s[1..], sep, k) {
          OccursAtShift(s, sep, k);
        }
      }
      assert forall k | 1 <= k :: OccursAt(s, sep, k) <==> OccursAt(s[1..], sep, k - 1) by {
        forall k | 1 <= k ensures OccursAt(s, sep, k) <==> OccursAt(s[1..], sep, k - 1) {
          OccursAtShift(s, sep, k - 1);
        }
      }
      match t
      case None => None
      case Some(i) => Some(i + 1)
  }

  /** `sep.join(parts)`. */
  function Join(parts: seq<string>, sep: string): string {
    if parts == [] then [] else if |parts| == 1 then parts[0] else parts[0] + sep + Join(parts[1..], sep)
  }

  /** `s.split(sep)` for a non-empty separator: the pieces between leftmost occurrences. */
  function Split(s: string, sep: string): (r: seq<string>)
    requires sep != []
    ensures |r| >= 1
    ensures Join(r, sep) == s
    ensures forall p | p in r :: Free(p, sep)
    decreases |s|
  {
    match IndexOf(s, sep)
    case None => [s]
    case Some(i) =>
      var rest := Split(s[i + |sep|..], sep);
      assert Free(s[..i], sep) by {
        forall k ensures !OccursAt(s[..i], sep, k) {
          OccursAtPrefix(s, sep, i, k);
        }
      }
      assert s[..i] + sep + s[i + |sep|..] == s;
      [s[..i]] + rest
  }

  /** A one-character separator is free in `s` exactly when the character is absent. */
  lemma FreeChar(s: string, c: char)
    ensures Free(s, [c]) <==> c !in s
  {
    if c in s {
      var k :| 0 <= k < |s| && s[k] == c;
      assert OccursAt(s, [c], k);
    } else {
      forall k ensures !OccursAt(s, [c], k) {
        if 0 <= k < |s| {
          assert s[k..k + 1] == [s[k]];
        }
      }
    }
  }

  /** Splitting on a character undoes joining on it, when no part holds the character. */
  lemma {:induction false} SplitJoin(parts: seq<string>, c: char)
    requires |parts| >= 1
    requires forall p | p in parts :: c !in p
    ensures Split(Join(parts, [c]), [c]) == parts
    decreases |parts|
  {
    var s := Join(parts, [c]);
    if |parts| == 1 {
      assert s == parts[0];
      FreeChar(s, c);
    } else {
      var a := parts[0];
      var tail := Join(parts[1..], [c]);
      assert s == a + [c] + tail;
      assert s[..|a|] == a;
      FreeChar(a, c);
      assert OccursAt(s, [c], |a|);
      var found := IndexOf(s, [c]);
      assert found.Some?;
      var v := found.value;
      if v < |a| {
        OccursAtPrefix(s, [c], |a|, v);
        assert s[..|a|][v..v + 1] == s[v..v + 1];
        assert OccursAt(a, [c], v);
        assert false;
      }
      assert v == |a|;
      assert s[v + 1..] == tail;
      forall p | p in parts[1..] ensures c !in p {
        assert p in parts;
      }
      SplitJoin(parts[1..], c);
    }
  }

  /** `str(n)` for a non-negative integer: decimal digits, no leading zeros. */
  function NatToString(n: nat): (r: string)
    ensures r != [] && forall i | 0 <= i < |r| :: '0' <= r[i] <= '9'
    decreases n
  {
    if n < 10 then [('0' as int + n) as char]
    else NatToString(n / 10) + [('0' as int + n % 10) as char]
  }

  /** Reads a string of decimal digits back as a number. */
  function ParseNat(s: string): nat
    requires forall i | 0 <= i < |s| :: '0' <= s[i] <= '9'
  {
    if s == [] then 0 else 10 * ParseNat(s[..|s| - 1]) + (s[|s| - 1] as int - '0' as int)
  }

  /** Decimal rendering is undone by parsing, so `str(n)` determines `n`. */
  lemma {:induction false} ParseNatToString(n: nat)
    ensures ParseNat(NatToString(n)) == n
    decreases n
  {
    if n >= 10 {
      var s := NatToString(n);
      assert s[..|s| - 1] == NatToString(n / 10);
      ParseNatToString(n / 10);
    }
  }

  /** ASCII case folding: `lower()` restricted to `A`..`Z`. */
  function LowerAscii(s: string): (r: string)
    ensures |r| == |s|
  {
    seq(|s|, i requires 0 <= i < |s| => if 'A' <= s[i] <= 'Z' then (s[i] as int + 32) as char else s[i])
  }
}
