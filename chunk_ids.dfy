/**
 * Chunk identifiers (`_make_chunk_id`): the hex SHA-256 of the key
 * `"{session_id}|{document_id}|{page}|{chunk_index}"`. The digest itself is a
 * parameter; everything said here is about the key it is applied to.
 */
module ChunkIds {
  import opened Wrappers
  import opened Text

  /** Every character of `s` is a decimal digit. */
  predicate IsDigits(s: string) {
    forall i | 0 <= i < |s| :: '0' <= s[i] <= '9'
  }

  /** `str(n)` of a Python `int`. */
  function IntToString(n: int): (r: string)
    ensures r != [] && '|' !in r
  {
    if n < 0 then "-" + NatToString(-n) else NatToString(n)
  }

  /** Reads back what `IntToString` writes; `None` for anything else. */
  function ParseInt(s: string): Option<int> {
    if s != [] && s[0] == '-' && s[1..] != [] && IsDigits(s[1..]) then
      var m: int := ParseNat(s[1..]);
      Some(-m)
    else if s != [] && IsDigits(s) then Some(ParseNat(s))
    else None
  }

  lemma ParseIntToString(n: int)
    ensures ParseInt(IntToString(n)) == Some(n)
  {
    if n < 0 {
      ParseNegativeToString(n);
    } else {
      ParseNatToString(n);
      ParseDigits(NatToString(n));
    }
  }

  lemma ParseNegativeToString(n: int)
    requires n < 0
    ensures ParseInt(IntToString(n)) == Some(n)
  {
    var d := NatToString(-n);
    assert IntToString(n) == "-" + d;
    ParseNatToString(-n);
    ParseNegative(d);
  }

  lemma ParseNegative(d: string)
    requires d != [] && IsDigits(d)
    ensures var m: int := ParseNat(d); ParseInt("-" + d) == Some(-m)
  {
    assert ("-" + d)[1..] == d;
  }

  lemma ParseDigits(d: string)
    requires d != [] && IsDigits(d)
    ensures ParseInt(d) == Some(ParseNat(d))
  {
    assert d[0] != '-';
  }

  /** The text that is hashed into a chunk id. */
  function ChunkKey(sessionId: string, documentId: string, page: int, chunkIndex: nat): string {
    sessionId + "|" + documentId + "|" + IntToString(page) + "|" + NatToString(chunkIndex)
  }

  /** `_make_chunk_id`: the digest of the chunk key. */
  function MakeChunkId(digest: string -> string, sessionId: string, documentId: string, page: int, chunkIndex: nat): string {
    digest(ChunkKey(sessionId, documentId, page, chunkIndex))
  }

  /** Splits a chunk key back into its four fields. */
  function ParseChunkKey(key: string): Option<(string, string, int, nat)> {
    var parts := Split(key, "|");
    if |parts| != 4 || parts[3] == [] || !IsDigits(parts[3]) then None
    else
      match ParseInt(parts[2])
      case None => None
      case Some(page) => Some((parts[0], parts[1], page, ParseNat(parts[3])))
  }

  lemma KeyAsJoin(sessionId: string, documentId: string, page: int, chunkIndex: nat)
    ensures ChunkKey(sessionId, documentId, page, chunkIndex)
         == Join([sessionId, documentId, IntToString(page), NatToString(chunkIndex)], "|")
  {
    var p, i := IntToString(page), NatToString(chunkIndex);
    assert Join([p, i], "|") == p + "|" + i;
    assert [documentId, p, i][1..] == [p, i];
    assert Join([documentId, p, i], "|") == documentId + "|" + (p + "|" + i);
    assert [sessionId, documentId, p, i][1..] == [documentId, p, i];
  }

  lemma DecimalHasNoBar(n: nat)
    ensures '|' !in NatToString(n)
  {
    var s := NatToString(n);
    assert forall i | 0 <= i < |s| :: s[i] != '|';
  }

  /**
   * The key is decodable: when neither identifier contains `|` (a UUID's `str()` never
   * does), parsing the key gives back exactly the four inputs.
   */
  lemma ChunkKeyRoundTrip(sessionId: string, documentId: string, page: int, chunkIndex: nat)
    requires '|' !in sessionId && '|' !in documentId
    ensures ParseChunkKey(ChunkKey(sessionId, documentId, page, chunkIndex)) == Some((sessionId, documentId, page, chunkIndex))
  {
    var parts := [sessionId, documentId, IntToString(page), NatToString(chunkIndex)];
    KeyAsJoin(sessionId, documentId, page, chunkIndex);
    DecimalHasNoBar(chunkIndex);
    SplitJoin(parts, '|');
    ParseIntToString(page);
    ParseNatToString(chunkIndex);
  }

  /** Hence two chunk keys agree only when all four fields agree. */
  lemma ChunkKeyInjective(s1: string, d1: string, p1: int, i1: nat, s2: string, d2: string, p2: int, i2: nat)
    requires '|' !in s1 && '|' !in d1 && '|' !in s2 && '|' !in d2
    requires ChunkKey(s1, d1, p1, i1) == ChunkKey(s2, d2, p2, i2)
    ensures s1 == s2 && d1 == d2 && p1 == p2 && i1 == i2
  {
    ChunkKeyRoundTrip(s1, d1, p1, i1);
    ChunkKeyRoundTrip(s2, d2, p2, i2);
  }

  lemma KeyAsPrefix(sessionId: string, documentId: string, page: int, chunkIndex: nat)
    ensures ChunkKey(sessionId, documentId, page, chunkIndex)
         == (sessionId + "|" + documentId + "|") + (IntToString(page) + "|" + NatToString(chunkIndex))
  {
  }

  lemma AppendCancel(a: string, b: string, c: string)
    requires a + b == a + c
    ensures b == c
  {
    assert b == (a + b)[|a|..];
    assert c == (a + c)[|a|..];
  }

  /** The page-and-index tail of a chunk key splits back into its two fields. */
  lemma TailSplit(page: int, chunkIndex: nat)
    ensures Split(IntToString(page) + "|" + NatToString(chunkIndex), "|") == [IntToString(page), NatToString(chunkIndex)]
  {
    DecimalHasNoBar(chunkIndex);
    assert Join([IntToString(page), NatToString(chunkIndex)], "|") == IntToString(page) + "|" + NatToString(chunkIndex);
    SplitJoin([IntToString(page), NatToString(chunkIndex)], '|');
  }

  /**
   * Within one document the key tells positions apart whatever the identifiers hold:
   * equal keys for the same session and document mean the same page and index.
   */
  lemma ChunkKeyPositionInjective(sessionId: string, documentId: string, p1: int, i1: nat, p2: int, i2: nat)
    requires ChunkKey(sessionId, documentId, p1, i1) == ChunkKey(sessionId, documentId, p2, i2)
    ensures p1 == p2 && i1 == i2
  {
    KeyAsPrefix(sessionId, documentId, p1, i1);
    KeyAsPrefix(sessionId, documentId, p2, i2);
    AppendCancel(sessionId + "|" + documentId + "|", IntToString(p1) + "|" + NatToString(i1), IntToString(p2) + "|" + NatToString(i2));
    TailSplit(p1, i1);
    TailSplit(p2, i2);
    assert IntToString(p1) == IntToString(p2) && NatToString(i1) == NatToString(i2);
    ParseIntToString(p1);
    ParseIntToString(p2);
    ParseNatToString(i1);
    ParseNatToString(i2);
  }

  /** The digest assumption the callers may make: distinct keys hash apart. */
  ghost predicate Injective(digest: string -> string) {
    forall a, b :: digest(a) == digest(b) ==> a == b
  }

  /** Under an injective digest, chunks at different positions of one document get different ids. */
  lemma ChunkIdsDiffer(digest: string -> string, sessionId: string, documentId: string, p1: int, i1: nat, p2: int, i2: nat)
    requires Injective(digest)
    requires p1 != p2 || i1 != i2
    ensures MakeChunkId(digest, sessionId, documentId, p1, i1) != MakeChunkId(digest, sessionId, documentId, p2, i2)
  {
    if MakeChunkId(digest, sessionId, documentId, p1, i1) == MakeChunkId(digest, sessionId, documentId, p2, i2) {
      ChunkKeyPositionInjective(sessionId, documentId, p1, i1, p2, i2);
    }
  }
}
