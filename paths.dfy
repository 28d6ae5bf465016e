/**
 * The part of `pathlib.PurePosixPath` the upload service and the loader use to
 * decide a file's type: the final component's suffix, lower-cased.
 */
module Paths {
  import opened Wrappers
  import opened Text
  import opened Constants

  /** The components pathlib keeps: empty ones (repeated or trailing `/`) and `.` are dropped. */
  function KeptParts(parts: seq<string>): (r: seq<string>)
    ensures forall p | p in r :: p != [] && p != "."
    decreases |parts|
  {
    if parts == [] then []
    else
      var p := parts[|parts| - 1];
      var prev := KeptParts(parts[..|parts| - 1]);
      if p != [] && p != "." then prev + [p] else prev
  }

  /** `Path(path).name`: the last kept component, or `""`. */
  function Name(path: string): string {
    var parts := KeptParts(Split(path, "/"));
    if parts == [] then [] else parts[|parts| - 1]
  }

  /** `s.rfind(c)`, with `None` for -1. */
  function LastIndexOf(s: string, c: char): (r: Option<nat>)
    ensures r.Some? ==> r.value < |s| && s[r.value] == c && forall j | r.value < j < |s| :: s[j] != c
    ensures r.None? ==> c !in s
    decreases |s|
  {
    if s == [] then None
    else if s[|s| - 1] == c then Some(|s| - 1)
    else
      var r := LastIndexOf(s[..|s| - 1], c);
      assert r.None? ==> forall j | 0 <= j < |s| - 1 :: s[j] != c by {
        if r.None? {
          forall j | 0 <= j < |s| - 1 ensures s[j] != c {
            assert s[..|s| - 1][j] == s[j];
          }
        }
      }
      r
  }

  /**
   * `Path(path).suffix`: from the last `.` of the name, provided that `.` is neither
   * the name's first nor its last character; otherwise `""`.
   */
  function Suffix(path: string): string {
    var name := Name(path);
    var i := LastIndexOf(name, '.');
    if i.Some? && 0 < i.value < |name| - 1 then name[i.value..] else []
  }

  /** `Path(path).suffix.lower()`. */
  function Extension(path: string): string {
    LowerAscii(Suffix(path))
  }

  /** A suffix is empty, or a `.` followed by at least one character that is neither `.` nor `/`. */
  lemma SuffixShape(path: string)
    ensures var r := Suffix(path);
      r == [] || (|r| >= 2 && r[0] == '.' && '.' !in r[1..] && '/' !in r)
  {
    var name := Name(path);
    var parts := KeptParts(Split(path, "/"));
    var i := LastIndexOf(name, '.');
    if i.Some? && 0 < i.value < |name| - 1 {
      var r := name[i.value..];
      assert forall j | 0 <= j < |r| - 1 :: r[1..][j] == name[i.value + 1 + j];
      assert name in parts;
      SplitPartsHaveNoSlash(path);
      KeptPartsFrom(Split(path, "/"));
      assert '/' !in name;
      assert forall j | 0 <= j < |r| :: r[j] == name[i.value + j];
    }
  }

  lemma SplitPartsHaveNoSlash(path: string)
    ensures forall p | p in Split(path, "/") :: '/' !in p
  {
    forall p | p in Split(path, "/") ensures '/' !in p {
      FreeChar(p, '/');
    }
  }

  lemma {:induction false} KeptPartsFrom(parts: seq<string>)
    ensures forall p | p in KeptParts(parts) :: p in parts
    decreases |parts|
  {
    if parts != [] {
      var n := |parts| - 1;
      KeptPartsFrom(parts[..n]);
      assert forall p | p in parts[..n] :: p in parts;
    }
  }

  /** Without a `.` character in its final component, a path has no suffix. */
  lemma NoDotNoSuffix(path: string)
    requires '.' !in Name(path)
    ensures Suffix(path) == [] && Extension(path) == []
  {
  }

  /**
   * A plain file name `stem.ext`, with a non-empty stem and extension, no `/`, and no
   * `.` in the extension, has suffix `.ext`; whether it is an allowed upload depends
   * on nothing else.
   */
  lemma SuffixOfFileName(stem: string, ext: string)
    requires stem != [] && ext != []
    requires '/' !in stem && '/' !in ext && '.' !in ext
    ensures Suffix(stem + "." + ext) == "." + ext
    ensures Extension(stem + "." + ext) == LowerAscii("." + ext)
  {
    var name := stem + "." + ext;
    FileNameParts(stem, ext);
    NameOfPlain(name);
    LastDotOf(stem, ext);
    assert name[|stem|..] == "." + ext;
  }

  lemma FileNameParts(stem: string, ext: string)
    requires '/' !in stem && '/' !in ext && '.' !in ext
    ensures '/' !in stem + "." + ext
    ensures forall j | |stem| < j < |stem + "." + ext| :: (stem + "." + ext)[j] != '.'
  {
    var name := stem + "." + ext;
    forall j | 0 <= j < |name| ensures name[j] != '/' && (j > |stem| ==> name[j] != '.') {
      if j < |stem| {
        assert name[j] == stem[j];
      } else if j > |stem| {
        assert name[j] == ext[j - |stem| - 1];
      }
    }
  }

  /** A single component is its own name. */
  lemma NameOfPlain(name: string)
    requires name != [] && name != "." && '/' !in name
    ensures Name(name) == name
  {
    SplitJoin([name], '/');
    assert Split(name, "/") == [name];
    assert [name][..0] == [];
  }

  lemma LastDotOf(stem: string, ext: string)
    requires forall j | |stem| < j < |stem + "." + ext| :: (stem + "." + ext)[j] != '.'
    ensures LastIndexOf(stem + "." + ext, '.') == Some(|stem|)
  {
    var name := stem + "." + ext;
    assert name[|stem|] == '.';
  }

  /** A missing file name (`file.filename or ""`) is never an allowed upload. */
  lemma EmptyNameHasNoExtension()
    ensures Extension("") == []
  {
    SplitJoin([""], '/');
    assert Join([""], "/") == "";
    assert Split("", "/") == [""];
    assert [""][..0] == [];
  }
}
