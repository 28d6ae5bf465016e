/**
 * `FileLoader`: the type of a stored file from its suffix, the extractor for a type,
 * and loading a file's type and bytes. The file system is an input: whether the path
 * exists, and the bytes reading it gives or the message of what reading it raised.
 */
module Loader {
  import opened Wrappers
  import opened Constants
  import opened Paths
  import opened Text

  /** `detect_file_type`: the lower-cased suffix when it is an allowed one. */
  function DetectFileType(path: string): Option<string> {
    var ext := Extension(path);
    if ext in AllowedExtensions then Some(ext) else None
  }

  /** `get_extractor_class`: the dotted name of the extractor class for a file type. */
  function ExtractorClass(fileType: string): Option<string> {
    var mapping := map[
      ".pdf" := "text_extractor.PDFTextExtractor",
      ".docx" := "text_extractor.DOCXTextExtractor",
      ".txt" := "text_extractor.TXTTextExtractor",
      ".md" := "text_extractor.MDTextExtractor"];
    if fileType in mapping then Some(mapping[fileType]) else None
  }

  /**
   * `load_file` as written: the `return None, None` that belongs to the missing-file
   * branch sits after it, at the level of the `try`, so every call gives `(None, None)`
   * and the type check and the read below it are never reached.
   */
  function LoadFileAsWritten(path: string, found: bool, content: Result<seq<bv8>, string>): (Option<string>, Option<seq<bv8>>) {
    (None, None)
  }

  /**
   * `load_file` as evidently intended: `(None, None)` for a missing file, an unsupported
   * type, or a read that raised; otherwise the type and the bytes.
   */
  function LoadFile(path: string, found: bool, content: Result<seq<bv8>, string>): (Option<string>, Option<seq<bv8>>) {
    if !found then (None, None)
    else
      var fileType := DetectFileType(path);
      if fileType.None? then (None, None)
      else if content.Failure? then (None, None)
      else (fileType, Some(content.value))
  }

  /** A path's type is detected exactly when its lower-cased suffix is an allowed one, and is that suffix. */
  lemma DetectFileTypeIff(path: string)
    ensures DetectFileType(path).Some? <==> Extension(path) in {".pdf", ".docx", ".txt", ".md"}
    ensures DetectFileType(path).Some? ==> DetectFileType(path).value == Extension(path)
  {
  }

  /** Exactly the allowed types have an extractor, and each has its own. */
  lemma ExtractorClassIff(fileType: string)
    ensures ExtractorClass(fileType).Some? <==> fileType in AllowedExtensions
    ensures forall a, b | a in AllowedExtensions && b in AllowedExtensions && a != b :: ExtractorClass(a) != ExtractorClass(b)
  {
  }

  /** Every detected type has an extractor. */
  lemma DetectedTypeHasExtractor(path: string)
    requires DetectFileType(path).Some?
    ensures ExtractorClass(DetectFileType(path).value).Some?
  {
    ExtractorClassIff(DetectFileType(path).value);
  }

  /**
   * The corrected loader returns both parts or neither: both exactly when the file exists,
   * its type is allowed and reading it succeeded, and then they are the detected type and
   * the bytes read.
   */
  lemma LoadFileIff(path: string, found: bool, content: Result<seq<bv8>, string>)
    ensures var (fileType, bytes) := LoadFile(path, found, content);
      && (fileType.Some? <==> bytes.Some?)
      && (fileType.Some? <==> found && DetectFileType(path).Some? && content.Success?)
      && (fileType.Some? ==> fileType == DetectFileType(path) && bytes == Some(content.value))
  {
  }

  /**
   * The discrepancy: an existing, readable `<stem>.txt` is loaded by the corrected loader
   * and refused by the loader as written.
   */
  lemma LoadFileDiscards(stem: string, content: seq<bv8>)
    requires stem != [] && '/' !in stem
    ensures LoadFile(stem + ".txt", true, Success(content)) == (Some(".txt"), Some(content))
    ensures LoadFileAsWritten(stem + ".txt", true, Success(content)) == (None, None)
  {
    TxtType(stem);
  }

  lemma TxtType(stem: string)
    requires stem != [] && '/' !in stem
    ensures DetectFileType(stem + ".txt") == Some(".txt")
  {
    SuffixOfFileName(stem, "txt");
    assert stem + "." + "txt" == stem + ".txt";
    assert "." + "txt" == ".txt";
    LowerTxt();
    assert Extension(stem + ".txt") == ".txt";
    assert ".txt" in AllowedExtensions;
  }

  lemma LowerTxt()
    ensures LowerAscii(".txt") == ".txt"
  {
    var lowered := LowerAscii(".txt");
    assert forall i | 0 <= i < 4 :: lowered[i] == ".txt"[i];
  }
}
