/**
 * `DocumentManager`: accepts uploads into a live session its caller owns, at most five
 * files per session and at most 10 MiB per file, of type PDF, DOCX, TXT or Markdown by
 * file name, and records each accepted file's metadata under its session.
 *
 * The session table is the `SessionManager` the service consults. What the service
 * cannot decide itself is an input: each file's content, or the message of what
 * reading it raised; the message of what creating the session directory or writing
 * the file raised, if anything; the id `uuid4()` gives each file; SHA-256 as `digest`;
 * and the clock as `now`, read once per call. The bytes written to disk are not
 * modelled.
 */
module Documents {
  import opened Wrappers
  import opened Constants
  import opened Paths
  import opened Sessions
  import opened Loader

  /** An uploaded file as the service sees it. */
  datatype Upload = Upload(
    filename: Option<string>,
    contentType: Option<string>,
    content: Result<seq<bv8>, string>,
    storeFailure: Option<string>)

  datatype DocumentMetadata = DocumentMetadata(
    sessionId: string,
    documentId: string,
    documentName: string,
    documentHash: string,
    uploadedAt: int,
    fileSize: nat)

  /**
   * Why one file was turned away: `Unsupported file type: <ext>`, `File size exceeds
   * limit: 10485760 bytes`, or the text of what was raised.
   */
  datatype FileError = UnsupportedType(ext: string) | TooLarge | Raised(message: string)

  /**
   * An entry of the returned error list: `Session does not exist or has expired`,
   * `Unauthorized access to session`, `Session file limit reached: 5`, or
   * `<filename>: <reason>` for one file.
   */
  datatype UploadError = SessionUnavailable | Unauthorized | LimitReached | FileRejected(filename: Option<string>, reason: FileError)

  /** `_documents` and `_session_documents`. */
  datatype Docs = Docs(documents: map<string, DocumentMetadata>, sessionDocuments: map<string, seq<string>>)

  /** `file.filename or ""`. */
  function FileNameOf(filename: Option<string>): string {
    if filename.Some? then filename.value else []
  }

  /** `validate_file`: the verdict and, on rejection, why. */
  function ValidateFile(file: Upload): (bool, Option<FileError>) {
    var ext := Extension(FileNameOf(file.filename));
    if ext !in AllowedExtensions then (false, Some(UnsupportedType(ext))) else (true, None)
  }

  /** `check_session_file_limit`: the table afterwards and whether one more file may come. */
  function CheckLimit(t: Table, validUuid: string -> bool, sid: string, now: int): (Table, bool) {
    var (t1, count) := DocumentCount(t, validUuid, sid, now);
    (t1, count < MaxFilesPerSession)
  }

  /** The ids listed for `sid`, or none. */
  function SessionDocIds(d: Docs, sid: string): seq<string> {
    if sid in d.sessionDocuments then d.sessionDocuments[sid] else []
  }

  /** Storing `meta` under `id` and listing `id` last for `sid`. */
  function Record(d: Docs, sid: string, id: string, meta: DocumentMetadata): Docs {
    Docs(d.documents[id := meta], d.sessionDocuments[sid := SessionDocIds(d, sid) + [id]])
  }

  /** The two bookkeeping tables, the session table and the two result lists during an upload. */
  datatype Progress = Progress(docs: Docs, table: Table, successful: seq<DocumentMetadata>, errors: seq<UploadError>)

  function Reject(p: Progress, file: Upload, reason: FileError): Progress {
    p.(errors := p.errors + [FileRejected(file.filename, reason)])
  }

  /** One round of the per-file loop; `documentId` is what `uuid4()` gives for this file. */
  function FileStep(p: Progress, file: Upload, documentId: string, sid: string, validUuid: string -> bool, digest: seq<bv8> -> string, now: int)
    : Progress
  {
    var (isValid, error) := ValidateFile(file);
    if !isValid then Reject(p, file, error.value)
    else if file.content.Failure? then Reject(p, file, Raised(file.content.error))
    else if |file.content.value| > MaxFileSizeBytes then Reject(p, file, TooLarge)
    else if file.storeFailure.Some? then Reject(p, file, Raised(file.storeFailure.value))
    else
      AcceptedHasName(file);
      var content := file.content.value;
      var meta := DocumentMetadata(sid, documentId, file.filename.value, digest(content), now, |content|);
      Progress(Record(p.docs, sid, documentId, meta), Increment(p.table, validUuid, sid, now), p.successful + [meta], p.errors)
  }

  /** The per-file loop over `files`, the i-th file getting id `ids[i]`. */
  function FilesOutcome(p: Progress, files: seq<Upload>, ids: seq<string>, sid: string, validUuid: string -> bool, digest: seq<bv8> -> string, now: int)
    : Progress
    requires |ids| == |files|
    decreases |files|
  {
    if files == [] then p
    else
      var n := |files| - 1;
      FileStep(FilesOutcome(p, files[..n], ids[..n], sid, validUuid, digest, now), files[n], ids[n], sid, validUuid, digest, now)
  }

  /** What the checks before the per-file loop decide: the outcome of a refused upload, or the table to go on with. */
  datatype Admission = Refused(outcome: Progress) | Admitted(table: Table)

  /** The session check, the ownership check and the limit check of `process_upload`, in that order. */
  function Admit(d: Docs, t: Table, validUuid: string -> bool, userId: string, sid: string, fileCount: nat, now: int): Admission {
    var t1 := Lookup(t, validUuid, sid, now).0;
    if !Live(t, validUuid, sid, now) then Refused(Progress(d, t1, [], [SessionUnavailable]))
    else
      var (t2, owned) := Access(t1, validUuid, userId, sid, now);
      if !owned then Refused(Progress(d, t2, [], [Unauthorized]))
      else
        var (t3, count) := DocumentCount(t2, validUuid, sid, now);
        if count + fileCount > MaxFilesPerSession then Refused(Progress(d, t3, [], [LimitReached]))
        else Admitted(t3)
  }

  /** `process_upload`: the checks, then the per-file loop. */
  function UploadOutcome(d: Docs, t: Table, validUuid: string -> bool, digest: seq<bv8> -> string,
                         userId: string, sid: string, files: seq<Upload>, ids: seq<string>, now: int): Progress
    requires |ids| == |files|
  {
    match Admit(d, t, validUuid, userId, sid, |files|, now)
    case Refused(outcome) => outcome
    case Admitted(t3) => FilesOutcome(Progress(d, t3, [], []), files, ids, sid, validUuid, digest, now)
  }

  /** The stored documents among `ids`, in order. */
  function Present(documents: map<string, DocumentMetadata>, ids: seq<string>): seq<DocumentMetadata>
    decreases |ids|
  {
    if ids == [] then []
    else
      var n := |ids| - 1;
      Present(documents, ids[..n]) + (if ids[n] in documents then [documents[ids[n]]] else [])
  }

  /** `get_session_documents`. */
  function SessionDocuments(d: Docs, sid: string): seq<DocumentMetadata> {
    Present(d.documents, SessionDocIds(d, sid))
  }

  /** `delete_session_documents`. */
  function Delete(d: Docs, sid: string): Docs {
    if sid !in d.sessionDocuments then d
    else Docs(map k | k in d.documents && k !in d.sessionDocuments[sid] :: d.documents[k], d.sessionDocuments - {sid})
  }

  // ---------------------------------------------------------------------------
  // The manager

  class DocumentManager {
    var documents: map<string, DocumentMetadata>
    var sessionDocuments: map<string, seq<string>>
    /** The session table the service consults. */
    const sessionManager: SessionManager
    /** `hashlib.sha256(content).hexdigest()`. */
    const digest: seq<bv8> -> string

    function Store(): Docs
      reads this
    {
      Docs(documents, sessionDocuments)
    }

    ghost predicate Valid()
      reads this, sessionManager
    {
      sessionManager.Valid()
    }

    constructor (sessionManager: SessionManager, digest: seq<bv8> -> string)
      ensures Store() == Docs(map[], map[])
      ensures this.sessionManager == sessionManager && this.digest == digest
    {
      documents := map[];
      sessionDocuments := map[];
      this.sessionManager := sessionManager;
      this.digest := digest;
    }

    method CheckSessionFileLimit(sid: string, now: int) returns (canUpload: bool)
      requires Valid()
      modifies sessionManager
      ensures Valid()
      ensures (sessionManager.State(), canUpload) == CheckLimit(old(sessionManager.State()), sessionManager.validUuid, sid, now)
    {
      var currentCount := sessionManager.GetDocumentCount(sid, now);
      canUpload := currentCount < MaxFilesPerSession;
    }

    method ProcessUpload(userId: string, sid: string, files: seq<Upload>, newIds: seq<string>, now: int)
      returns (successful: seq<DocumentMetadata>, errors: seq<UploadError>)
      requires Valid() && |newIds| == |files|
      modifies this, sessionManager
      ensures Valid()
      ensures Progress(Store(), sessionManager.State(), successful, errors)
        == UploadOutcome(old(Store()), old(sessionManager.State()), sessionManager.validUuid, digest, userId, sid, files, newIds, now)
    {
      successful := [];
      errors := [];
      var found := sessionManager.SessionExists(sid, now);
      if !found {
        errors := errors + [SessionUnavailable];
        return;
      }
      var owned := sessionManager.ValidateSessionAccess(userId, sid, now);
      if !owned {
        errors := errors + [Unauthorized];
        return;
      }
      var currentCount := sessionManager.GetDocumentCount(sid, now);
      if currentCount + |files| > MaxFilesPerSession {
        errors := errors + [LimitReached];
        return;
      }
      successful, errors := StoreFiles(sid, files, newIds, now);
    }

    /** The per-file loop of `process_upload`, once the session checks have passed. */
    method StoreFiles(sid: string, files: seq<Upload>, newIds: seq<string>, now: int)
      returns (successful: seq<DocumentMetadata>, errors: seq<UploadError>)
      requires Valid() && |newIds| == |files|
      modifies this, sessionManager
      ensures Valid()
      ensures Progress(Store(), sessionManager.State(), successful, errors)
        == FilesOutcome(Progress(old(Store()), old(sessionManager.State()), [], []), files, newIds, sid, sessionManager.validUuid, digest, now)
    {
      successful := [];
      errors := [];
      ghost var start := Progress(Store(), sessionManager.State(), [], []);
      for i := 0 to |files|
        invariant Valid()
        invariant Progress(Store(), sessionManager.State(), successful, errors)
          == FilesOutcome(start, files[..i], newIds[..i], sid, sessionManager.validUuid, digest, now)
      {
        assert files[..i + 1][..i] == files[..i] && newIds[..i + 1][..i] == newIds[..i];
        FilesOutcomeSnoc(start, files[..i + 1], newIds[..i + 1], sid, sessionManager.validUuid, digest, now);
        successful, errors := StoreFile(files[i], newIds[i], sid, now, successful, errors);
      }
      assert files[..|files|] == files && newIds[..|files|] == newIds;
    }

    /** One round of the per-file loop: `documentId` is the id drawn for `file`. */
    method StoreFile(file: Upload, documentId: string, sid: string, now: int, successful: seq<DocumentMetadata>, errors: seq<UploadError>)
      returns (successful': seq<DocumentMetadata>, errors': seq<UploadError>)
      requires Valid()
      modifies this, sessionManager
      ensures Valid()
      ensures Progress(Store(), sessionManager.State(), successful', errors')
        == FileStep(Progress(old(Store()), old(sessionManager.State()), successful, errors), file, documentId, sid, sessionManager.validUuid, digest, now)
    {
      successful', errors' := successful, errors;
      var (isValid, error) := ValidateFile(file);
      if !isValid {
        errors' := errors + [FileRejected(file.filename, error.value)];
        return;
      }
      if file.content.Failure? {
        errors' := errors + [FileRejected(file.filename, Raised(file.content.error))];
        return;
      }
      var content := file.content.value;
      if |content| > MaxFileSizeBytes {
        errors' := errors + [FileRejected(file.filename, TooLarge)];
        return;
      }
      var documentHash := digest(content);
      if file.storeFailure.Some? {
        errors' := errors + [FileRejected(file.filename, Raised(file.storeFailure.value))];
        return;
      }
      AcceptedHasName(file);
      var metadata := DocumentMetadata(sid, documentId, file.filename.value, documentHash, now, |content|);
      FileStepAccepts(Progress(Store(), sessionManager.State(), successful, errors), file, documentId, sid, sessionManager.validUuid, digest, now);
      documents := documents[documentId := metadata];
      if sid !in sessionDocuments {
        sessionDocuments := sessionDocuments[sid := []];
      }
      sessionDocuments := sessionDocuments[sid := sessionDocuments[sid] + [documentId]];
      assert Store() == Record(old(Store()), sid, documentId, metadata);
      sessionManager.IncrementDocumentCount(sid, now);
      successful' := successful + [metadata];
    }

    method GetSessionDocuments(sid: string) returns (result: seq<DocumentMetadata>)
      ensures result == SessionDocuments(Store(), sid)
    {
      var documentIds := if sid in sessionDocuments then sessionDocuments[sid] else [];
      result := [];
      for i := 0 to |documentIds|
        invariant result == Present(documents, documentIds[..i])
      {
        assert documentIds[..i + 1][..i] == documentIds[..i];
        if documentIds[i] in documents {
          result := result + [documents[documentIds[i]]];
        }
      }
      assert documentIds[..|documentIds|] == documentIds;
    }

    method DeleteSessionDocuments(sid: string)
      modifies this
      ensures Store() == Delete(old(Store()), sid)
    {
      if sid !in sessionDocuments {
        return;
      }
      var ids := sessionDocuments[sid];
      ghost var before := documents;
      for i := 0 to |ids|
        invariant documents == map k | k in before && k !in ids[..i] :: before[k]
        invariant sessionDocuments == old(sessionDocuments)
      {
        assert ids[..i + 1] == ids[..i] + [ids[i]];
        documents := documents - {ids[i]};
      }
      assert ids[..|ids|] == ids;
      assert documents == map k | k in before && k !in ids :: before[k];
      sessionDocuments := sessionDocuments - {sid};
    }
  }

  // ---------------------------------------------------------------------------
  // What the checks and the loop guarantee

  /** An accepted file has a name: a missing one has no extension. */
  lemma AcceptedHasName(file: Upload)
    requires ValidateFile(file).0
    ensures file.filename.Some?
  {
    if file.filename.None? {
      EmptyNameHasNoExtension();
    }
  }

  /**
   * A file is accepted exactly when its lower-cased suffix is `.pdf`, `.docx`, `.txt`
   * or `.md`; its declared content type never matters.
   */
  lemma ValidateFileIff(file: Upload, contentType: Option<string>)
    ensures ValidateFile(file).0 <==> Extension(FileNameOf(file.filename)) in {".pdf", ".docx", ".txt", ".md"}
    ensures ValidateFile(file.(contentType := contentType)) == ValidateFile(file)
    ensures !ValidateFile(file).0 ==> ValidateFile(file).1 == Some(UnsupportedType(Extension(FileNameOf(file.filename))))
  {
  }

  /** Uploads are refused once a session holds five documents. */
  lemma CheckLimitIff(t: Table, validUuid: string -> bool, sid: string, now: int)
    ensures CheckLimit(t, validUuid, sid, now).1
      <==> !Live(t, validUuid, sid, now) || t.sessions[sid].documentCount < 5
  {
  }

  /**
   * A session that is missing or expired, owned by someone else, or that the upload
   * would take past five documents gets no success and exactly one error, and neither
   * bookkeeping table changes; only the expiry of an expired session touches the
   * session table.
   */
  lemma EarlyRejections(d: Docs, t: Table, validUuid: string -> bool, digest: seq<bv8> -> string,
                        userId: string, sid: string, files: seq<Upload>, ids: seq<string>, now: int)
    requires |ids| == |files|
    ensures !Live(t, validUuid, sid, now) ==>
      UploadOutcome(d, t, validUuid, digest, userId, sid, files, ids, now) == Progress(d, Lookup(t, validUuid, sid, now).0, [], [SessionUnavailable])
    ensures Live(t, validUuid, sid, now) && t.sessions[sid].userId != userId ==>
      UploadOutcome(d, t, validUuid, digest, userId, sid, files, ids, now) == Progress(d, t, [], [Unauthorized])
    ensures Live(t, validUuid, sid, now) && t.sessions[sid].userId == userId && t.sessions[sid].documentCount + |files| > 5 ==>
      UploadOutcome(d, t, validUuid, digest, userId, sid, files, ids, now) == Progress(d, t, [], [LimitReached])
  {
  }

  /** A file over 10 MiB is turned away with an error and recorded nowhere. */
  lemma TooLargeRejected(p: Progress, file: Upload, documentId: string, sid: string, validUuid: string -> bool, digest: seq<bv8> -> string, now: int)
    requires ValidateFile(file).0 && file.content.Success? && |file.content.value| > 10 * 1024 * 1024
    ensures FileStep(p, file, documentId, sid, validUuid, digest, now)
      == p.(errors := p.errors + [FileRejected(file.filename, TooLarge)])
  {
  }

  /** A file that passes every check is stored, listed under its session and counted. */
  lemma FileStepAccepts(p: Progress, file: Upload, documentId: string, sid: string, validUuid: string -> bool, digest: seq<bv8> -> string, now: int)
    requires ValidateFile(file).0 && file.content.Success? && |file.content.value| <= 10 * 1024 * 1024 && file.storeFailure.None?
    ensures file.filename.Some?
    ensures var meta := DocumentMetadata(sid, documentId, file.filename.value, digest(file.content.value), now, |file.content.value|);
      FileStep(p, file, documentId, sid, validUuid, digest, now)
        == Progress(Record(p.docs, sid, documentId, meta), Increment(p.table, validUuid, sid, now), p.successful + [meta], p.errors)
  {
    AcceptedHasName(file);
  }

  lemma FilesOutcomeSnoc(p: Progress, files: seq<Upload>, ids: seq<string>, sid: string, validUuid: string -> bool, digest: seq<bv8> -> string, now: int)
    requires |ids| == |files| && files != []
    ensures var n := |files| - 1;
      FilesOutcome(p, files, ids, sid, validUuid, digest, now)
        == FileStep(FilesOutcome(p, files[..n], ids[..n], sid, validUuid, digest, now), files[n], ids[n], sid, validUuid, digest, now)
  {
  }

  /** One file adds one entry, to the successes or to the errors. */
  lemma FileStepEntries(p: Progress, file: Upload, documentId: string, sid: string, validUuid: string -> bool, digest: seq<bv8> -> string, now: int)
    ensures var r := FileStep(p, file, documentId, sid, validUuid, digest, now);
      && p.successful <= r.successful && p.errors <= r.errors
      && |r.successful| + |r.errors| == |p.successful| + |p.errors| + 1
  {
  }

  /** Every file adds exactly one entry, to the successes or to the errors, after those already there. */
  lemma {:induction false} OneEntryPerFile(p: Progress, files: seq<Upload>, ids: seq<string>, sid: string, validUuid: string -> bool, digest: seq<bv8> -> string, now: int)
    requires |ids| == |files|
    ensures var r := FilesOutcome(p, files, ids, sid, validUuid, digest, now);
      && p.successful <= r.successful && p.errors <= r.errors
      && |r.successful| + |r.errors| == |p.successful| + |p.errors| + |files|
    decreases |files|
  {
    if files != [] {
      var n := |files| - 1;
      OneEntryPerFile(p, files[..n], ids[..n], sid, validUuid, digest, now);
      FilesOutcomeSnoc(p, files, ids, sid, validUuid, digest, now);
      FileStepEntries(FilesOutcome(p, files[..n], ids[..n], sid, validUuid, digest, now), files[n], ids[n], sid, validUuid, digest, now);
    }
  }

  /** One file can only raise its session's count, by one exactly when it is accepted. */
  lemma FileStepCounted(p: Progress, file: Upload, documentId: string, sid: string, validUuid: string -> bool, digest: seq<bv8> -> string, now: int)
    requires Live(p.table, validUuid, sid, now)
    ensures var r := FileStep(p, file, documentId, sid, validUuid, digest, now);
      && |p.successful| <= |r.successful|
      && Live(r.table, validUuid, sid, now)
      && r.table.sessions[sid] == p.table.sessions[sid].(documentCount := p.table.sessions[sid].documentCount + |r.successful| - |p.successful|)
      && r.table.userSessions == p.table.userSessions
      && r.table.sessions.Keys == p.table.sessions.Keys
      && forall s | s in p.table.sessions && s != sid :: r.table.sessions[s] == p.table.sessions[s]
  {
    IncrementSpec(p.table, validUuid, sid, now);
  }

  /**
   * While the session stays live, each accepted file adds one to its count, and no other
   * session and no user's active session changes.
   */
  lemma {:induction false} FilesCounted(p: Progress, files: seq<Upload>, ids: seq<string>, sid: string, validUuid: string -> bool, digest: seq<bv8> -> string, now: int)
    requires |ids| == |files| && Live(p.table, validUuid, sid, now)
    ensures var r := FilesOutcome(p, files, ids, sid, validUuid, digest, now);
      && |p.successful| <= |r.successful|
      && Live(r.table, validUuid, sid, now)
      && r.table.sessions[sid] == p.table.sessions[sid].(documentCount := p.table.sessions[sid].documentCount + |r.successful| - |p.successful|)
      && r.table.userSessions == p.table.userSessions
      && r.table.sessions.Keys == p.table.sessions.Keys
      && forall s | s in p.table.sessions && s != sid :: r.table.sessions[s] == p.table.sessions[s]
    decreases |files|
  {
    if files != [] {
      var n := |files| - 1;
      FilesCounted(p, files[..n], ids[..n], sid, validUuid, digest, now);
      FilesOutcomeSnoc(p, files, ids, sid, validUuid, digest, now);
      FileStepCounted(FilesOutcome(p, files[..n], ids[..n], sid, validUuid, digest, now), files[n], ids[n], sid, validUuid, digest, now);
    }
  }

  /** The ids of `ms`, in order. */
  function IdsOf(ms: seq<DocumentMetadata>): (r: seq<string>)
    ensures |r| == |ms| && forall i | 0 <= i < |ms| :: r[i] == ms[i].documentId
  {
    seq(|ms|, i requires 0 <= i < |ms| => ms[i].documentId)
  }

  /**
   * What the upload loop leaves behind, measured from `d0`: each new success `added` was
   * given one of the ids in `seen`, belongs to `sid`, carries the upload time, is within
   * the size limit and is stored under its id; the session lists those ids after its
   * earlier ones; earlier documents are untouched; nothing else is stored; and the
   * lists of other sessions are unchanged.
   */
  ghost predicate Recorded(d0: Docs, r: Docs, added: seq<DocumentMetadata>, sid: string, now: int, seen: seq<string>) {
    && (forall m | m in added ::
          m.documentId in seen && m.sessionId == sid && m.uploadedAt == now && m.fileSize <= MaxFileSizeBytes
          && m.documentId in r.documents && r.documents[m.documentId] == m)
    && SessionDocIds(r, sid) == SessionDocIds(d0, sid) + IdsOf(added)
    && (forall k | k in d0.documents :: k in r.documents && r.documents[k] == d0.documents[k])
    && (forall k | k in r.documents && k !in d0.documents :: k in IdsOf(added))
    && (forall s | s != sid :: (s in r.sessionDocuments <==> s in d0.sessionDocuments))
    && (forall s | s != sid && s in d0.sessionDocuments :: r.sessionDocuments[s] == d0.sessionDocuments[s])
  }

  lemma FileStepRecorded(d0: Docs, q: Progress, added: seq<DocumentMetadata>, file: Upload, id: string, seen: seq<string>,
                         sid: string, validUuid: string -> bool, digest: seq<bv8> -> string, now: int)
    requires Recorded(d0, q.docs, added, sid, now, seen)
    requires id !in seen && id !in d0.documents
    ensures var r := FileStep(q, file, id, sid, validUuid, digest, now);
      |q.successful| <= |r.successful| && Recorded(d0, r.docs, added + r.successful[|q.successful|..], sid, now, seen + [id])
  {
    var r := FileStep(q, file, id, sid, validUuid, digest, now);
    FileStepIff(q, file, id, sid, validUuid, digest, now);
    if ValidateFile(file).0 && file.content.Success? && |file.content.value| <= MaxFileSizeBytes && file.storeFailure.None? {
      FileStepAccepts(q, file, id, sid, validUuid, digest, now);
      var m := r.successful[|q.successful|];
      assert r.successful[|q.successful|..] == [m];
      RecordKeeps(d0, q.docs, added, m, sid, now, seen);
    } else {
      assert r.successful[|q.successful|..] == [];
      assert added + [] == added;
      SeenGrows(d0, q.docs, added, sid, now, seen, id);
    }
  }

  lemma SeenGrows(d0: Docs, d: Docs, added: seq<DocumentMetadata>, sid: string, now: int, seen: seq<string>, id: string)
    requires Recorded(d0, d, added, sid, now, seen)
    ensures Recorded(d0, d, added, sid, now, seen + [id])
  {
  }

  /** Recording one more fresh document keeps the account. */
  lemma RecordKeeps(d0: Docs, d: Docs, added: seq<DocumentMetadata>, m: DocumentMetadata, sid: string, now: int, seen: seq<string>)
    requires Recorded(d0, d, added, sid, now, seen)
    requires m.documentId !in seen && m.documentId !in d0.documents
    requires m.sessionId == sid && m.uploadedAt == now && m.fileSize <= MaxFileSizeBytes
    ensures Recorded(d0, Record(d, sid, m.documentId, m), added + [m], sid, now, seen + [m.documentId])
  {
    var r := Record(d, sid, m.documentId, m);
    RecordKeepsAdded(d, added, m, sid, now, seen);
    IdsOfSnoc(added, m);
  }

  lemma IdsOfSnoc(ms: seq<DocumentMetadata>, m: DocumentMetadata)
    ensures IdsOf(ms + [m]) == IdsOf(ms) + [m.documentId]
  {
  }

  /** The documents recorded so far, and the new one, are stored as recorded. */
  lemma RecordKeepsAdded(d: Docs, added: seq<DocumentMetadata>, m: DocumentMetadata, sid: string, now: int, seen: seq<string>)
    requires forall m' | m' in added ::
      m'.documentId in seen && m'.sessionId == sid && m'.uploadedAt == now && m'.fileSize <= MaxFileSizeBytes
      && m'.documentId in d.documents && d.documents[m'.documentId] == m'
    requires m.documentId !in seen
    requires m.sessionId == sid && m.uploadedAt == now && m.fileSize <= MaxFileSizeBytes
    ensures var r := Record(d, sid, m.documentId, m);
      forall m' | m' in added + [m] ::
        m'.documentId in seen + [m.documentId] && m'.sessionId == sid && m'.uploadedAt == now && m'.fileSize <= MaxFileSizeBytes
        && m'.documentId in r.documents && r.documents[m'.documentId] == m'
  {
    var r := Record(d, sid, m.documentId, m);
    forall m' | m' in added + [m]
      ensures m'.documentId in seen + [m.documentId] && m'.documentId in r.documents && r.documents[m'.documentId] == m'
    {
      if m' in added {
        assert m'.documentId != m.documentId;
      }
    }
  }

  /** The upload loop, given ids that are distinct and not yet stored, records exactly its successes. */
  lemma {:induction false} FilesRecorded(p: Progress, files: seq<Upload>, ids: seq<string>, sid: string, validUuid: string -> bool, digest: seq<bv8> -> string, now: int)
    requires |ids| == |files|
    requires forall i, j | 0 <= i < j < |ids| :: ids[i] != ids[j]
    requires forall i | 0 <= i < |ids| :: ids[i] !in p.docs.documents
    ensures var r := FilesOutcome(p, files, ids, sid, validUuid, digest, now);
      |p.successful| <= |r.successful| && Recorded(p.docs, r.docs, r.successful[|p.successful|..], sid, now, ids)
    decreases |files|
  {
    var r := FilesOutcome(p, files, ids, sid, validUuid, digest, now);
    if files == [] {
      assert r.successful[|p.successful|..] == [];
      assert IdsOf([]) == [];
    } else {
      var n := |files| - 1;
      FreshPrefix(ids, p.docs.documents, n);
      FilesRecorded(p, files[..n], ids[..n], sid, validUuid, digest, now);
      FilesOutcomeSnoc(p, files, ids, sid, validUuid, digest, now);
      OneEntryPerFile(p, files[..n], ids[..n], sid, validUuid, digest, now);
      var q := FilesOutcome(p, files[..n], ids[..n], sid, validUuid, digest, now);
      FilesRecordedStep(p, q, files[n], ids[n], ids[..n], sid, validUuid, digest, now);
      assert ids[..n + 1] == ids;
    }
  }

  /** The prefix of distinct fresh ids is distinct and fresh, and misses the next id. */
  lemma FreshPrefix(ids: seq<string>, documents: map<string, DocumentMetadata>, n: nat)
    requires n < |ids|
    requires forall i, j | 0 <= i < j < |ids| :: ids[i] != ids[j]
    requires forall i | 0 <= i < |ids| :: ids[i] !in documents
    ensures forall i, j | 0 <= i < j < |ids[..n]| :: ids[..n][i] != ids[..n][j]
    ensures forall i | 0 <= i < |ids[..n]| :: ids[..n][i] !in documents
    ensures ids[n] !in ids[..n] && ids[n] !in documents
    ensures ids[..n + 1] == ids[..n] + [ids[n]]
  {
  }

  /** One more round of the upload loop, with a fresh id, keeps the account of what the loop recorded. */
  lemma FilesRecordedStep(p: Progress, q: Progress, file: Upload, id: string, seen: seq<string>,
                          sid: string, validUuid: string -> bool, digest: seq<bv8> -> string, now: int)
    requires |p.successful| <= |q.successful| && Recorded(p.docs, q.docs, q.successful[|p.successful|..], sid, now, seen)
    requires p.successful <= q.successful
    requires id !in seen && id !in p.docs.documents
    ensures var r := FileStep(q, file, id, sid, validUuid, digest, now);
      |p.successful| <= |r.successful| && Recorded(p.docs, r.docs, r.successful[|p.successful|..], sid, now, seen + [id])
  {
    var r := FileStep(q, file, id, sid, validUuid, digest, now);
    var addedBefore := q.successful[|p.successful|..];
    FileStepRecorded(p.docs, q, addedBefore, file, id, seen, sid, validUuid, digest, now);
    FileStepEntries(q, file, id, sid, validUuid, digest, now);
    SliceConcat(q.successful, r.successful, |p.successful|);
    assert addedBefore + r.successful[|q.successful|..] == r.successful[|p.successful|..];
  }

  lemma SliceConcat<T>(a: seq<T>, b: seq<T>, i: nat)
    requires a <= b && i <= |a|
    ensures a[i..] + b[|a|..] == b[i..]
  {
    assert b == a + b[|a|..];
  }

  /**
   * A file is accepted exactly when its type is allowed, it could be read, it is at most
   * 10 MiB and it could be written; otherwise it adds one error naming it.
   */
  lemma FileStepIff(p: Progress, file: Upload, documentId: string, sid: string, validUuid: string -> bool, digest: seq<bv8> -> string, now: int)
    ensures var r := FileStep(p, file, documentId, sid, validUuid, digest, now);
      var accepted := ValidateFile(file).0 && file.content.Success? && |file.content.value| <= 10 * 1024 * 1024 && file.storeFailure.None?;
      |r.successful| == |p.successful| + 1 <==> accepted
    ensures var r := FileStep(p, file, documentId, sid, validUuid, digest, now);
      |r.successful| == |p.successful| ==> r.docs == p.docs && r.table == p.table && r.errors == p.errors + [FileRejected(file.filename, r.errors[|p.errors|].reason)]
  {
  }

  /**
   * Once the session checks pass, every file yields one entry; the session stays live and
   * its count rises by the number of successes, never past five.
   */
  lemma UploadAccounting(d: Docs, t: Table, validUuid: string -> bool, digest: seq<bv8> -> string,
                         userId: string, sid: string, files: seq<Upload>, ids: seq<string>, now: int)
    requires |ids| == |files|
    requires Live(t, validUuid, sid, now) && t.sessions[sid].userId == userId && t.sessions[sid].documentCount + |files| <= 5
    ensures var r := UploadOutcome(d, t, validUuid, digest, userId, sid, files, ids, now);
      && |r.successful| + |r.errors| == |files|
      && Live(r.table, validUuid, sid, now)
      && r.table.sessions[sid].documentCount == t.sessions[sid].documentCount + |r.successful| <= 5
  {
    var p := Progress(d, t, [], []);
    OneEntryPerFile(p, files, ids, sid, validUuid, digest, now);
    FilesCounted(p, files, ids, sid, validUuid, digest, now);
  }

  /**
   * A session never ends up holding more than five documents: if it held at most five
   * before an upload, it holds at most five after it.
   */
  lemma UploadKeepsLimit(d: Docs, t: Table, validUuid: string -> bool, digest: seq<bv8> -> string,
                         userId: string, sid: string, files: seq<Upload>, ids: seq<string>, now: int)
    requires |ids| == |files|
    requires Live(t, validUuid, sid, now) ==> t.sessions[sid].documentCount <= 5
    ensures var r := UploadOutcome(d, t, validUuid, digest, userId, sid, files, ids, now);
      Live(r.table, validUuid, sid, now) ==> r.table.sessions[sid].documentCount <= 5
  {
    if Live(t, validUuid, sid, now) && t.sessions[sid].userId == userId && t.sessions[sid].documentCount + |files| <= 5 {
      UploadAccounting(d, t, validUuid, digest, userId, sid, files, ids, now);
    }
  }

  /**
   * Given ids that are distinct and not yet stored, an upload stores exactly its
   * successes, each under its own id in `sid`'s list, and touches no earlier document and
   * no other session's list; a rejected upload changes neither.
   */
  lemma UploadRecords(d: Docs, t: Table, validUuid: string -> bool, digest: seq<bv8> -> string,
                      userId: string, sid: string, files: seq<Upload>, ids: seq<string>, now: int)
    requires |ids| == |files|
    requires forall i, j | 0 <= i < j < |ids| :: ids[i] != ids[j]
    requires forall i | 0 <= i < |ids| :: ids[i] !in d.documents
    ensures var r := UploadOutcome(d, t, validUuid, digest, userId, sid, files, ids, now);
      Recorded(d, r.docs, r.successful, sid, now, ids)
  {
    var r := UploadOutcome(d, t, validUuid, digest, userId, sid, files, ids, now);
    if Live(t, validUuid, sid, now) && t.sessions[sid].userId == userId && t.sessions[sid].documentCount + |files| <= 5 {
      FilesRecorded(Progress(d, t, [], []), files, ids, sid, validUuid, digest, now);
      assert r.successful[0..] == r.successful;
    } else {
      assert r.docs == d && r.successful == [];
      assert IdsOf([]) == [];
    }
  }

  lemma {:induction false} PresentAppend(documents: map<string, DocumentMetadata>, a: seq<string>, b: seq<string>)
    ensures Present(documents, a + b) == Present(documents, a) + Present(documents, b)
    decreases |b|
  {
    if b == [] {
      assert a + b == a;
    } else {
      var n := |b| - 1;
      PresentAppend(documents, a, b[..n]);
      assert (a + b)[..|a + b| - 1] == a + b[..n];
    }
  }

  /** Two stores that agree on `ids` present the same documents for them. */
  lemma {:induction false} PresentSame(m1: map<string, DocumentMetadata>, m2: map<string, DocumentMetadata>, ids: seq<string>)
    requires forall k | k in ids :: (k in m1 <==> k in m2) && (k in m1 ==> m1[k] == m2[k])
    ensures Present(m1, ids) == Present(m2, ids)
    decreases |ids|
  {
    if ids != [] {
      PresentSame(m1, m2, ids[..|ids| - 1]);
    }
  }

  /** Documents stored under their own ids are presented back in order. */
  lemma {:induction false} PresentStored(documents: map<string, DocumentMetadata>, ms: seq<DocumentMetadata>)
    requires forall m | m in ms :: m.documentId in documents && documents[m.documentId] == m
    ensures Present(documents, IdsOf(ms)) == ms
    decreases |ms|
  {
    if ms != [] {
      var n := |ms| - 1;
      PresentStored(documents, ms[..n]);
      assert IdsOf(ms)[..n] == IdsOf(ms[..n]);
      assert ms[..n] + [ms[n]] == ms;
    }
  }

  /**
   * Listing a session's documents after an upload gives what it gave before, followed by
   * the upload's successes in order, provided the new ids are distinct and unused.
   */
  lemma GetAfterUpload(d: Docs, t: Table, validUuid: string -> bool, digest: seq<bv8> -> string,
                       userId: string, sid: string, files: seq<Upload>, ids: seq<string>, now: int)
    requires |ids| == |files|
    requires forall i, j | 0 <= i < j < |ids| :: ids[i] != ids[j]
    requires forall i | 0 <= i < |ids| :: ids[i] !in d.documents && ids[i] !in SessionDocIds(d, sid)
    ensures var r := UploadOutcome(d, t, validUuid, digest, userId, sid, files, ids, now);
      SessionDocuments(r.docs, sid) == SessionDocuments(d, sid) + r.successful
  {
    var r := UploadOutcome(d, t, validUuid, digest, userId, sid, files, ids, now);
    UploadRecords(d, t, validUuid, digest, userId, sid, files, ids, now);
    var before := SessionDocIds(d, sid);
    PresentAppend(r.docs.documents, before, IdsOf(r.successful));
    PresentSame(d.documents, r.docs.documents, before);
    PresentStored(r.docs.documents, r.successful);
  }

  /**
   * Deleting a session's documents forgets its list and exactly the documents on it;
   * every other list stays, and an unknown session changes nothing.
   */
  lemma DeleteSpec(d: Docs, sid: string)
    ensures var r := Delete(d, sid);
      && sid !in r.sessionDocuments
      && SessionDocuments(r, sid) == []
      && (forall s | s != sid :: SessionDocIds(r, s) == SessionDocIds(d, s))
      && (forall k :: k in r.documents <==> k in d.documents && k !in SessionDocIds(d, sid))
      && (forall k | k in r.documents :: r.documents[k] == d.documents[k])
    ensures sid !in d.sessionDocuments ==> Delete(d, sid) == d
  {
  }

  /** Another session whose list shares no id with the deleted one lists the same documents. */
  lemma DeleteKeepsOthers(d: Docs, sid: string, other: string)
    requires other != sid
    requires forall k | k in SessionDocIds(d, other) :: k !in SessionDocIds(d, sid)
    ensures SessionDocuments(Delete(d, sid), other) == SessionDocuments(d, other)
  {
    var r := Delete(d, sid);
    DeleteSpec(d, sid);
    PresentSame(d.documents, r.documents, SessionDocIds(d, other));
  }

  // ---------------------------------------------------------------------------
  // The per-file handler as written

  /**
   * A file reaches the loop's `except` block when its type is allowed and reading it
   * raises, or when it is within the size limit and creating the directory or writing
   * the file raises.
   */
  predicate ReachesHandler(file: Upload) {
    && ValidateFile(file).0
    && (file.content.Failure? || (|file.content.value| <= MaxFileSizeBytes && file.storeFailure.Some?))
  }

  /**
   * How `process_upload` ends as written: it returns its two lists, or the `TypeError`
   * raised inside its `except` block leaves the call, with the bookkeeping and session
   * tables as the files before had left them.
   */
  datatype Ending = Returned(progress: Progress) | RaisedTypeError(docs: Docs, table: Table)

  /**
   * One round of the per-file loop as written. The handler calls `log_error` without
   * the exception argument that function requires, so the call raises `TypeError`
   * before the error entry is appended.
   */
  function FileStepAsWritten(p: Progress, file: Upload, documentId: string, sid: string, validUuid: string -> bool,
                             digest: seq<bv8> -> string, now: int): Ending
  {
    if ReachesHandler(file) then RaisedTypeError(p.docs, p.table)
    else Returned(FileStep(p, file, documentId, sid, validUuid, digest, now))
  }

  /** The per-file loop as written: the first `TypeError` ends it. */
  function FilesOutcomeAsWritten(p: Progress, files: seq<Upload>, ids: seq<string>, sid: string, validUuid: string -> bool,
                                 digest: seq<bv8> -> string, now: int): Ending
    requires |ids| == |files|
    decreases |files|
  {
    if files == [] then Returned(p)
    else
      var n := |files| - 1;
      var prev := FilesOutcomeAsWritten(p, files[..n], ids[..n], sid, validUuid, digest, now);
      if prev.RaisedTypeError? then prev else FileStepAsWritten(prev.progress, files[n], ids[n], sid, validUuid, digest, now)
  }

  /** `process_upload` as written. */
  function UploadOutcomeAsWritten(d: Docs, t: Table, validUuid: string -> bool, digest: seq<bv8> -> string,
                                  userId: string, sid: string, files: seq<Upload>, ids: seq<string>, now: int): Ending
    requires |ids| == |files|
  {
    match Admit(d, t, validUuid, userId, sid, |files|, now)
    case Refused(outcome) => Returned(outcome)
    case Admitted(t3) => FilesOutcomeAsWritten(Progress(d, t3, [], []), files, ids, sid, validUuid, digest, now)
  }

  /**
   * The discrepancy, for one file: where the handler is reached, the loop as written
   * raises with nothing appended, while the handler as intended adds one error naming
   * the file and changes nothing else. For any other file the two agree.
   */
  lemma HandlerLosesEntry(p: Progress, file: Upload, documentId: string, sid: string, validUuid: string -> bool,
                          digest: seq<bv8> -> string, now: int)
    ensures ReachesHandler(file) ==>
      && FileStepAsWritten(p, file, documentId, sid, validUuid, digest, now) == RaisedTypeError(p.docs, p.table)
      && FileStep(p, file, documentId, sid, validUuid, digest, now)
           == p.(errors := p.errors + [FileRejected(file.filename, Raised(if file.content.Failure? then file.content.error else file.storeFailure.value))])
    ensures !ReachesHandler(file) ==>
      FileStepAsWritten(p, file, documentId, sid, validUuid, digest, now) == Returned(FileStep(p, file, documentId, sid, validUuid, digest, now))
  {
  }

  /** A concrete file that shows it: `report.txt` whose read raises. */
  lemma UnreadableReportRaises(p: Progress, documentId: string, sid: string, validUuid: string -> bool, digest: seq<bv8> -> string, now: int)
    ensures var file := Upload(Some("report.txt"), Some("text/plain"), Failure("connection reset"), None);
      && FileStepAsWritten(p, file, documentId, sid, validUuid, digest, now) == RaisedTypeError(p.docs, p.table)
      && FileStep(p, file, documentId, sid, validUuid, digest, now).errors
           == p.errors + [FileRejected(Some("report.txt"), Raised("connection reset"))]
  {
    var file := Upload(Some("report.txt"), Some("text/plain"), Failure("connection reset"), None);
    ReportReachesHandler(file);
    HandlerLosesEntry(p, file, documentId, sid, validUuid, digest, now);
  }

  lemma ReportReachesHandler(file: Upload)
    requires file == Upload(Some("report.txt"), Some("text/plain"), Failure("connection reset"), None)
    ensures ReachesHandler(file)
  {
    TxtType("report");
    ReportName();
  }

  lemma ReportName()
    ensures "report" + ".txt" == "report.txt"
  {
    assert ("report" + ".txt")[6..] == ".txt";
  }

  lemma AsWrittenSnoc(p: Progress, files: seq<Upload>, ids: seq<string>, sid: string, validUuid: string -> bool,
                      digest: seq<bv8> -> string, now: int)
    requires |ids| == |files| && files != []
    ensures var n := |files| - 1;
      var prev := FilesOutcomeAsWritten(p, files[..n], ids[..n], sid, validUuid, digest, now);
      && (prev.RaisedTypeError? ==> FilesOutcomeAsWritten(p, files, ids, sid, validUuid, digest, now) == prev)
      && (prev.Returned? ==>
            FilesOutcomeAsWritten(p, files, ids, sid, validUuid, digest, now)
              == FileStepAsWritten(prev.progress, files[n], ids[n], sid, validUuid, digest, now))
  {
  }

  /** Without a file that reaches the handler, the loop as written and as intended agree. */
  lemma {:induction false} AsWrittenAgrees(p: Progress, files: seq<Upload>, ids: seq<string>, sid: string, validUuid: string -> bool,
                                           digest: seq<bv8> -> string, now: int)
    requires |ids| == |files|
    requires forall i | 0 <= i < |files| :: !ReachesHandler(files[i])
    ensures FilesOutcomeAsWritten(p, files, ids, sid, validUuid, digest, now) == Returned(FilesOutcome(p, files, ids, sid, validUuid, digest, now))
    decreases |files|
  {
    if files != [] {
      var n := |files| - 1;
      assert forall i | 0 <= i < n :: files[..n][i] == files[i];
      AsWrittenAgrees(p, files[..n], ids[..n], sid, validUuid, digest, now);
      AsWrittenSnoc(p, files, ids, sid, validUuid, digest, now);
      FilesOutcomeSnoc(p, files, ids, sid, validUuid, digest, now);
      var q := FilesOutcome(p, files[..n], ids[..n], sid, validUuid, digest, now);
      assert FilesOutcomeAsWritten(p, files, ids, sid, validUuid, digest, now) == FileStepAsWritten(q, files[n], ids[n], sid, validUuid, digest, now);
      HandlerLosesEntry(q, files[n], ids[n], sid, validUuid, digest, now);
    }
  }

  /**
   * With file `k` the first to reach the handler, the loop as written raises, leaving the
   * bookkeeping and session tables exactly as the intended loop leaves them after the
   * files before `k`: those stay recorded and counted, and no list is returned.
   */
  lemma AsWrittenStops(p: Progress, files: seq<Upload>, ids: seq<string>, k: nat, sid: string,
                       validUuid: string -> bool, digest: seq<bv8> -> string, now: int)
    requires |ids| == |files| && k < |files| && ReachesHandler(files[k])
    requires forall i | 0 <= i < k :: !ReachesHandler(files[i])
    ensures var q := FilesOutcome(p, files[..k], ids[..k], sid, validUuid, digest, now);
      FilesOutcomeAsWritten(p, files, ids, sid, validUuid, digest, now) == RaisedTypeError(q.docs, q.table)
  {
    var head, headIds := files[..k + 1], ids[..k + 1];
    assert forall i | 0 <= i <= k :: head[i] == files[i];
    assert head[..k] == files[..k] && headIds[..k] == ids[..k];
    StopsAtLast(p, head, headIds, sid, validUuid, digest, now);
    RaisedStays(p, files, ids, k + 1, sid, validUuid, digest, now);
  }

  lemma StopsAtLast(p: Progress, files: seq<Upload>, ids: seq<string>, sid: string,
                    validUuid: string -> bool, digest: seq<bv8> -> string, now: int)
    requires |ids| == |files| && files != [] && ReachesHandler(files[|files| - 1])
    requires forall i | 0 <= i < |files| - 1 :: !ReachesHandler(files[i])
    ensures var q := FilesOutcome(p, files[..|files| - 1], ids[..|files| - 1], sid, validUuid, digest, now);
      FilesOutcomeAsWritten(p, files, ids, sid, validUuid, digest, now) == RaisedTypeError(q.docs, q.table)
  {
    var n := |files| - 1;
    assert forall i | 0 <= i < n :: files[..n][i] == files[i];
    AsWrittenAgrees(p, files[..n], ids[..n], sid, validUuid, digest, now);
    AsWrittenSnoc(p, files, ids, sid, validUuid, digest, now);
  }

  /** Once the loop as written has raised, the files after that change nothing. */
  lemma {:induction false} RaisedStays(p: Progress, files: seq<Upload>, ids: seq<string>, m: nat, sid: string,
                                       validUuid: string -> bool, digest: seq<bv8> -> string, now: int)
    requires |ids| == |files| && m <= |files|
    requires FilesOutcomeAsWritten(p, files[..m], ids[..m], sid, validUuid, digest, now).RaisedTypeError?
    ensures FilesOutcomeAsWritten(p, files, ids, sid, validUuid, digest, now)
      == FilesOutcomeAsWritten(p, files[..m], ids[..m], sid, validUuid, digest, now)
    decreases |files|
  {
    if m == |files| {
      assert files[..m] == files && ids[..m] == ids;
    } else {
      var n := |files| - 1;
      assert files[..n][..m] == files[..m] && ids[..n][..m] == ids[..m];
      RaisedStays(p, files[..n], ids[..n], m, sid, validUuid, digest, now);
      AsWrittenSnoc(p, files, ids, sid, validUuid, digest, now);
    }
  }

  /**
   * An admitted upload as written raises exactly when one of its files reaches the
   * handler; otherwise it returns what the intended upload returns. A refused upload
   * returns the same in both.
   */
  lemma UploadAsWritten(d: Docs, t: Table, validUuid: string -> bool, digest: seq<bv8> -> string,
                        userId: string, sid: string, files: seq<Upload>, ids: seq<string>, now: int)
    requires |ids| == |files|
    ensures var w := UploadOutcomeAsWritten(d, t, validUuid, digest, userId, sid, files, ids, now);
      && (w.RaisedTypeError? <==> Admit(d, t, validUuid, userId, sid, |files|, now).Admitted? && exists k | 0 <= k < |files| :: ReachesHandler(files[k]))
      && (w.Returned? ==> w.progress == UploadOutcome(d, t, validUuid, digest, userId, sid, files, ids, now))
  {
    var a := Admit(d, t, validUuid, userId, sid, |files|, now);
    if a.Admitted? {
      var p := Progress(d, a.table, [], []);
      if exists k | 0 <= k < |files| :: ReachesHandler(files[k]) {
        var k := FirstWhere(files, ReachesHandler);
        AsWrittenStops(p, files, ids, k, sid, validUuid, digest, now);
      } else {
        AsWrittenAgrees(p, files, ids, sid, validUuid, digest, now);
      }
    }
  }

  /** The first element of `xs` that satisfies `P`. */
  lemma FirstWhere<T>(xs: seq<T>, P: T -> bool) returns (k: nat)
    requires exists k | 0 <= k < |xs| :: P(xs[k])
    ensures k < |xs| && P(xs[k]) && forall i | 0 <= i < k :: !P(xs[i])
  {
    k := 0;
    while !P(xs[k])
      invariant k < |xs| && forall i | 0 <= i < k :: !P(xs[i])
      invariant exists j | k <= j < |xs| :: P(xs[j])
      decreases |xs| - k
    {
      k := k + 1;
    }
  }
}
