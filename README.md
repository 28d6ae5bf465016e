# RAG ingestion core, modelled in Dafny

This project models the ingestion side of a retrieval-augmented-generation backend.
Uploaded PDF, DOCX, TXT and Markdown files are accepted into a user's session. Their
text is extracted into page-numbered, section-tagged text blocks. Those blocks are then
cut into chunks that never cross a page, carry the page's image records and get an id
derived from `session|document|page|index`.

The model covers five parts of the backend:

- **Chunk assembler** (`Chunker.chunk`). Modules `Normalization`, `ChunkIds`, `Chunker`,
  `ChunkerParts` and `ChunkerProperties`.
  - The two grouping loops, the sorted walk over pages, the page-text loop and the piece
    loop are methods.
  - Each method is proved equal to a specification function.
  - The promised properties are proved about those functions: order, provenance,
    completeness, index gaps, unique ids, section markers and ignored unplaced blocks.
- **Text extractors.** Modules `Whitespace`, `PdfExtractor`, `DocxExtractor`,
  `TxtExtractor` and `MdExtractor`.
  - `normalize_whitespace` is a pure function.
  - Each `extract` loop is a method proved equal to a fold of one loop step. The page,
    section and text properties of each format are proved about that fold.
- **Session table** (`SessionManager`). A class over the two dictionaries, whose methods
  are specified by functions on a `Table` value. Lemmas cover the user/session
  invariant, creation, expiry, lookup, access, counting and cleanup.
- **Upload bookkeeping** (`DocumentManager`). A class holding the two bookkeeping
  dictionaries and the session manager it consults. Lemmas cover:
  - the early rejections;
  - the per-file rules;
  - one entry per file;
  - the per-session count and the five-file limit;
  - what is recorded, listed and deleted.
- **Loader** (`FileLoader`). The extension gate, the extractor table, and `load_file`
  both as written and as evidently intended (see Findings).

Shared pieces:

- `Text`: Python's `str.isspace`, `strip`, `split`/`join` and decimal `str(int)`.
- `Paths`: the `pathlib` suffix rule.
- `BlockText`: joining lines of a block and page order of blocks.
- `Schemas`, `Constants` and `Wrappers` (`Option`/`Result`).

These are inputs of the model rather than computations:

- the clock (`now`, in microseconds);
- `uuid.UUID` parsing (a predicate `validUuid`);
- the ids `uuid4()` gives (`generated`, `newIds`);
- SHA-256 (`digest`);
- the two LangChain splitters (`recursiveSplit`, and `semanticDocs` for the documents
  `SemanticChunker` would create);
- already-read file contents.

## Model

| member | source | states |
|---|---|---|
| Normalization.ReplaceNbsp | backend/Ingestion/chunker.py:28 | Replacing NBSP by a space keeps the length and the visible characters |
| Normalization.CollapseRuns | backend/Ingestion/chunker.py:29 | Collapsing whitespace runs never lengthens the text, and its first character is the input's, or a space for leading whitespace |
| Normalization.CollapseRunsShape | backend/Ingestion/chunker.py:29 | After collapsing, the only whitespace is plain spaces and no two whitespace characters are adjacent |
| Normalization.CollapseRunsNonSpace | backend/Ingestion/chunker.py:29 | Collapsing keeps exactly the visible characters in order |
| Normalization.NormalizeIsNormal | backend/Ingestion/chunker.py:27-30 | `_normalize` yields only plain spaces, no two adjacent whitespace characters, and nothing to strip at either end |
| Normalization.NormalizeKeepsText | backend/Ingestion/chunker.py:27-30 | `_normalize` keeps exactly the visible characters, in order, and leaves no NBSP |
| Normalization.NormalizeEmptyIff | backend/Ingestion/chunker.py:27-30 | `_normalize` gives the empty string exactly when the input has no visible character |
| Normalization.NormalizeFixesNormal | backend/Ingestion/chunker.py:27-30 | Text already in normal form is returned unchanged |
| Normalization.NormalizeIdempotent | backend/Ingestion/chunker.py:27-30 | Normalising twice equals normalising once |
| Text.Strip | backend/Ingestion/chunker.py:30 | `strip()` never lengthens and leaves no whitespace at either end |
| Text.StripSlice | backend/Ingestion/chunker.py:30 | `strip()` returns a contiguous slice of its input with only whitespace before and after it |
| Text.StripKeepsText | backend/Ingestion/chunker.py:30 | `strip()` keeps the visible characters, and is empty exactly when there is none |
| Text.StripOfStripped | backend/Ingestion/chunker.py:30 | Stripping text with nothing to strip returns it unchanged |
| Text.Split | backend/Ingestion/text_extractor.py:161 | `split(sep)` gives at least one piece, the pieces joined by `sep` are the input, and no piece contains `sep` |
| Text.SplitJoin | backend/Ingestion/text_extractor.py:27 | Splitting the join of separator-free pieces on a one-character separator gives the pieces back |
| Text.IndexOf | backend/Ingestion/text_extractor.py:120 | The substring search finds the leftmost occurrence, or reports that there is none |
| Text.NatToString | backend/Ingestion/chunker.py:34 | `str(n)` of a natural number is a non-empty string of decimal digits |
| Text.ParseNatToString | backend/Ingestion/chunker.py:34 | Reading back the decimal form of a natural number gives the number |
| ChunkIds.IntToString | backend/Ingestion/chunker.py:34 | `str(page)` is non-empty and contains no `\|` |
| ChunkIds.ParseIntToString | backend/Ingestion/chunker.py:34 | Reading back `str(page)` of any integer, negative ones included, gives the integer |
| ChunkIds.KeyAsJoin | backend/Ingestion/chunker.py:34 | The chunk key is the four fields joined by `\|` |
| ChunkIds.ChunkKeyRoundTrip | backend/Ingestion/chunker.py:33-35 | For ids without `\|`, the key parses back to its session, document, page and index |
| ChunkIds.ChunkKeyInjective | backend/Ingestion/chunker.py:33-35 | For ids without `\|`, equal keys mean equal session, document, page and index |
| ChunkIds.ChunkKeyPositionInjective | backend/Ingestion/chunker.py:33-35 | Within one session and document, equal keys mean equal page and index, with no condition on the ids |
| ChunkIds.ChunkIdsDiffer | backend/Ingestion/chunker.py:33-35 | Under an injective digest, different positions of one document get different chunk ids |
| Chunker.PageImages | backend/Ingestion/chunker.py:68-84 | The records for page p are all on page p, and p is positive |
| Chunker.PageBlocks | backend/Ingestion/chunker.py:88-92 | The blocks for page p are input blocks on page p, and p is positive |
| Chunker.PlacedPages | backend/Ingestion/chunker.py:88-92 | Every page that gets a group is positive |
| Chunker.PlacedPagesIff | backend/Ingestion/chunker.py:88-92 | A page gets a group exactly when some block lies on it |
| Chunker.GroupImages | backend/Ingestion/chunker.py:67-84 | The `setdefault().append` loop yields, for every page, exactly that page's image records in input order |
| Chunker.GroupBlocks | backend/Ingestion/chunker.py:87-92 | The loop's keys are exactly the placed pages, and each page's list is that page's blocks in input order |
| Chunker.SortedPages | backend/Ingestion/chunker.py:132 | The sorted page list is strictly increasing and holds exactly the set's elements |
| Chunker.SortedKeys | backend/Ingestion/chunker.py:132 | `sorted(keys)` as a selection loop returns the sorted page list |
| Chunker.BuildPageText | backend/Ingestion/chunker.py:138-154 | The parts loop and the join-and-strip give the page text specification |
| Chunker.PieceChunks | backend/Ingestion/chunker.py:162-180 | At most one chunk per piece; each chunk is the normalised, non-empty piece at its `chunk_index`, with this page, these image records, this call's ids and model, and the digest of its key |
| Chunker.PieceChunksIncreasing | backend/Ingestion/chunker.py:162-175 | Within a page `chunk_index` strictly increases along the output |
| Chunker.ChunkPieces | backend/Ingestion/chunker.py:162-180 | The piece loop returns the page's chunk specification |
| Chunker.ChunkPages | backend/Ingestion/chunker.py:132-180 | The page loop over the grouped dictionaries returns the chunks of the listed pages in order |
| Chunker.SemanticPieces | backend/Ingestion/chunker.py:123-125 | The semantic splitter's pieces are non-empty and already normalised |
| Chunker.Chunk | backend/Ingestion/chunker.py:47-182 | `chunk` fails exactly for a strategy other than `recursive` or `semantic`, and otherwise returns the chunk specification |
| ChunkerParts.PartsStepShape | backend/Ingestion/chunker.py:141-152 | One round of the block loop keeps the markers well placed, each body under its section, and bodies normalised |
| ChunkerParts.PartsStateShape | backend/Ingestion/chunker.py:138-152 | After the block loop, each marker has a non-empty normalised heading, is followed by the body of its block and repeats no heading it directly follows; every body with a section sits under that section's marker |
| ChunkerParts.PagePartsBodies | backend/Ingestion/chunker.py:141-152 | The bodies in the parts are exactly the non-empty normalised block texts, in order; blocks with empty text add nothing, not even a marker |
| ChunkerParts.PagePartsShape | backend/Ingestion/chunker.py:138-152 | The page's parts have the marker and body shape above and their bodies are the block texts |
| ChunkerParts.RenderedHasText | backend/Ingestion/chunker.py:154 | Joining a non-empty list of parts with normalised bodies gives visible text |
| ChunkerParts.PageTextEmptyIff | backend/Ingestion/chunker.py:154-156 | A page's text is empty exactly when none of its blocks has visible text |
| ChunkerProperties.PieceChunksComplete | backend/Ingestion/chunker.py:162-165 | Every piece that is non-empty after normalising becomes a chunk with its position as index |
| ChunkerProperties.PieceChunksIndexIff | backend/Ingestion/chunker.py:162-175 | Index k occurs on a page exactly when piece k exists and is non-empty after normalising, so blank pieces leave gaps |
| ChunkerProperties.NormalPiecesDense | backend/Ingestion/chunker.py:162-175 | When every piece is non-empty and normal, the indices are exactly 0, 1, …, n-1 |
| ChunkerProperties.SemanticIndicesDense | backend/Ingestion/chunker.py:123-125 | With the semantic splitter, which filters blank pieces itself, indices are dense |
| ChunkerProperties.PageChunksFrom | backend/Ingestion/chunker.py:154-180 | Every chunk of a placed page is on that page and comes from a piece of that page's split text, with its image records |
| ChunkerProperties.PagesChunksFrom | backend/Ingestion/chunker.py:132-180 | Every chunk of the page walk is on a walked page and comes from that page |
| ChunkerProperties.PageChunksOrdered | backend/Ingestion/chunker.py:162-180 | A page's chunks are on that page, in increasing index |
| ChunkerProperties.PagesChunksOrdered | backend/Ingestion/chunker.py:132-180 | Over increasing pages, the output is ordered by page and then index |
| ChunkerProperties.PagesChunksComplete | backend/Ingestion/chunker.py:132-180 | Every kept piece of every walked page appears in the output |
| ChunkerProperties.StrategyGate | backend/Ingestion/chunker.py:95-128 | The specification fails exactly for an unknown strategy, and then gives no chunks |
| ChunkerProperties.ChunksOrdered | backend/Ingestion/chunker.py:132-162 | `chunk` output is ordered by ascending page, then ascending index |
| ChunkerProperties.ChunksProvenance | backend/Ingestion/chunker.py:154-180 | Each chunk has a positive page and normalised text; it is the chunk of its piece on that page, carrying exactly that page's image records, all on that page |
| ChunkerProperties.ChunksComplete | backend/Ingestion/chunker.py:154-175 | Every piece that survives normalising on every page with text is returned |
| ChunkerProperties.ChunkIdsUnique | backend/Ingestion/chunker.py:162-167 | Under an injective digest no two chunks of one call share an id |
| ChunkerProperties.PositiveBlocksSame | backend/Ingestion/chunker.py:88-91 | Removing blocks with page ≤ 0 changes no page's group and no placed page |
| ChunkerProperties.PositiveImagesSame | backend/Ingestion/chunker.py:68-71 | Removing images with page ≤ 0 changes no page's records |
| ChunkerProperties.UnplacedIgnored | backend/Ingestion/chunker.py:68-91 | Blocks and images with page ≤ 0 never affect the result |
| Whitespace.DropLeading | backend/Ingestion/text_extractor.py:211 | Dropping a leading run never lengthens, and the result does not start with that character |
| Whitespace.DropLeadingSlice | backend/Ingestion/text_extractor.py:211 | What is dropped is a prefix made only of that character |
| Whitespace.CollapseSpacesNoDouble | backend/Ingestion/text_extractor.py:23 | After `re.sub(' +', ' ')` no two spaces are adjacent |
| Whitespace.CollapseSpacesNonSpace | backend/Ingestion/text_extractor.py:23 | Collapsing spaces keeps the visible characters |
| Whitespace.CollapseNewlinesNoDouble | backend/Ingestion/text_extractor.py:25 | Collapsing newline runs creates no adjacent spaces |
| Whitespace.CollapseNewlinesNonSpace | backend/Ingestion/text_extractor.py:25 | Collapsing newline runs keeps the visible characters |
| Whitespace.RStripAllTrimmed | backend/Ingestion/text_extractor.py:27 | Every right-stripped line is empty or ends in a visible character |
| Whitespace.RStripLinesNoDouble | backend/Ingestion/text_extractor.py:27 | The per-line rstrip creates no adjacent spaces |
| Whitespace.RStripLinesTrimmed | backend/Ingestion/text_extractor.py:27 | After the per-line rstrip no line ends in whitespace |
| Whitespace.JoinRStripNonSpace | backend/Ingestion/text_extractor.py:27 | The per-line rstrip keeps the visible characters |
| Whitespace.NormalizeWhitespaceShape | backend/Ingestion/text_extractor.py:20-28 | `normalize_whitespace` has nothing to strip at either end, no two adjacent spaces, and no line ending in whitespace |
| Whitespace.NormalizeWhitespaceKeepsText | backend/Ingestion/text_extractor.py:20-28 | `normalize_whitespace` keeps exactly the visible characters in order |
| Whitespace.NormalizedEmptyIff | backend/Ingestion/text_extractor.py:20-28 | `normalize_whitespace` is empty exactly when the input has no visible character |
| PdfExtractor.RunLength | backend/Ingestion/text_extractor.py:65-66 | The longest prefix of a character class, as the regexes match it |
| PdfExtractor.LeadCount | backend/Ingestion/text_extractor.py:69-72 | The number of leading heading-like lines: all before it are heading-like, the next is not |
| PdfExtractor.ScanPageLines | backend/Ingestion/text_extractor.py:56-72 | The line loop gives the state of the line fold |
| PdfExtractor.PageScanMatches | backend/Ingestion/text_extractor.py:56-72 | The collected body is the non-blank lines from the first non-heading-like one on; the section is the last heading-like line before it, or none |
| PdfExtractor.ExtractPage | backend/Ingestion/text_extractor.py:45-87 | One page's processing gives the page's block specification |
| PdfExtractor.ExtractPdf | backend/Ingestion/text_extractor.py:39-94 | `extract` gives the blocks of the pages in order, or nothing for an unreadable document |
| PdfExtractor.Collected | backend/Ingestion/text_extractor.py:75-87 | Every emitted block is some page's block |
| PdfExtractor.PageBlockContent | backend/Ingestion/text_extractor.py:47-87 | A page with text gives one block, its body lines under the last leading heading; if every line is heading-like, the whole normalised text with no section |
| PdfExtractor.PageBlockIff | backend/Ingestion/text_extractor.py:45-87 | A page gives a block exactly when its text has a visible character |
| PdfExtractor.PageBlockClean | backend/Ingestion/text_extractor.py:75-87 | A page's block has that page's number and non-empty text with nothing to strip |
| PdfExtractor.PdfBlocksIff | backend/Ingestion/text_extractor.py:43-87 | A block with page p exists exactly when page p exists and has visible text |
| PdfExtractor.PdfBlocksIncreasing | backend/Ingestion/text_extractor.py:43-87 | Block pages strictly increase, so there is at most one block per page |
| PdfExtractor.PdfBlocksFromPages | backend/Ingestion/text_extractor.py:43-87 | Every block is the block of the page its number names |
| DocxExtractor.ExtractDocx | backend/Ingestion/text_extractor.py:105-148 | `extract` gives the paragraph fold's blocks after the final flush, or nothing for an unreadable document |
| DocxExtractor.HeadingStepShape | backend/Ingestion/text_extractor.py:120-131 | A heading with text saves the collected paragraphs, if any, as a block on the current page under the current section. Its stripped text becomes the section, which is the latest heading; the page advances by one and nothing stays collected |
| DocxExtractor.BodyStepShape | backend/Ingestion/text_extractor.py:113-133 | A body paragraph or a blank one changes neither the section, the page nor the saved blocks, and keeps the shape |
| DocxExtractor.DocxScanShape | backend/Ingestion/text_extractor.py:113-133 | After the loop the page is one plus the number of headings and the section is the most recent heading, or none before the first. Every saved block on page k > 1 carries heading number k-1 |
| DocxExtractor.DocxBlocksShape | backend/Ingestion/text_extractor.py:120-141 | Block pages strictly increase and lie in 1..1+headings; texts are non-empty and stripped. A page-1 block has no section, and a block on page k > 1 has the stripped text of heading k-1, the most recent heading before its paragraphs |
| DocxExtractor.DocxKeepsBodyTexts | backend/Ingestion/text_extractor.py:113-141 | The blocks' lines are exactly the non-blank stripped body paragraphs, in order |
| TxtExtractor.Blocks | backend/Ingestion/text_extractor.py:164-170 | The first n rounds give at most n blocks, at most one per paragraph |
| TxtExtractor.BlocksFrom | backend/Ingestion/text_extractor.py:164-170 | Each block is the stripped, non-empty paragraph at its page's position, with no section, on a page not past the rounds done |
| TxtExtractor.BlocksPages | backend/Ingestion/text_extractor.py:164-168 | The first n rounds give blocks on pages 1 to n only |
| TxtExtractor.CollectParagraphs | backend/Ingestion/text_extractor.py:164-170 | The paragraph loop returns the paragraph blocks |
| TxtExtractor.ExtractTxt | backend/Ingestion/text_extractor.py:156-177 | `extract` returns the TXT block specification, or nothing when the read failed |
| TxtExtractor.BlockAt | backend/Ingestion/text_extractor.py:164-170 | Every non-blank paragraph k gives the block of its stripped text on page k |
| TxtExtractor.ParagraphBlocksIff | backend/Ingestion/text_extractor.py:164-170 | A block on page k exists exactly when paragraph k exists and is not blank; blank paragraphs still use up their number |
| TxtExtractor.BlocksIncreasing | backend/Ingestion/text_extractor.py:164-170 | Block pages strictly increase |
| TxtExtractor.TextHasParagraph | backend/Ingestion/text_extractor.py:161-172 | Text with a visible character has a paragraph block, so the fallback is not taken |
| TxtExtractor.TxtBlocksFromParagraphs | backend/Ingestion/text_extractor.py:157-172 | A file with visible text yields exactly its paragraph blocks, on increasing pages, each from its paragraph |
| TxtExtractor.TxtBlankFile | backend/Ingestion/text_extractor.py:172 | A file with no visible text yields the single empty page-1 fallback block |
| TxtExtractor.EmptyTextBlocks | backend/Ingestion/text_extractor.py:172 | Empty text yields the page-1 fallback block |
| MdExtractor.CollectMdLines | backend/Ingestion/text_extractor.py:195-222 | The line loop and the final flush give the line fold's blocks |
| MdExtractor.ExtractMd | backend/Ingestion/text_extractor.py:185-229 | `extract` gives the fold's blocks, the page-1 fallback when there are none, or nothing when the read failed |
| MdExtractor.MdStepShape | backend/Ingestion/text_extractor.py:198-214 | One line keeps the shape: the page is one past the blocks so far, and past page 1 there is a section |
| MdExtractor.MdScanShape | backend/Ingestion/text_extractor.py:195-214 | The shape holds after every line |
| MdExtractor.MdBlocksShape | backend/Ingestion/text_extractor.py:199-224 | Block i is on page i+1, so pages are exactly 1..n; texts are non-empty and stripped; every block after the first has a section. Section values are stated by MdBlockSections |
| MdExtractor.MdKeepsBodyLines | backend/Ingestion/text_extractor.py:213-222 | The blocks' lines are exactly the non-blank stripped non-heading lines, in order |
| MdExtractor.HeadingTextMatch | backend/Ingestion/text_extractor.py:211 | A line of `#`s, then whitespace, then a rest not starting with whitespace has the rest as its heading text |
| MdExtractor.HeadingTextChanges | backend/Ingestion/text_extractor.py:211 | The heading text differs from the line exactly when the line starts with `#`s followed by whitespace; otherwise the line is kept whole |
| MdExtractor.MdBlockSections | backend/Ingestion/text_extractor.py:195-222 | Each block line paired with its block's section gives exactly the body lines in order, each paired with the heading text of the last `#` line before it, or none before the first |
| MdExtractor.MdExtractSections | backend/Ingestion/text_extractor.py:185-224 | The same for a whole file whenever the fallback block is not used |
| BlockText.JoinCleanLines | backend/Ingestion/text_extractor.py:77 | Joining non-empty stripped lines gives non-empty text with nothing to strip |
| Paths.SuffixShape | backend/services/document_manager.py:37 | A suffix is empty, or a `.` and at least one more character, with no further `.` and no `/` |
| Paths.SuffixOfFileName | backend/Ingestion/loader.py:19 | A plain `stem.ext` has suffix `.ext`, so its type depends on `ext` alone |
| Paths.NoDotNoSuffix | backend/Ingestion/loader.py:19 | A name without `.` has no suffix |
| Paths.EmptyNameHasNoExtension | backend/services/document_manager.py:36-37 | A missing file name has an empty suffix |
| Loader.DetectFileTypeIff | backend/Ingestion/loader.py:14-22 | A type is detected exactly when the lower-cased suffix is allowed, and the type is that suffix |
| Loader.ExtractorClassIff | backend/Ingestion/loader.py:24-36 | Exactly the four allowed types have an extractor, each a different one |
| Loader.DetectedTypeHasExtractor | backend/Ingestion/loader.py:14-36 | Every detected type has an extractor |
| Loader.LoadFileIff | backend/Ingestion/loader.py:44-62 | The corrected loader returns both parts or neither: both exactly for an existing, allowed, readable file, and then the type and the bytes |
| Loader.LoadFileDiscards | backend/Ingestion/loader.py:44-58 | For an existing readable `<stem>.txt` the corrected loader returns the type and the bytes, and the loader as written returns `(None, None)` |
| Sessions.SessionManager.constructor | backend/services/session_manager.py:22-24 | A new manager has no sessions and no active users |
| Sessions.SessionManager.ExpireSession | backend/services/session_manager.py:124-141 | Expiring updates the table by the expiry function and keeps the user/session invariant |
| Sessions.SessionManager.GetSession | backend/services/session_manager.py:77-91 | The lookup returns and leaves the table as the lookup function says |
| Sessions.SessionManager.SessionExists | backend/services/session_manager.py:93-95 | True exactly when the session is live; the table changes as a lookup changes it |
| Sessions.SessionManager.CreateSession | backend/services/session_manager.py:36-75 | Creation returns the id or the error, and leaves the table, as the creation function says |
| Sessions.SessionManager.ValidateSessionAccess | backend/services/session_manager.py:97-111 | The access check follows the access function |
| Sessions.SessionManager.IncrementDocumentCount | backend/services/session_manager.py:113-117 | The count update follows the increment function |
| Sessions.SessionManager.GetDocumentCount | backend/services/session_manager.py:119-122 | The count read follows the count function |
| Sessions.SessionManager.CleanupExpiredSessions | backend/services/session_manager.py:153-162 | Expiring each collected id in turn leaves the table without exactly the expired sessions |
| Sessions.ExpireConsistent | backend/services/session_manager.py:124-137 | Expiry keeps every active session existing and owned by its user |
| Sessions.ExpireEffect | backend/services/session_manager.py:124-137 | Expiring an unknown id changes nothing; otherwise only that session goes, and a user mapping goes only when it points at it |
| Sessions.LookupSpec | backend/services/session_manager.py:77-91 | `get_session` finds a session exactly when it is live. A past-expiry session is removed; a malformed or unknown id changes nothing |
| Sessions.LookupConsistent | backend/services/session_manager.py:77-91 | A lookup keeps the invariant |
| Sessions.CreateConsistent | backend/services/session_manager.py:36-72 | Creation, failed or not, keeps the invariant |
| Sessions.CreateRejectsUser | backend/services/session_manager.py:43-44 | An invalid user id raises and changes nothing |
| Sessions.CreateExpiresFirst | backend/services/session_manager.py:47-54 | A bad custom id raises after the user's previous session is already gone |
| Sessions.CreateSuccess | backend/services/session_manager.py:52-72 | On success the id was free once the old session was gone. The new session is the user's, has count 0, lasts 24 hours and is the user's active session; the old one is gone. Every other session and every other user's mapping stay as they were, and no other session appears |
| Sessions.AccessIff | backend/services/session_manager.py:97-111 | Access is granted exactly to the owner of a live session |
| Sessions.IncrementSpec | backend/services/session_manager.py:113-117 | A live session's count rises by exactly one and nothing else changes; otherwise only the lookup's effect happens |
| Sessions.DocumentCountSpec | backend/services/session_manager.py:119-122 | The count is the live session's count, and 0 for a missing or expired one |
| Sessions.WithoutExpire | backend/services/session_manager.py:161-162 | Expiring one more collected id extends the cleaned set by that id |
| Sessions.WithoutConsistent | backend/services/session_manager.py:153-162 | Cleanup keeps the invariant |
| Sessions.CleanupSpec | backend/services/session_manager.py:153-162 | Cleanup removes exactly the sessions past expiry, keeps the others as they were, and drops exactly the users whose session was removed |
| Sessions.LookupAsWrittenRaises | backend/services/session_manager.py:85-89 | As written, looking up an expired session whose directory cannot be removed raises after removing it, where the intended lookup reports no session; otherwise the two agree |
| Documents.DocumentManager.constructor | backend/services/document_manager.py:24-28 | A new manager stores nothing |
| Documents.DocumentManager.CheckSessionFileLimit | backend/services/document_manager.py:46-54 | The verdict and the table follow the limit function |
| Documents.DocumentManager.ProcessUpload | backend/services/document_manager.py:56-138 | The results, the stores and the session table are those of the upload specification, with the per-file handler as intended (see Findings) |
| Documents.DocumentManager.StoreFiles | backend/services/document_manager.py:86-136 | The per-file loop gives the fold of the intended file step over the files |
| Documents.DocumentManager.StoreFile | backend/services/document_manager.py:87-136 | One round of the loop gives the intended file step |
| Documents.DocumentManager.GetSessionDocuments | backend/services/document_manager.py:140-143 | Returns the stored documents listed for the session, in list order, or none for an unknown session |
| Documents.DocumentManager.DeleteSessionDocuments | backend/services/document_manager.py:145-155 | The stores change as the delete function says |
| Documents.AcceptedHasName | backend/services/document_manager.py:36-44 | An accepted file has a name |
| Documents.ValidateFileIff | backend/services/document_manager.py:30-44 | A file is accepted exactly when its lower-cased suffix is allowed. The MIME type never matters, and a rejection names the suffix |
| Documents.CheckLimitIff | backend/services/document_manager.py:46-54 | One more file may come exactly when the count, 0 for a missing session, is below 5 |
| Documents.EarlyRejections | backend/services/document_manager.py:69-83 | A dead session, a foreign owner or too many files gives no success, one error and unchanged stores |
| Documents.TooLargeRejected | backend/services/document_manager.py:96-99 | A file over 10 MiB adds one error and records nothing |
| Documents.FileStepAccepts | backend/services/document_manager.py:101-132 | An accepted file records its metadata, with the digest, time and `len(content)`, and raises the count by one |
| Documents.FileStepIff | backend/services/document_manager.py:86-136 | With the handler as intended, a file succeeds exactly when it is allowed, read, within the limit and written. Otherwise only an error naming it is added |
| Documents.FileStepEntries | backend/services/document_manager.py:86-136 | With the handler as intended, one file adds exactly one entry, after those already there |
| Documents.OneEntryPerFile | backend/services/document_manager.py:86-136 | With the handler as intended, every file adds exactly one success or one error |
| Documents.FileStepCounted | backend/services/document_manager.py:124-130 | One file raises its live session's count by its number of successes and touches no other session |
| Documents.FilesCounted | backend/services/document_manager.py:86-136 | Across the loop the count rises by the number of successes, and nothing else in the table changes |
| Documents.UploadAccounting | backend/services/document_manager.py:79-136 | Past the checks, every file gives one entry and the count rises by the successes, never past 5 |
| Documents.UploadKeepsLimit | backend/services/document_manager.py:79-136 | A session with at most 5 documents before an upload has at most 5 after it |
| Documents.FileStepRecorded | backend/services/document_manager.py:113-127 | One file keeps the bookkeeping invariant, appending any success |
| Documents.FilesRecorded | backend/services/document_manager.py:86-136 | The loop stores exactly its successes under their ids, in the session's list after earlier ones, and touches nothing else |
| Documents.UploadRecords | backend/services/document_manager.py:56-138 | With fresh, distinct ids, an upload records exactly its successes and touches no earlier document and no other session's list |
| Documents.PresentStored | backend/services/document_manager.py:143 | Listing the ids of stored metadata gives that metadata back |
| Documents.GetAfterUpload | backend/services/document_manager.py:123-143 | After an upload the session's documents are those before it followed by the successes, in upload order |
| Documents.DeleteSpec | backend/services/document_manager.py:145-155 | The session's entry and exactly its documents go and every other list stays; an unknown session changes nothing |
| Documents.DeleteKeepsOthers | backend/services/document_manager.py:145-155 | A session sharing no id with the deleted one lists the same documents |
| Documents.HandlerLosesEntry | backend/services/document_manager.py:134-136 | A file that reaches the `except` block makes the step as written raise with nothing appended, where the intended step adds one error naming it; any other file gives the same step in both |
| Documents.UnreadableReportRaises | backend/services/document_manager.py:92-136 | `report.txt` whose read raises: the step as written raises, the intended one adds `report.txt: connection reset` |
| Documents.AsWrittenAgrees | backend/services/document_manager.py:86-136 | Without a file that reaches the handler, the loop as written returns what the intended loop returns |
| Documents.AsWrittenStops | backend/services/document_manager.py:86-136 | At the first file that reaches the handler the loop as written raises, with the stores and table as the intended loop left them after the earlier files |
| Documents.UploadAsWritten | backend/services/document_manager.py:56-138 | `process_upload` as written raises exactly when it passes the checks and some file reaches the handler; otherwise it returns what the intended upload returns |

## Left out

- The LangChain splitters (backend/Ingestion/chunker.py:96-125) are foreign code.
  - The recursive splitter is a function parameter.
  - The semantic splitter is a parameter giving the documents `SemanticChunker` would create. The normalising filter around it is modelled.
  - No bound on piece size or overlap is claimed.
- SHA-256 is a function parameter `digest`. Distinct ids are proved only under the hypothesis that it is injective.
- File reads, pdfplumber and python-docx are not modelled. Extractors take the already-read text:
  - a file's text, or `None` when reading it raised;
  - per-page `extract_text()` results, or `None` for an unreadable PDF;
  - DOCX paragraphs as text plus style name.
- `datetime.utcnow` is the parameter `now`, read once for a whole call. The source reads the clock in every `get_session` and for every `uploaded_at`, and time passes during `await file.read()`.
- Documents.FilesCounted assumes one clock reading for the whole upload. A session that expires partway through an upload is not modelled: as written, its later files are still stored and reported, while their count increments expire and remove the session instead.
- Documents.UploadAccounting relies on the same single clock reading for "the session stays live".
- Documents.DocumentManager.ProcessUpload reads the clock once; see the two lines above.
- `uuid.UUID` parsing is the predicate `validUuid`.
- `uuid4` is the inputs `generated` and `newIds`.
- Writing uploaded bytes to disk is not modelled, since it is a file-system effect; only whether the write raises is an input. Removing a session directory is modelled only by whether it raises, in the as-written lookup.
- Logging is not modelled.
- `async` is not modelled.
- `get_all_sessions` is not modelled.
- The module-level singleton instances are not modelled.
- Text.LowerAscii lowers ASCII letters only. That is exact for the membership tests against `{.pdf, .docx, .txt, .md}`, but not a full `str.lower`.
- PdfExtractor.IsHeading narrows the regex class `\d` to the ASCII digits `0`-`9`. In a Python 3 string pattern `\d` matches every Unicode decimal digit, so a line such as `٣. Intro` is a heading in the source but not in the model. The classes `[A-Z]` and `[a-z]` are ASCII ranges in both. `str.isupper` is modelled as "has an ASCII upper-case letter and no ASCII lower-case one", so non-ASCII cased letters are not modelled.
- Whitespace.NormalizeWhitespaceShape does not claim "no three newlines in a row". The per-line rstrip runs after the newline collapse, so such runs can reappear.
- DocxExtractor.DocxKeepsBodyTexts requires paragraphs without embedded newlines. A DOCX paragraph with line breaks joins into a block whose lines are not one per paragraph.
- Documents.UploadRecords requires the new ids to be distinct and not yet stored, which `uuid4` gives only with overwhelming probability. The same holds for Documents.FilesRecorded and Documents.GetAfterUpload.
- Chunker.ChunkPages leaves out the branch `if not page_blocks: continue` (backend/Ingestion/chunker.py:134). It is dead code, because `setdefault().append` never leaves an empty list.
- The `chunk_index` gaps (backend/Ingestion/chunker.py:162-165) are modelled as written, and ChunkerProperties.PieceChunksIndexIff proves they occur exactly at blank pieces.
- Exceptions inside the per-file upload loop come from reading the content, creating the directory or writing the file. As written, the loop's handler itself raises `TypeError` (see Findings). The manager's methods model the handler as intended, which turns each such exception into the `Raised` error and goes on.
- Documents.DocumentManager.ProcessUpload models the intended handler. As written the call ends with `TypeError` at the first file whose read or write raises; Documents.UploadAsWritten states that behaviour.
- Documents.DocumentManager.StoreFiles models the intended handler; as written the loop stops at the first such file (Documents.AsWrittenStops).
- Documents.DocumentManager.StoreFile models the intended handler; as written such a file raises and gets no entry (Documents.HandlerLosesEntry).
- Documents.FileStepIff is about the intended step; as written a read or write failure adds no error and raises.
- Documents.FileStepEntries is about the intended step; as written a file that reaches the handler adds no entry.
- Documents.OneEntryPerFile is about the intended loop; as written the entries stop at the first file that reaches the handler.
- Documents.UploadAccounting is about the intended loop. As written, "one entry per file" holds only when no file reaches the handler (Documents.AsWrittenAgrees).
- MdExtractor.MdBlocksShape states only that every block after the first has a section. The section values are stated by MdExtractor.MdBlockSections, which requires lines without `\n`, as the extractor's own lines are (MdExtractor.SplitLinesQualify).
- Removing a session's directory is a parameter `removalFails` of the as-written lookup only. The session manager's methods model the cleanup as a no-op that never raises.

## Findings

| source | as written | input that shows it | evidently intended | confidence | as-written member | corrected member |
|---|---|---|---|---|---|---|
| backend/services/document_manager.py:134-136 | The per-file `except` block calls `log_error` without its required `error` argument (backend/core/logging.py:83-84), so the handler raises `TypeError`: the error entry is never appended and the exception leaves `process_upload`, ending the loop | an allowed `report.txt` whose `await file.read()` raises | append `<filename>: <message>` to the errors and go on to the next file | not executed | Documents.FileStepAsWritten, Documents.UploadOutcomeAsWritten, Documents.HandlerLosesEntry, Documents.UnreadableReportRaises, Documents.AsWrittenStops | Documents.FileStep, Documents.FileStepIff, Documents.OneEntryPerFile |
| backend/services/session_manager.py:143-151 | The cleanup handler calls `log_error` without its required `error` argument, so a failing `shutil.rmtree` raises `TypeError` out of `expire_session`, after the session is removed, and out of `get_session` and every operation that looks a session up | an expired session whose directory exists but cannot be removed, looked up by `session_exists` | log the failure and return normally, so the lookup reports no session | not executed | Sessions.LookupAsWritten, Sessions.LookupAsWrittenRaises | Sessions.Lookup, Sessions.LookupSpec |
| backend/Ingestion/loader.py:45-48 | `return None, None` sits at the `try` level after the missing-file `if`, so every call returns `(None, None)` and the type check and read never run | an existing, readable `report.txt` | return `(".txt", <bytes>)` for an existing readable file of an allowed type | not executed | Loader.LoadFileAsWritten, Loader.LoadFileDiscards | Loader.LoadFile, Loader.LoadFileIff |
