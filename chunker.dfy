/**
 * `Chunker.chunk`: turns a document's text blocks into page-bounded chunks.
 *
 * Each loop of the source is a method below, proved equal to a function that
 * consumes its input one element at a time from the right (`F(xs)` is defined
 * from `F(xs[..|xs| - 1])`), so that after `i` rounds the loop state is `F(xs[..i])`.
 * What the chunker promises is then proved about those functions.
 */
module Chunker {
  import opened Wrappers
  import opened Text
  import opened Schemas
  import opened Normalization
  import opened ChunkIds

  /** The `ValueError` raised for an unknown strategy. */
  datatype ChunkError = InvalidStrategy

  /** `d.get(p, [])` on a page-keyed dictionary. */
  function Lookup<V>(m: map<int, seq<V>>, p: int): seq<V> {
    if p in m then m[p] else []
  }

  // ---------------------------------------------------------------------------
  // Grouping images and blocks by page

  /** The record attached to chunks for one image: `image_id`, or `image_url` when that is absent or empty. */
  function ImageRecord(img: ImageAsset): ImageRef {
    var id := if img.imageId.Some? && img.imageId.value != [] then img.imageId.value else img.imageUrl;
    ImageRef(id, img.sessionId, img.documentId, img.page, img.imagePath)
  }

  /** `images_by_page.get(p, [])`: the records of the images on page `p`, which must be positive. */
  function PageImages(images: seq<ImageAsset>, p: int): (r: seq<ImageRef>)
    ensures |r| <= |images|
    ensures forall x | x in r :: x.page == p && p > 0
    decreases |images|
  {
    if images == [] then []
    else
      var img := images[|images| - 1];
      PageImages(images[..|images| - 1], p) + (if img.page > 0 && img.page == p then [ImageRecord(img)] else [])
  }

  /** `blocks_by_page.get(p, [])`: the blocks on page `p`, which must be positive, in input order. */
  function PageBlocks(blocks: seq<TextBlock>, p: int): (r: seq<TextBlock>)
    ensures |r| <= |blocks|
    ensures forall x | x in r :: x.page == p && p > 0 && x in blocks
    decreases |blocks|
  {
    if blocks == [] then []
    else
      var b := blocks[|blocks| - 1];
      var r := PageBlocks(blocks[..|blocks| - 1], p) + (if b.page > 0 && b.page == p then [b] else []);
      assert forall x | x in blocks[..|blocks| - 1] :: x in blocks;
      r
  }

  /** `blocks_by_page.keys()`: the positive pages some block is on. */
  function PlacedPages(blocks: seq<TextBlock>): (r: set<int>)
    ensures forall p | p in r :: p > 0
    decreases |blocks|
  {
    if blocks == [] then {}
    else
      var b := blocks[|blocks| - 1];
      PlacedPages(blocks[..|blocks| - 1]) + (if b.page > 0 then {b.page} else {})
  }

  /** A page is a key of `blocks_by_page` exactly when some block landed on it. */
  lemma {:induction false} PlacedPagesIff(blocks: seq<TextBlock>, p: int)
    ensures p in PlacedPages(blocks) <==> PageBlocks(blocks, p) != []
    decreases |blocks|
  {
    if blocks != [] {
      PlacedPagesIff(blocks[..|blocks| - 1], p);
    }
  }

  /** One round of the image loop, for every page at once. */
  lemma PageImagesSnoc(images: seq<ImageAsset>, i: nat)
    requires i < |images|
    ensures images[i].page <= 0 ==> forall p :: PageImages(images[..i + 1], p) == PageImages(images[..i], p)
    ensures images[i].page > 0 ==> forall p :: (PageImages(images[..i + 1], p)
      == if p == images[i].page then PageImages(images[..i], p) + [ImageRecord(images[i])] else PageImages(images[..i], p))
  {
    assert images[..i + 1][..i] == images[..i];
  }

  method GroupImages(images: seq<ImageAsset>) returns (m: map<int, seq<ImageRef>>)
    ensures forall p :: Lookup(m, p) == PageImages(images, p)
  {
    m := map[];
    for i := 0 to |images|
      invariant forall p :: Lookup(m, p) == PageImages(images[..i], p)
    {
      PageImagesSnoc(images, i);
      var image := images[i];
      if image.page <= 0 {
        continue;
      }
      var m0 := m;
      m := m[image.page := Lookup(m, image.page) + [ImageRecord(image)]];
      forall p ensures Lookup(m, p) == PageImages(images[..i + 1], p) {
        assert Lookup(m0, p) == PageImages(images[..i], p);
      }
    }
    assert images[..|images|] == images;
  }

  /** One round of the block loop, for every page at once. */
  lemma PageBlocksSnoc(blocks: seq<TextBlock>, i: nat)
    requires i < |blocks|
    ensures blocks[i].page <= 0 ==> forall p :: PageBlocks(blocks[..i + 1], p) == PageBlocks(blocks[..i], p)
    ensures blocks[i].page > 0 ==> forall p :: (PageBlocks(blocks[..i + 1], p)
      == if p == blocks[i].page then PageBlocks(blocks[..i], p) + [blocks[i]] else PageBlocks(blocks[..i], p))
  {
    assert blocks[..i + 1][..i] == blocks[..i];
  }

  /** The pages of the grouping after one more block. */
  lemma GroupKeysStep(blocks: seq<TextBlock>, i: nat, m0: map<int, seq<TextBlock>>, m: map<int, seq<TextBlock>>)
    requires i < |blocks|
    requires m0.Keys == PlacedPages(blocks[..i])
    requires m == if blocks[i].page > 0 then m0[blocks[i].page := Lookup(m0, blocks[i].page) + [blocks[i]]] else m0
    ensures m.Keys == PlacedPages(blocks[..i + 1])
  {
    assert blocks[..i + 1][..i] == blocks[..i];
  }

  /** The blocks of each page of the grouping after one more block. */
  lemma GroupBlocksStep(blocks: seq<TextBlock>, i: nat, m0: map<int, seq<TextBlock>>, m: map<int, seq<TextBlock>>)
    requires i < |blocks|
    requires forall p :: Lookup(m0, p) == PageBlocks(blocks[..i], p)
    requires m == if blocks[i].page > 0 then m0[blocks[i].page := Lookup(m0, blocks[i].page) + [blocks[i]]] else m0
    ensures forall p :: Lookup(m, p) == PageBlocks(blocks[..i + 1], p)
  {
    PageBlocksSnoc(blocks, i);
    forall p ensures Lookup(m, p) == PageBlocks(blocks[..i + 1], p) {
      assert Lookup(m0, p) == PageBlocks(blocks[..i], p);
    }
  }

  method GroupBlocks(blocks: seq<TextBlock>) returns (m: map<int, seq<TextBlock>>)
    ensures m.Keys == PlacedPages(blocks)
    ensures forall p :: Lookup(m, p) == PageBlocks(blocks, p)
  {
    m := map[];
    for i := 0 to |blocks|
      invariant m.Keys == PlacedPages(blocks[..i])
      invariant forall p :: Lookup(m, p) == PageBlocks(blocks[..i], p)
    {
      var m0 := m;
      var tb := blocks[i];
      if tb.page <= 0 {
        GroupKeysStep(blocks, i, m0, m);
        GroupBlocksStep(blocks, i, m0, m);
        continue;
      }
      m := m[tb.page := Lookup(m, tb.page) + [tb]];
      GroupKeysStep(blocks, i, m0, m);
      GroupBlocksStep(blocks, i, m0, m);
    }
    assert blocks[..|blocks|] == blocks;
  }

  // ---------------------------------------------------------------------------
  // Visiting pages in ascending order

  predicate Increasing(s: seq<int>) {
    forall i, j | 0 <= i < j < |s| :: s[i] < s[j]
  }

  /** The least element of a non-empty set. */
  ghost function MinOf(s: set<int>): (m: int)
    requires s != {}
    ensures m in s && forall x | x in s :: m <= x
    decreases |s|
  {
    if forall z :: z !in s then assert false; 0
    else
    var y :| y in s;
    if s == {y} then y
    else
      var m := MinOf(s - {y});
      assert forall x | x in s :: x == y || x in s - {y};
      if y < m then y else m
  }

  /** `sorted(s)` of a set of pages: strictly increasing, holding exactly the elements of `s`. */
  ghost function SortedPages(s: set<int>): (r: seq<int>)
    ensures Increasing(r)
    ensures forall x :: x in r <==> x in s
    decreases |s|
  {
    if s == {} then []
    else
      var m := MinOf(s);
      var rest := SortedPages(s - {m});
      assert forall i | 0 <= i < |rest| :: m < rest[i] by {
        forall i | 0 <= i < |rest| ensures m < rest[i] {
          assert rest[i] in s - {m};
        }
      }
      [m] + rest
  }

  /** The sorted pages start with the least one. */
  lemma SortedPagesStep(s: set<int>, m: int)
    requires m in s && forall x | x in s :: m <= x
    ensures SortedPages(s) == [m] + SortedPages(s - {m})
  {
    var least := MinOf(s);
    assert m <= least && least <= m;
  }

  lemma AppendAssoc<T>(a: seq<T>, b: seq<T>, c: seq<T>)
    ensures a + (b + c) == (a + b) + c
  {
  }

  /** `sorted(blocks_by_page.keys())`: repeatedly takes the least remaining page. */
  method SortedKeys(s: set<int>) returns (r: seq<int>)
    ensures r == SortedPages(s)
  {
    r := [];
    var rest := s;
    while rest != {}
      invariant r + SortedPages(rest) == SortedPages(s)
      decreases |rest|
    {
      ghost var least := MinOf(rest);
      var m :| m in rest && forall x | x in rest :: m <= x;
      SortedPagesStep(rest, m);
      ghost var tail := SortedPages(rest - {m});
      AppendAssoc(r, [m], tail);
      r := r + [m];
      rest := rest - {m};
    }
  }

  // ---------------------------------------------------------------------------
  // Assembling one page's text

  /** An element of `parts`: a `## <section>` marker, or the normalised text of one block together with its block's section. */
  datatype Part = Marker(heading: string) | Body(text: string, section: Option<string>)

  function Render(p: Part): string {
    match p
    case Marker(heading) => "## " + heading
    case Body(text, _) => text
  }

  function RenderAll(ps: seq<Part>): seq<string>
    decreases |ps|
  {
    if ps == [] then [] else RenderAll(ps[..|ps| - 1]) + [Render(ps[|ps| - 1])]
  }

  /** `_normalize(sec) if sec else None`. */
  function BlockSection(b: TextBlock): Option<string> {
    match b.section
    case Some(sec) => if sec != [] then Some(Normalize(sec)) else None
    case None => None
  }

  /** One round of the block loop: `(parts, last_section)` before and after visiting `b`. */
  function PartsStep(state: (seq<Part>, Option<string>), b: TextBlock): (seq<Part>, Option<string>) {
    var (parts, last) := state;
    var txt := Normalize(b.text);
    if txt == [] then state
    else
      var sec := BlockSection(b);
      if sec.Some? && sec.value != [] && last != sec then (parts + [Marker(sec.value)] + [Body(txt, sec)], sec)
      else (parts + [Body(txt, sec)], last)
  }

  /** `(parts, last_section)` after the block loop has visited `blocks`. */
  function PartsState(blocks: seq<TextBlock>): (seq<Part>, Option<string>)
    decreases |blocks|
  {
    if blocks == [] then ([], None)
    else PartsStep(PartsState(blocks[..|blocks| - 1]), blocks[|blocks| - 1])
  }

  function PageParts(blocks: seq<TextBlock>): seq<Part> {
    PartsState(blocks).0
  }

  /** `"\n\n".join(parts).strip()`. */
  function PageText(blocks: seq<TextBlock>): string {
    Strip(Join(RenderAll(PageParts(blocks)), "\n\n"))
  }

  lemma RenderAllSnoc(ps: seq<Part>, p: Part)
    ensures RenderAll(ps + [p]) == RenderAll(ps) + [Render(p)]
  {
    assert (ps + [p])[..|ps|] == ps;
  }

  lemma PartsStateStep(blocks: seq<TextBlock>, j: nat)
    requires j < |blocks|
    ensures PartsState(blocks[..j + 1]) == PartsStep(PartsState(blocks[..j]), blocks[j])
  {
    assert blocks[..j + 1][..j] == blocks[..j];
  }

  method BuildPageText(blocks: seq<TextBlock>) returns (pageText: string)
    ensures pageText == PageText(blocks)
  {
    var parts: seq<string> := [];
    var lastSection: Option<string> := None;
    for j := 0 to |blocks|
      invariant parts == RenderAll(PartsState(blocks[..j]).0)
      invariant lastSection == PartsState(blocks[..j]).1
    {
      PartsStateStep(blocks, j);
      ghost var before := PartsState(blocks[..j]).0;
      var b := blocks[j];
      var txt := Normalize(b.text);
      if txt == [] {
        continue;
      }
      var sec := BlockSection(b);
      if sec.Some? && sec.value != [] && sec != lastSection {
        RenderAllSnoc(before, Marker(sec.value));
        parts := parts + ["## " + sec.value];
        lastSection := sec;
        before := before + [Marker(sec.value)];
      }
      RenderAllSnoc(before, Body(txt, sec));
      parts := parts + [txt];
    }
    assert blocks[..|blocks|] == blocks;
    pageText := Strip(Join(parts, "\n\n"));
  }

  // ---------------------------------------------------------------------------
  // Splitting and emitting chunks

  /** The fixed inputs of one `chunk` call that every emitted chunk carries. */
  datatype Context = Context(sessionId: string, documentId: string, embeddingModel: string, digest: string -> string)

  /** What a chunk built from `pieces` on `page` with `refs` must hold. */
  predicate FromPiece(ctx: Context, page: int, pieces: seq<string>, refs: seq<ImageRef>, c: ChunkMetadata) {
    && c.chunkIndex < |pieces|
    && c.page == page
    && c.text == Normalize(pieces[c.chunkIndex])
    && c.text != []
    && c.imageRefs == refs
    && c.sessionId == ctx.sessionId
    && c.documentId == ctx.documentId
    && c.embeddingModel == ctx.embeddingModel
    && c.chunkId == MakeChunkId(ctx.digest, ctx.sessionId, ctx.documentId, page, c.chunkIndex)
  }

  /** A chunk built from a prefix of the pieces is also one built from all of them. */
  lemma FromPieceGrow(ctx: Context, page: int, pieces: seq<string>, n: nat, refs: seq<ImageRef>, cs: seq<ChunkMetadata>)
    requires n <= |pieces|
    requires forall c | c in cs :: FromPiece(ctx, page, pieces[..n], refs, c)
    ensures forall c | c in cs :: FromPiece(ctx, page, pieces, refs, c) && c.chunkIndex < n
  {
    forall c | c in cs ensures FromPiece(ctx, page, pieces, refs, c) && c.chunkIndex < n {
      assert FromPiece(ctx, page, pieces[..n], refs, c);
      assert pieces[..n][c.chunkIndex] == pieces[c.chunkIndex];
    }
  }

  /**
   * The chunks of one page after the `enumerate(pieces)` loop: piece `k` becomes a chunk
   * with `chunk_index` `k` unless it normalises to the empty string.
   */
  function PieceChunks(ctx: Context, page: int, pieces: seq<string>, refs: seq<ImageRef>): (r: seq<ChunkMetadata>)
    ensures |r| <= |pieces|
    ensures forall c | c in r :: FromPiece(ctx, page, pieces, refs, c)
    decreases |pieces|
  {
    if pieces == [] then []
    else
      var n := |pieces| - 1;
      var prev := PieceChunks(ctx, page, pieces[..n], refs);
      FromPieceGrow(ctx, page, pieces, n, refs, prev);
      var piece := Normalize(pieces[n]);
      if piece == [] then prev
      else
        var id := MakeChunkId(ctx.digest, ctx.sessionId, ctx.documentId, page, n);
        prev + [ChunkMetadata(id, ctx.sessionId, ctx.documentId, page, n, piece, refs, ctx.embeddingModel)]
  }

  predicate IndicesIncreasing(r: seq<ChunkMetadata>) {
    forall i, j | 0 <= i < j < |r| :: r[i].chunkIndex < r[j].chunkIndex
  }

  /** Within a page, `chunk_index` strictly increases along the output. */
  lemma {:induction false} PieceChunksIncreasing(ctx: Context, page: int, pieces: seq<string>, refs: seq<ImageRef>)
    ensures IndicesIncreasing(PieceChunks(ctx, page, pieces, refs))
    decreases |pieces|
  {
    if pieces != [] {
      var n := |pieces| - 1;
      var prev := PieceChunks(ctx, page, pieces[..n], refs);
      PieceChunksIncreasing(ctx, page, pieces[..n], refs);
      FromPieceGrow(ctx, page, pieces, n, refs, prev);
      var r := PieceChunks(ctx, page, pieces, refs);
      var piece := Normalize(pieces[n]);
      if piece == [] {
        assert r == prev;
      } else {
        var id := MakeChunkId(ctx.digest, ctx.sessionId, ctx.documentId, page, n);
        assert r == prev + [ChunkMetadata(id, ctx.sessionId, ctx.documentId, page, n, piece, refs, ctx.embeddingModel)];
        forall i, j | 0 <= i < j < |r| ensures r[i].chunkIndex < r[j].chunkIndex {
          assert r[i] == prev[i];
          if j < |prev| {
            assert r[j] == prev[j];
          } else {
            assert prev[i] in prev;
            assert r[j].chunkIndex == n;
          }
        }
      }
    }
  }

  method ChunkPieces(ctx: Context, page: int, pieces: seq<string>, refs: seq<ImageRef>) returns (pageChunks: seq<ChunkMetadata>)
    ensures pageChunks == PieceChunks(ctx, page, pieces, refs)
  {
    pageChunks := [];
    for chunkIndex := 0 to |pieces|
      invariant pageChunks == PieceChunks(ctx, page, pieces[..chunkIndex], refs)
    {
      assert pieces[..chunkIndex + 1][..chunkIndex] == pieces[..chunkIndex];
      var piece := Normalize(pieces[chunkIndex]);
      if piece == [] {
        continue;
      }
      var chunkId := MakeChunkId(ctx.digest, ctx.sessionId, ctx.documentId, page, chunkIndex);
      pageChunks := pageChunks + [ChunkMetadata(chunkId, ctx.sessionId, ctx.documentId, page, chunkIndex, piece, refs, ctx.embeddingModel)];
    }
    assert pieces[..|pieces|] == pieces;
  }

  /** One page's chunks: none when the assembled text is empty, and the splitter is then not consulted. */
  function PageChunks(ctx: Context, split: string -> seq<string>, page: int, blocks: seq<TextBlock>, refs: seq<ImageRef>): seq<ChunkMetadata> {
    var text := PageText(blocks);
    if text == [] then [] else PieceChunks(ctx, page, split(text), refs)
  }

  lemma PagesChunksSnoc(ctx: Context, split: string -> seq<string>, blocks: seq<TextBlock>, images: seq<ImageAsset>, pages: seq<int>, k: int)
    requires 0 <= k < |pages|
    ensures PagesChunks(ctx, split, blocks, images, pages[..k + 1])
      == PagesChunks(ctx, split, blocks, images, pages[..k])
         + PageChunks(ctx, split, pages[k], PageBlocks(blocks, pages[k]), PageImages(images, pages[k]))
  {
    assert pages[..k + 1][..k] == pages[..k];
  }

  /** The chunks of the pages `pages`, visited in the given order. */
  function PagesChunks(ctx: Context, split: string -> seq<string>, blocks: seq<TextBlock>, images: seq<ImageAsset>, pages: seq<int>): seq<ChunkMetadata>
    decreases |pages|
  {
    if pages == [] then []
    else
      var p := pages[|pages| - 1];
      PagesChunks(ctx, split, blocks, images, pages[..|pages| - 1]) + PageChunks(ctx, split, p, PageBlocks(blocks, p), PageImages(images, p))
  }

  /**
   * The semantic splitter's wrapper: the documents produced for a text, normalised,
   * with those that normalise to the empty string dropped.
   */
  function SemanticPieces(docs: seq<string>): (r: seq<string>)
    ensures |r| <= |docs|
    ensures forall x | x in r :: x != [] && IsNormal(x)
    decreases |docs|
  {
    if docs == [] then []
    else
      var d := Normalize(docs[|docs| - 1]);
      NormalizeIsNormal(docs[|docs| - 1]);
      SemanticPieces(docs[..|docs| - 1]) + (if d != [] then [d] else [])
  }

  /** The splitter a strategy name selects, or `None` for a name that raises. */
  function SplitterFor(strategy: string, recursiveSplit: string -> seq<string>, semanticDocs: string -> seq<string>): Option<string -> seq<string>> {
    if strategy == "recursive" then Some(recursiveSplit)
    else if strategy == "semantic" then Some(t => SemanticPieces(semanticDocs(t)))
    else None
  }

  /** What `Chunker.chunk` returns or raises. */
  ghost function ChunkSpec(
    doc: DocumentContent, sessionId: string, documentId: string, strategy: string, embeddingModel: string,
    recursiveSplit: string -> seq<string>, semanticDocs: string -> seq<string>, digest: string -> string
  ): Result<seq<ChunkMetadata>, ChunkError>
  {
    match SplitterFor(strategy, recursiveSplit, semanticDocs)
    case None => Failure(InvalidStrategy)
    case Some(split) =>
      var ctx := Context(sessionId, documentId, embeddingModel, digest);
      Success(PagesChunks(ctx, split, doc.textBlocks, doc.images, SortedPages(PlacedPages(doc.textBlocks))))
  }

  /** The page loop of `Chunker.chunk`, over the grouped blocks and images. */
  method ChunkPages(
    ctx: Context, split: string -> seq<string>, doc: DocumentContent,
    blocksByPage: map<int, seq<TextBlock>>, imagesByPage: map<int, seq<ImageRef>>, pages: seq<int>
  ) returns (chunks: seq<ChunkMetadata>)
    requires forall p :: Lookup(blocksByPage, p) == PageBlocks(doc.textBlocks, p)
    requires forall p :: Lookup(imagesByPage, p) == PageImages(doc.images, p)
    requires forall p | p in pages :: p in blocksByPage
    ensures chunks == PagesChunks(ctx, split, doc.textBlocks, doc.images, pages)
  {
    chunks := [];
    for k := 0 to |pages|
      invariant chunks == PagesChunks(ctx, split, doc.textBlocks, doc.images, pages[..k])
    {
      PagesChunksSnoc(ctx, split, doc.textBlocks, doc.images, pages, k);
      var page := pages[k];
      assert page in blocksByPage;
      var pageBlocks := blocksByPage[page];
      assert Lookup(blocksByPage, page) == PageBlocks(doc.textBlocks, page);
      var pageText := BuildPageText(pageBlocks);
      if pageText == [] {
        continue;
      }
      var pieces := split(pageText);
      var imageRefs := Lookup(imagesByPage, page);
      var pageChunks := ChunkPieces(ctx, page, pieces, imageRefs);
      chunks := chunks + pageChunks;
    }
    assert pages[..|pages|] == pages;
  }

  /**
   * `Chunker.chunk`. The two LangChain splitters are parameters: `recursiveSplit` is the
   * recursive character splitter, `semanticDocs` the page contents the semantic chunker
   * creates for a text. `digest` is the SHA-256 hex digest of the chunk key.
   */
  method Chunk(
    doc: DocumentContent, sessionId: string, documentId: string, strategy: string, embeddingModel: string,
    recursiveSplit: string -> seq<string>, semanticDocs: string -> seq<string>, digest: string -> string
  ) returns (r: Result<seq<ChunkMetadata>, ChunkError>)
    ensures r.Failure? <==> strategy != "recursive" && strategy != "semantic"
    ensures r == ChunkSpec(doc, sessionId, documentId, strategy, embeddingModel, recursiveSplit, semanticDocs, digest)
  {
    var imagesByPage := GroupImages(doc.images);
    var blocksByPage := GroupBlocks(doc.textBlocks);

    var splitter := SplitterFor(strategy, recursiveSplit, semanticDocs);
    if splitter.None? {
      return Failure(InvalidStrategy);
    }
    var split := splitter.value;
    var ctx := Context(sessionId, documentId, embeddingModel, digest);

    var pages := SortedKeys(blocksByPage.Keys);
    var chunks := ChunkPages(ctx, split, doc, blocksByPage, imagesByPage, pages);
    return Success(chunks);
  }
}
