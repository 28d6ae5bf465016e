/**
 * What one `Chunker.chunk` call returns, stated over `ChunkSpec`: the strategy gate,
 * ascending order, where each chunk comes from, completeness, distinct identifiers,
 * and that blocks and images with a non-positive page play no part.
 */
module ChunkerProperties {
  import opened Wrappers
  import opened Text
  import opened Schemas
  import opened Normalization
  import opened ChunkIds
  import opened Chunker
  import opened ChunkerParts

  /** Ascending page, and ascending `chunk_index` within a page. */
  predicate Ordered(cs: seq<ChunkMetadata>) {
    forall i, j | 0 <= i < j < |cs| ::
      cs[i].page < cs[j].page || (cs[i].page == cs[j].page && cs[i].chunkIndex < cs[j].chunkIndex)
  }

  /** `c` is the chunk of piece `c.chunkIndex` of its page's split text, carrying that page's image records. */
  ghost predicate ChunkOfPage(ctx: Context, split: string -> seq<string>, blocks: seq<TextBlock>, images: seq<ImageAsset>, c: ChunkMetadata) {
    && c.page in PlacedPages(blocks)
    && PageText(PageBlocks(blocks, c.page)) != []
    && FromPiece(ctx, c.page, split(PageText(PageBlocks(blocks, c.page))), PageImages(images, c.page), c)
  }

  /** Piece `k` of page `p`'s split text survives normalising, so it must become a chunk. */
  ghost predicate PieceKept(split: string -> seq<string>, blocks: seq<TextBlock>, p: int, k: int) {
    && p in PlacedPages(blocks)
    && PageText(PageBlocks(blocks, p)) != []
    && 0 <= k < |split(PageText(PageBlocks(blocks, p)))|
    && Normalize(split(PageText(PageBlocks(blocks, p)))[k]) != []
  }

  // ---------------------------------------------------------------------------
  // One page

  /** Every non-blank piece gives a chunk carrying its position as `chunk_index`. */
  lemma {:induction false} PieceChunksComplete(ctx: Context, page: int, pieces: seq<string>, refs: seq<ImageRef>, k: int)
    requires 0 <= k < |pieces| && Normalize(pieces[k]) != []
    ensures exists c | c in PieceChunks(ctx, page, pieces, refs) :: c.chunkIndex == k
    decreases |pieces|
  {
    var n := |pieces| - 1;
    var prev := PieceChunks(ctx, page, pieces[..n], refs);
    if k == n {
      var id := MakeChunkId(ctx.digest, ctx.sessionId, ctx.documentId, page, n);
      var c := ChunkMetadata(id, ctx.sessionId, ctx.documentId, page, n, Normalize(pieces[n]), refs, ctx.embeddingModel);
      assert PieceChunks(ctx, page, pieces, refs) == prev + [c];
      assert c in PieceChunks(ctx, page, pieces, refs);
    } else {
      assert pieces[..n][k] == pieces[k];
      PieceChunksComplete(ctx, page, pieces[..n], refs, k);
      var c :| c in prev && c.chunkIndex == k;
      assert c in PieceChunks(ctx, page, pieces, refs);
    }
  }

  /**
   * A page's `chunk_index` values are exactly the positions of the pieces that survive
   * normalising: a skipped piece leaves a gap (pieces `["a", " ", "b"]` give 0 and 2).
   */
  lemma PieceChunksIndexIff(ctx: Context, page: int, pieces: seq<string>, refs: seq<ImageRef>, k: int)
    ensures (exists c | c in PieceChunks(ctx, page, pieces, refs) :: c.chunkIndex == k)
        <==> 0 <= k < |pieces| && Normalize(pieces[k]) != []
  {
    if 0 <= k < |pieces| && Normalize(pieces[k]) != [] {
      PieceChunksComplete(ctx, page, pieces, refs, k);
    }
    if c :| c in PieceChunks(ctx, page, pieces, refs) && c.chunkIndex == k {
      assert FromPiece(ctx, page, pieces, refs, c);
    }
  }

  /** Pieces that are already non-empty and normalised, as the semantic wrapper returns, are numbered 0, 1, 2, … without gaps. */
  predicate DenseIndices(r: seq<ChunkMetadata>, n: nat) {
    |r| == n && forall i | 0 <= i < n :: r[i].chunkIndex == i
  }

  lemma {:induction false} NormalPiecesDense(ctx: Context, page: int, pieces: seq<string>, refs: seq<ImageRef>)
    requires forall x | x in pieces :: x != [] && IsNormal(x)
    ensures DenseIndices(PieceChunks(ctx, page, pieces, refs), |pieces|)
    decreases |pieces|
  {
    if pieces != [] {
      var n := |pieces| - 1;
      var prev := PieceChunks(ctx, page, pieces[..n], refs);
      assert forall x | x in pieces[..n] :: x in pieces;
      NormalPiecesDense(ctx, page, pieces[..n], refs);
      assert pieces[n] in pieces;
      NormalizeFixesNormal(pieces[n]);
      var id := MakeChunkId(ctx.digest, ctx.sessionId, ctx.documentId, page, n);
      var c := ChunkMetadata(id, ctx.sessionId, ctx.documentId, page, n, pieces[n], refs, ctx.embeddingModel);
      var r := PieceChunks(ctx, page, pieces, refs);
      assert r == prev + [c];
      forall i | 0 <= i < |pieces| ensures r[i].chunkIndex == i {
        if i < n {
          assert r[i] == prev[i];
        }
      }
    }
  }

  /** With the semantic strategy the indices on a page are dense: 0, 1, …, one per piece. */
  lemma SemanticIndicesDense(ctx: Context, page: int, docs: seq<string>, refs: seq<ImageRef>)
    ensures DenseIndices(PieceChunks(ctx, page, SemanticPieces(docs), refs), |SemanticPieces(docs)|)
  {
    NormalPiecesDense(ctx, page, SemanticPieces(docs), refs);
  }

  // ---------------------------------------------------------------------------
  // All pages

  /** The chunks of page `p` alone are chunks of that page's pieces. */
  lemma PageChunksFrom(ctx: Context, split: string -> seq<string>, blocks: seq<TextBlock>, images: seq<ImageAsset>, p: int)
    requires p in PlacedPages(blocks)
    ensures forall c | c in PageChunks(ctx, split, p, PageBlocks(blocks, p), PageImages(images, p)) ::
      c.page == p && ChunkOfPage(ctx, split, blocks, images, c)
  {
    var text := PageText(PageBlocks(blocks, p));
    var last := PageChunks(ctx, split, p, PageBlocks(blocks, p), PageImages(images, p));
    if text != [] {
      var refs := PageImages(images, p);
      assert last == PieceChunks(ctx, p, split(text), refs);
      forall c | c in last ensures c.page == p && ChunkOfPage(ctx, split, blocks, images, c) {
        assert FromPiece(ctx, p, split(text), refs, c);
      }
    }
  }

  lemma {:induction false} PagesChunksFrom(ctx: Context, split: string -> seq<string>, blocks: seq<TextBlock>, images: seq<ImageAsset>, pages: seq<int>)
    requires forall p | p in pages :: p in PlacedPages(blocks)
    ensures forall c | c in PagesChunks(ctx, split, blocks, images, pages) :: c.page in pages && ChunkOfPage(ctx, split, blocks, images, c)
    decreases |pages|
  {
    if pages != [] {
      var n := |pages| - 1;
      var p := pages[n];
      var prev := PagesChunks(ctx, split, blocks, images, pages[..n]);
      var last := PageChunks(ctx, split, p, PageBlocks(blocks, p), PageImages(images, p));
      assert PagesChunks(ctx, split, blocks, images, pages) == prev + last;
      assert forall q | q in pages[..n] :: q in pages;
      PagesChunksFrom(ctx, split, blocks, images, pages[..n]);
      PageChunksFrom(ctx, split, blocks, images, p);
      forall c: ChunkMetadata | c in prev + last ensures c.page in pages && ChunkOfPage(ctx, split, blocks, images, c) {
        if c in prev {
          assert c.page in pages[..n];
        } else {
          assert c in last;
        }
      }
    }
  }

  lemma IncreasingPrefix(pages: seq<int>)
    requires pages != [] && Increasing(pages)
    ensures Increasing(pages[..|pages| - 1])
  {
  }

  /** In an increasing list, every page before the last lies below it. */
  lemma PrefixBelowLast(pages: seq<int>, q: int)
    requires pages != [] && Increasing(pages)
    requires q in pages[..|pages| - 1]
    ensures q < pages[|pages| - 1]
  {
    var i :| 0 <= i < |pages| - 1 && pages[..|pages| - 1][i] == q;
    assert pages[i] == q;
  }

  lemma InPrefix(pages: seq<int>, p: int)
    requires p in pages && pages[|pages| - 1] != p
    ensures p in pages[..|pages| - 1]
  {
    var i :| 0 <= i < |pages| && pages[i] == p;
    assert pages[..|pages| - 1][i] == p;
  }

  lemma OrderedAppend(a: seq<ChunkMetadata>, b: seq<ChunkMetadata>)
    requires Ordered(a) && Ordered(b)
    requires forall x, y | x in a && y in b :: x.page < y.page
    ensures Ordered(a + b)
  {
    var ab := a + b;
    forall i, j | 0 <= i < j < |ab|
      ensures ab[i].page < ab[j].page || (ab[i].page == ab[j].page && ab[i].chunkIndex < ab[j].chunkIndex)
    {
      if j < |a| {
        assert ab[i] == a[i] && ab[j] == a[j];
      } else if i >= |a| {
        assert ab[i] == b[i - |a|] && ab[j] == b[j - |a|];
      } else {
        assert ab[i] in a && ab[j] in b;
      }
    }
  }

  lemma PageChunksOrdered(ctx: Context, split: string -> seq<string>, p: int, blocks: seq<TextBlock>, refs: seq<ImageRef>)
    ensures Ordered(PageChunks(ctx, split, p, blocks, refs))
    ensures forall c | c in PageChunks(ctx, split, p, blocks, refs) :: c.page == p
  {
    var text := PageText(blocks);
    if text != [] {
      var r := PieceChunks(ctx, p, split(text), refs);
      assert PageChunks(ctx, split, p, blocks, refs) == r;
      PieceChunksIncreasing(ctx, p, split(text), refs);
      forall i, j | 0 <= i < j < |r|
        ensures r[i].page < r[j].page || (r[i].page == r[j].page && r[i].chunkIndex < r[j].chunkIndex)
      {
        assert r[i] in r && r[j] in r;
      }
    }
  }

  lemma {:induction false} PagesChunksOrdered(ctx: Context, split: string -> seq<string>, blocks: seq<TextBlock>, images: seq<ImageAsset>, pages: seq<int>)
    requires Increasing(pages)
    ensures Ordered(PagesChunks(ctx, split, blocks, images, pages))
    ensures forall c | c in PagesChunks(ctx, split, blocks, images, pages) :: c.page in pages
    decreases |pages|
  {
    if pages != [] {
      var n := |pages| - 1;
      var p := pages[n];
      var prev := PagesChunks(ctx, split, blocks, images, pages[..n]);
      var last := PageChunks(ctx, split, p, PageBlocks(blocks, p), PageImages(images, p));
      assert PagesChunks(ctx, split, blocks, images, pages) == prev + last;
      IncreasingPrefix(pages);
      PagesChunksOrdered(ctx, split, blocks, images, pages[..n]);
      PageChunksOrdered(ctx, split, p, PageBlocks(blocks, p), PageImages(images, p));
      forall x, y | x in prev && y in last ensures x.page < y.page {
        PrefixBelowLast(pages, x.page);
      }
      forall c: ChunkMetadata | c in prev + last ensures c.page in pages {
        if c in prev {
          assert c.page in pages[..n];
        }
      }
      OrderedAppend(prev, last);
    }
  }

  lemma {:induction false} PagesChunksComplete(ctx: Context, split: string -> seq<string>, blocks: seq<TextBlock>, images: seq<ImageAsset>, pages: seq<int>, p: int, k: int)
    requires p in pages && PieceKept(split, blocks, p, k)
    ensures exists c | c in PagesChunks(ctx, split, blocks, images, pages) :: c.page == p && c.chunkIndex == k
    decreases |pages|
  {
    var n := |pages| - 1;
    var prev := PagesChunks(ctx, split, blocks, images, pages[..n]);
    var last := PageChunks(ctx, split, pages[n], PageBlocks(blocks, pages[n]), PageImages(images, pages[n]));
    assert PagesChunks(ctx, split, blocks, images, pages) == prev + last;
    if pages[n] == p {
      var pieces := split(PageText(PageBlocks(blocks, p)));
      assert last == PieceChunks(ctx, p, pieces, PageImages(images, p));
      PieceChunksComplete(ctx, p, pieces, PageImages(images, p), k);
      var c :| c in last && c.chunkIndex == k;
      assert FromPiece(ctx, p, pieces, PageImages(images, p), c);
      assert c in prev + last;
    } else {
      InPrefix(pages, p);
      PagesChunksComplete(ctx, split, blocks, images, pages[..n], p, k);
      var c :| c in prev && c.page == p && c.chunkIndex == k;
      assert c in prev + last;
    }
  }

  // ---------------------------------------------------------------------------
  // One `chunk` call

  /** An unknown strategy raises; a known one returns a list. */
  lemma StrategyGate(
    doc: DocumentContent, sessionId: string, documentId: string, strategy: string, embeddingModel: string,
    recursiveSplit: string -> seq<string>, semanticDocs: string -> seq<string>, digest: string -> string)
    ensures ChunkSpec(doc, sessionId, documentId, strategy, embeddingModel, recursiveSplit, semanticDocs, digest).Failure?
        <==> strategy != "recursive" && strategy != "semantic"
  {
  }

  /** The chunks come in ascending page order, and in ascending `chunk_index` order within a page. */
  lemma ChunksOrdered(
    doc: DocumentContent, sessionId: string, documentId: string, strategy: string, embeddingModel: string,
    recursiveSplit: string -> seq<string>, semanticDocs: string -> seq<string>, digest: string -> string)
    requires ChunkSpec(doc, sessionId, documentId, strategy, embeddingModel, recursiveSplit, semanticDocs, digest).Success?
    ensures Ordered(ChunkSpec(doc, sessionId, documentId, strategy, embeddingModel, recursiveSplit, semanticDocs, digest).value)
  {
    var split := SplitterFor(strategy, recursiveSplit, semanticDocs).value;
    var ctx := Context(sessionId, documentId, embeddingModel, digest);
    PagesChunksOrdered(ctx, split, doc.textBlocks, doc.images, SortedPages(PlacedPages(doc.textBlocks)));
  }

  /**
   * Each chunk belongs to a page some block is on; its text is the normalised, non-empty
   * piece at position `chunk_index` of that page's split text; its `image_refs` are
   * exactly that page's image records, each on that page; its identifier is the digest
   * of its key, and it carries the call's session, document and model.
   */
  lemma ChunksProvenance(
    doc: DocumentContent, sessionId: string, documentId: string, strategy: string, embeddingModel: string,
    recursiveSplit: string -> seq<string>, semanticDocs: string -> seq<string>, digest: string -> string)
    requires ChunkSpec(doc, sessionId, documentId, strategy, embeddingModel, recursiveSplit, semanticDocs, digest).Success?
    ensures forall c | c in ChunkSpec(doc, sessionId, documentId, strategy, embeddingModel, recursiveSplit, semanticDocs, digest).value ::
      && ChunkOfPage(Context(sessionId, documentId, embeddingModel, digest), SplitterFor(strategy, recursiveSplit, semanticDocs).value, doc.textBlocks, doc.images, c)
      && c.page > 0
      && IsNormal(c.text)
      && (forall ref | ref in c.imageRefs :: ref.page == c.page)
  {
    var split := SplitterFor(strategy, recursiveSplit, semanticDocs).value;
    var ctx := Context(sessionId, documentId, embeddingModel, digest);
    var pages := SortedPages(PlacedPages(doc.textBlocks));
    PagesChunksFrom(ctx, split, doc.textBlocks, doc.images, pages);
    forall c | c in PagesChunks(ctx, split, doc.textBlocks, doc.images, pages) ensures IsNormal(c.text) {
      NormalizeIsNormal(split(PageText(PageBlocks(doc.textBlocks, c.page)))[c.chunkIndex]);
    }
  }

  /** Every piece that survives normalising, on every page with text, is returned as a chunk. */
  lemma ChunksComplete(
    doc: DocumentContent, sessionId: string, documentId: string, strategy: string, embeddingModel: string,
    recursiveSplit: string -> seq<string>, semanticDocs: string -> seq<string>, digest: string -> string, p: int, k: int)
    requires ChunkSpec(doc, sessionId, documentId, strategy, embeddingModel, recursiveSplit, semanticDocs, digest).Success?
    requires PieceKept(SplitterFor(strategy, recursiveSplit, semanticDocs).value, doc.textBlocks, p, k)
    ensures exists c | c in ChunkSpec(doc, sessionId, documentId, strategy, embeddingModel, recursiveSplit, semanticDocs, digest).value ::
      c.page == p && c.chunkIndex == k
  {
    var split := SplitterFor(strategy, recursiveSplit, semanticDocs).value;
    var ctx := Context(sessionId, documentId, embeddingModel, digest);
    var pages := SortedPages(PlacedPages(doc.textBlocks));
    PagesChunksComplete(ctx, split, doc.textBlocks, doc.images, pages, p, k);
  }

  /** Under an injective digest no two chunks of one call share an identifier. */
  lemma ChunkIdsUnique(
    doc: DocumentContent, sessionId: string, documentId: string, strategy: string, embeddingModel: string,
    recursiveSplit: string -> seq<string>, semanticDocs: string -> seq<string>, digest: string -> string)
    requires Injective(digest)
    requires ChunkSpec(doc, sessionId, documentId, strategy, embeddingModel, recursiveSplit, semanticDocs, digest).Success?
    ensures var cs := ChunkSpec(doc, sessionId, documentId, strategy, embeddingModel, recursiveSplit, semanticDocs, digest).value;
      forall i, j | 0 <= i < j < |cs| :: cs[i].chunkId != cs[j].chunkId
  {
    var cs := ChunkSpec(doc, sessionId, documentId, strategy, embeddingModel, recursiveSplit, semanticDocs, digest).value;
    ChunksOrdered(doc, sessionId, documentId, strategy, embeddingModel, recursiveSplit, semanticDocs, digest);
    ChunksProvenance(doc, sessionId, documentId, strategy, embeddingModel, recursiveSplit, semanticDocs, digest);
    forall i, j | 0 <= i < j < |cs| ensures cs[i].chunkId != cs[j].chunkId {
      assert cs[i] in cs && cs[j] in cs;
      ChunkIdsDiffer(digest, sessionId, documentId, cs[i].page, cs[i].chunkIndex, cs[j].page, cs[j].chunkIndex);
    }
  }

  // ---------------------------------------------------------------------------
  // Blocks and images without a positive page

  /** The blocks whose page is positive, in order. */
  function PositiveBlocks(blocks: seq<TextBlock>): (r: seq<TextBlock>)
    ensures forall b | b in r :: b.page > 0
    decreases |blocks|
  {
    if blocks == [] then []
    else
      var b := blocks[|blocks| - 1];
      if b.page > 0 then PositiveBlocks(blocks[..|blocks| - 1]) + [b] else PositiveBlocks(blocks[..|blocks| - 1])
  }

  /** The images whose page is positive, in order. */
  function PositiveImages(images: seq<ImageAsset>): (r: seq<ImageAsset>)
    ensures forall x | x in r :: x.page > 0
    decreases |images|
  {
    if images == [] then []
    else
      var x := images[|images| - 1];
      if x.page > 0 then PositiveImages(images[..|images| - 1]) + [x] else PositiveImages(images[..|images| - 1])
  }

  lemma PageBlocksSnoc(blocks: seq<TextBlock>, b: TextBlock, p: int)
    ensures PageBlocks(blocks + [b], p) == PageBlocks(blocks, p) + (if b.page > 0 && b.page == p then [b] else [])
    ensures PlacedPages(blocks + [b]) == PlacedPages(blocks) + (if b.page > 0 then {b.page} else {})
  {
    assert (blocks + [b])[..|blocks|] == blocks;
  }

  lemma PageImagesSnoc(images: seq<ImageAsset>, x: ImageAsset, p: int)
    ensures PageImages(images + [x], p) == PageImages(images, p) + (if x.page > 0 && x.page == p then [ImageRecord(x)] else [])
  {
    assert (images + [x])[..|images|] == images;
  }

  /** Dropping the blocks without a positive page changes neither a page's blocks nor the set of pages. */
  lemma {:induction false} PositiveBlocksSame(blocks: seq<TextBlock>, p: int)
    ensures PageBlocks(PositiveBlocks(blocks), p) == PageBlocks(blocks, p)
    ensures PlacedPages(PositiveBlocks(blocks)) == PlacedPages(blocks)
    decreases |blocks|
  {
    if blocks != [] {
      var n := |blocks| - 1;
      var b := blocks[n];
      PositiveBlocksSame(blocks[..n], p);
      if b.page > 0 {
        PageBlocksSnoc(PositiveBlocks(blocks[..n]), b, p);
      }
    }
  }

  /** Dropping the images without a positive page changes no page's image records. */
  lemma {:induction false} PositiveImagesSame(images: seq<ImageAsset>, p: int)
    ensures PageImages(PositiveImages(images), p) == PageImages(images, p)
    decreases |images|
  {
    if images != [] {
      var n := |images| - 1;
      var x := images[n];
      PositiveImagesSame(images[..n], p);
      if x.page > 0 {
        PageImagesSnoc(PositiveImages(images[..n]), x, p);
      }
    }
  }

  /** The page loop reads blocks and images only through `PageBlocks` and `PageImages`. */
  lemma {:induction false} PagesChunksCongruent(
    ctx: Context, split: string -> seq<string>, blocks1: seq<TextBlock>, images1: seq<ImageAsset>,
    blocks2: seq<TextBlock>, images2: seq<ImageAsset>, pages: seq<int>)
    requires forall p | p in pages :: PageBlocks(blocks1, p) == PageBlocks(blocks2, p) && PageImages(images1, p) == PageImages(images2, p)
    ensures PagesChunks(ctx, split, blocks1, images1, pages) == PagesChunks(ctx, split, blocks2, images2, pages)
    decreases |pages|
  {
    if pages != [] {
      var n := |pages| - 1;
      var p := pages[n];
      assert forall q | q in pages[..n] :: q in pages;
      PagesChunksCongruent(ctx, split, blocks1, images1, blocks2, images2, pages[..n]);
      assert p in pages;
      var pb, pi := PageBlocks(blocks1, p), PageImages(images1, p);
      assert pb == PageBlocks(blocks2, p) && pi == PageImages(images2, p);
      assert PagesChunks(ctx, split, blocks1, images1, pages)
          == PagesChunks(ctx, split, blocks1, images1, pages[..n]) + PageChunks(ctx, split, p, pb, pi);
      assert PagesChunks(ctx, split, blocks2, images2, pages)
          == PagesChunks(ctx, split, blocks2, images2, pages[..n]) + PageChunks(ctx, split, p, pb, pi);
    }
  }

  /**
   * Blocks and images whose page is not positive play no part: `chunk` gives the same
   * result on the document with them removed.
   */
  lemma UnplacedIgnored(
    doc: DocumentContent, sessionId: string, documentId: string, strategy: string, embeddingModel: string,
    recursiveSplit: string -> seq<string>, semanticDocs: string -> seq<string>, digest: string -> string)
    ensures ChunkSpec(DocumentContent(PositiveBlocks(doc.textBlocks), PositiveImages(doc.images)),
                      sessionId, documentId, strategy, embeddingModel, recursiveSplit, semanticDocs, digest)
         == ChunkSpec(doc, sessionId, documentId, strategy, embeddingModel, recursiveSplit, semanticDocs, digest)
  {
    var blocks, images := PositiveBlocks(doc.textBlocks), PositiveImages(doc.images);
    PositiveBlocksSame(doc.textBlocks, 0);
    forall p ensures PageBlocks(blocks, p) == PageBlocks(doc.textBlocks, p) && PageImages(images, p) == PageImages(doc.images, p) {
      PositiveBlocksSame(doc.textBlocks, p);
      PositiveImagesSame(doc.images, p);
    }
    match SplitterFor(strategy, recursiveSplit, semanticDocs)
    case None =>
    case Some(split) =>
      var ctx := Context(sessionId, documentId, embeddingModel, digest);
      PagesChunksCongruent(ctx, split, blocks, images, doc.textBlocks, doc.images, SortedPages(PlacedPages(doc.textBlocks)));
  }
}
