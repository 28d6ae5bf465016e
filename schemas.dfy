/** The records that flow between the extractors, the chunker and the upload services. */
module Schemas {
  import opened Wrappers

  /** One logical unit of extracted text, tied to a page and optionally to a section label. */
  datatype TextBlock = TextBlock(text: string, page: int, section: Option<string>)

  /**
   * An extracted image as the chunker reads it. The record schema names its identifier
   * `image_url`; an `image_id` attribute, when present and non-empty, is preferred.
   */
  datatype ImageAsset = ImageAsset(
    imageId: Option<string>,
    imageUrl: string,
    sessionId: string,
    documentId: string,
    page: int,
    imagePath: string)

  /** The self-contained image record the chunker attaches to a chunk's `image_refs`. */
  datatype ImageRef = ImageRef(imageId: string, sessionId: string, documentId: string, page: int, imagePath: string)

  /** The chunker's whole input: the text blocks and the images of one document. */
  datatype DocumentContent = DocumentContent(textBlocks: seq<TextBlock>, images: seq<ImageAsset>)

  /** One retrievable chunk. Session and document identifiers are kept in their `str()` form. */
  datatype ChunkMetadata = ChunkMetadata(
    chunkId: string,
    sessionId: string,
    documentId: string,
    page: int,
    chunkIndex: nat,
    text: string,
    imageRefs: seq<ImageRef>,
    embeddingModel: string)
}
