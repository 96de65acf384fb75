/** The shapes of what the document ingester writes into the vector index and
    what a similarity search reads back out of it. */
module VectorStore {

  /** An embedding vector; its numbers are opaque to everything modelled here. */
  type Embedding = seq<real>

  /** The metadata stored with every chunk. */
  datatype ChunkMetadata = ChunkMetadata(sourceFile: string, policyType: string, text: string)

  /** One record of an upsert: a fresh identifier, the chunk's embedding, its metadata. */
  datatype VectorRecord = VectorRecord(id: string, values: Embedding, metadata: ChunkMetadata)

  /** One entry of a search's `matches`, in the index's similarity order. */
  datatype Match = Match(id: string, metadata: ChunkMetadata)
}
