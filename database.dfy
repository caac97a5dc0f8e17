/** The document store the core writes to, seen as the log of writes it receives. */
module Database {
  import opened Records

  /** An append-only store: every `create_document` call adds one write, in call order. */
  class DocumentStore {
    var writes: seq<Write>

    constructor ()
      ensures writes == []
    {
      writes := [];
    }

    /** Stores `doc` in `collection`; nothing already stored changes. */
    method CreateDocument(collection: string, doc: Document)
      modifies this
      ensures writes == old(writes) + [Write(collection, doc)]
    {
      writes := writes + [Write(collection, doc)];
    }
  }
}
