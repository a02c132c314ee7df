/** Retrieval passages (LangChain `Document`s) and the vector index that
    holds them, shared by the indexing, chat and view code. */
module Passages {
  import opened Wrappers
  import Json

  /** The metadata keys the modelled code writes or reads. PDF pages carry
      `source` and `page`; scholarship records carry `source`, `titulo`,
      `url`, `nivel` and `tipo`. An absent key is `None`. */
  datatype Meta = Meta(
    source: Option<string>,
    page: Option<int>,
    titulo: Option<Json.Json>,
    url: Option<Json.Json>,
    nivel: Option<Json.Json>,
    tipo: Option<string>)

  datatype Doc = Doc(content: string, meta: Meta)

  /** A persisted vector index, identified by the passages it was built from. */
  datatype Store = Store(chunks: seq<Doc>)
}
