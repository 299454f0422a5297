/**
 * The document registry of the hashing engine: each discovered file as a
 * Document, keyed by its path. A document's content hash is either its own
 * ('hash') or an indirection to another document's ('hashFor').
 */
module Registry {
  import opened Wrappers

  datatype DocumentHash = Hash(hash: string) | HashFor(filePath: string)

  datatype Position = Position(start: int, end: int)

  /** A reference found in a document's contents, with its text range and the path it resolves to. */
  datatype Dependency = Dependency(specifier: string, filePath: string, fileExtension: string, position: Position)

  datatype Document = Document(
    filePath: string,
    fileExtension: string,
    contents: string,
    contentHash: Option<DocumentHash>,
    dependencies: seq<Dependency>,
    sourceMap: Option<string>,       // path of the document's source map
    isBase64Encoded: bool)

  type DocumentRegistry = map<string, Document>

  /** The document carries its own hash (Some with type 'hash'). */
  predicate HasOwnHash(d: Document) {
    d.contentHash.Some? && d.contentHash.value.Hash?
  }

  /**
   * `rank` strictly decreases along every 'hashFor' link between registry
   * entries, so following such links from any document stops.
   */
  ghost predicate Ranked(registry: DocumentRegistry, rank: map<string, nat>) {
    registry.Keys <= rank.Keys &&
    forall p :: p in registry && registry[p].contentHash.Some? && registry[p].contentHash.value.HashFor?
                && registry[p].contentHash.value.filePath in registry
                ==> rank[registry[p].contentHash.value.filePath] < rank[p]
  }

  /** No chain of 'hashFor' links in the registry is cyclic. */
  ghost predicate Acyclic(registry: DocumentRegistry) {
    exists rank :: Ranked(registry, rank)
  }

  /** The number of 'hashFor' links followed from `d`, bounded by a rank of the registry. */
  ghost function HashForDepth(d: Document, registry: DocumentRegistry): nat
    requires Acyclic(registry)
  {
    var rank :| Ranked(registry, rank);
    if d.contentHash.Some? && d.contentHash.value.HashFor? && d.contentHash.value.filePath in registry
    then 1 + rank[d.contentHash.value.filePath]
    else 0
  }
}
