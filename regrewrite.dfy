/**
 * infrastructure/rewriteDocumentContents.ts: applying a document's edits and
 * writing the new registry snapshot, with the document's source map
 * regenerated (and composed with a source map already in the registry).
 */
module RegistryRewrite {
  import opened Wrappers
  import opened Text
  import opened Paths
  import opened Edits
  import opened Registry
  import opened FileExtension

  /**
   * The foreign hashing and source-map libraries:
   *  - `sha512`: sha512Hash, the base64url SHA-512 of a string;
   *  - `digest`: the base64url digest of one SHA-512 hasher fed the strings in turn;
   *  - `generateMap`: `ms.generateMap({file, source}).toString()` for a file name,
   *    the original text and the recorded edits;
   *  - `remap`: the JSON round trip of `remapping([updated, current])`.
   */
  datatype Libraries = Libraries(
    sha512: string -> string,
    digest: seq<string> -> string,
    generateMap: (string, string, seq<Edit>) -> string,
    remap: (string, string) -> string)

  /** `rewriteContentHash`: a 'hash' is recomputed from the contents; 'hashFor' and None are kept. */
  function RewriteContentHash(d: Document, sha512: string -> string): (r: Document)
    ensures HasOwnHash(d) ==> r == d.(contentHash := Some(Hash(sha512(d.contents))))
    ensures !HasOwnHash(d) ==> r == d
  {
    match d.contentHash
    case Some(Hash(_)) => d.(contentHash := Some(Hash(sha512(d.contents))))
    case _ => d
  }

  /** Recomputing the hash twice gives the same document as once: only the contents feed it. */
  lemma RewriteContentHashIdempotent(d: Document, sha512: string -> string)
    ensures RewriteContentHash(RewriteContentHash(d, sha512), sha512) == RewriteContentHash(d, sha512)
  {
  }

  /** `remapSourceMaps`: the new map composed with the current one, keeping the current content hash. */
  function RemapSourceMaps(current: Document, updated: Document, remap: (string, string) -> string): (r: Document)
    ensures r.contentHash == current.contentHash
    ensures r.contents == remap(updated.contents, current.contents)
    ensures r.(contentHash := updated.contentHash, contents := updated.contents) == updated
  {
    updated.(contentHash := current.contentHash, contents := remap(updated.contents, current.contents))
  }

  /** The compound extension of the document's file name. */
  function ExtensionOf(lib: Posix, document: Document): string {
    GetFileExtension(lib.basename(document.filePath))
  }

  /** Source maps and base64-encoded documents are not rewritten. */
  predicate NotRewritten(lib: Posix, document: Document) {
    EndsWith(ExtensionOf(lib, document), MapExt) || document.isBase64Encoded
  }

  /** A source-map entry is written: source maps are on, the document has one, and it is not a module proxy. */
  predicate WritesSourceMap(lib: Posix, document: Document, sourceMaps: bool) {
    sourceMaps && document.sourceMap.Some? && !EndsWith(ExtensionOf(lib, document), ProxyJsExt)
  }

  /** The document with the edits applied and, unless `skipHashUpdate`, its hash recomputed. */
  function UpdatedDocument(document: Document, edits: seq<Edit>, skipHashUpdate: bool, libs: Libraries): (r: Document)
    ensures r.contents == Render(document.contents, edits)
    ensures skipHashUpdate || !HasOwnHash(document) ==> r.contentHash == document.contentHash
    ensures !skipHashUpdate && HasOwnHash(document) ==> r.contentHash == Some(Hash(libs.sha512(r.contents)))
    ensures r.(contents := document.contents, contentHash := document.contentHash) == document
  {
    var edited := document.(contents := Render(document.contents, edits));
    if skipHashUpdate then edited else RewriteContentHash(edited, libs.sha512)
  }

  /** The freshly generated source map of the edited document. */
  function GeneratedSourceMap(lib: Posix, document: Document, edits: seq<Edit>, libs: Libraries): (r: Document)
    requires document.sourceMap.Some?
    ensures r.filePath == document.sourceMap.value
    ensures r.fileExtension == document.fileExtension + MapExt
    ensures r.contentHash == Some(HashFor(document.filePath))
    ensures r.dependencies == [] && r.sourceMap == None && !r.isBase64Encoded
  {
    Document(
      document.sourceMap.value,
      document.fileExtension + MapExt,
      libs.generateMap(lib.basename(document.filePath), document.contents, edits),
      Some(HashFor(document.filePath)),
      [],
      None,
      false)
  }

  /**
   * `rewriteDocumentContents(document, f, sourceMaps, skipHashUpdate)` on a
   * registry, where `edits` are the overwrites the callback `f` records.
   */
  function RewriteDocumentContents(lib: Posix, libs: Libraries, registry: DocumentRegistry, document: Document,
                                   edits: seq<Edit>, sourceMaps: bool, skipHashUpdate: bool): (r: DocumentRegistry)
    ensures NotRewritten(lib, document) ==> r == registry
    ensures !NotRewritten(lib, document) ==>
      r.Keys == registry.Keys + {document.filePath} +
                (if WritesSourceMap(lib, document, sourceMaps) then {document.sourceMap.value} else {})
    // every other entry is kept
    ensures forall p :: (p in registry && p != document.filePath &&
                         (document.sourceMap.None? || p != document.sourceMap.value)) ==> p in r && r[p] == registry[p]
    // the document's entry holds the edited document, unless its own source-map entry replaced it
    ensures !NotRewritten(lib, document) && !(WritesSourceMap(lib, document, sourceMaps) && document.sourceMap.value == document.filePath)
      ==> r[document.filePath] == UpdatedDocument(document, edits, skipHashUpdate, libs)
    // the source-map entry: the generated map, composed with a registered one
    ensures !NotRewritten(lib, document) && WritesSourceMap(lib, document, sourceMaps) ==>
      var path := document.sourceMap.value;
      var generated := GeneratedSourceMap(lib, document, edits, libs);
      r[path] == if path in registry then RemapSourceMaps(registry[path], generated, libs.remap) else generated
    // without a source-map entry, nothing but the document's entry changes
    ensures !WritesSourceMap(lib, document, sourceMaps) ==>
      forall p :: p in registry && p != document.filePath ==> p in r && r[p] == registry[p]
  {
    if NotRewritten(lib, document) then registry
    else
      var updatedRegistry := registry[document.filePath := UpdatedDocument(document, edits, skipHashUpdate, libs)];
      if !WritesSourceMap(lib, document, sourceMaps) then updatedRegistry
      else
        var path := document.sourceMap.value;
        var generated := GeneratedSourceMap(lib, document, edits, libs);
        updatedRegistry[path := if path in registry then RemapSourceMaps(registry[path], generated, libs.remap) else generated]
  }

  /**
   * The source-map entry points back at its document: a fresh map has
   * hashFor(document), and composing with a registered map keeps that
   * map's content hash.
   */
  lemma SourceMapEntryHash(lib: Posix, libs: Libraries, registry: DocumentRegistry, document: Document,
                           edits: seq<Edit>, sourceMaps: bool, skipHashUpdate: bool)
    requires !NotRewritten(lib, document) && WritesSourceMap(lib, document, sourceMaps)
    ensures var r := RewriteDocumentContents(lib, libs, registry, document, edits, sourceMaps, skipHashUpdate);
      var path := document.sourceMap.value;
      r[path].contentHash == if path in registry then registry[path].contentHash else Some(HashFor(document.filePath))
  {
  }

  /** The edited entry's contents are the rendered edits, and its dependencies and paths are kept. */
  lemma RewrittenEntryContents(lib: Posix, libs: Libraries, registry: DocumentRegistry, document: Document,
                               edits: seq<Edit>, sourceMaps: bool, skipHashUpdate: bool)
    requires !NotRewritten(lib, document) && !WritesSourceMap(lib, document, sourceMaps)
    ensures var r := RewriteDocumentContents(lib, libs, registry, document, edits, sourceMaps, skipHashUpdate);
      r[document.filePath].contents == Render(document.contents, edits) &&
      r[document.filePath].dependencies == document.dependencies &&
      r[document.filePath].filePath == document.filePath &&
      r[document.filePath].sourceMap == document.sourceMap
  {
  }

  /** Edits that write back what they replace, with the hash update skipped, store the document itself. */
  lemma IdentityEditsKeepDocument(lib: Posix, libs: Libraries, registry: DocumentRegistry, document: Document,
                                  edits: seq<Edit>, sourceMaps: bool)
    requires !NotRewritten(lib, document) && !WritesSourceMap(lib, document, sourceMaps)
    requires WellFormed(document.contents, edits)
    requires forall i :: 0 <= i < |edits| ==> edits[i].text == document.contents[edits[i].start..edits[i].end]
    ensures RewriteDocumentContents(lib, libs, registry, document, edits, sourceMaps, true) == registry[document.filePath := document]
  {
    RenderIdentity(document.contents, 0, edits);
  }
}
