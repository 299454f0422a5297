/**
 * The plugin-side document of domain/model/Document.ts: a file with its
 * contents and references, an optional source map (whose module proxy is a
 * document of its own) and an optional declaration-file companion, and the
 * document-level `replaceHash` of domain/services/replaceHash.ts.
 */
module Domain {
  import opened Wrappers
  import opened Text
  import opened Registry
  import opened Hashes

  /** A source map: its raw JSON, taken as an opaque string, and its module proxy. */
  datatype SourceMap = SourceMap(raw: string, proxy: Option<Document>)

  datatype Document = Document(
    filePath: string,
    fileExtension: string,
    contents: string,
    dependencies: seq<Dependency>,
    sourceMap: Option<SourceMap>,
    dts: Option<Document>,
    supportsHashes: bool)

  /** The proxy document of the source map, if there are both. */
  function Proxy(d: Document): (r: Option<Document>)
    ensures r.Some? <==> d.sourceMap.Some? && d.sourceMap.value.proxy.Some?
    ensures r.Some? ==> r.value < d
  {
    if d.sourceMap.Some? then d.sourceMap.value.proxy else None
  }

  /**
   * Every document a document stands for, in pre-order: itself, then the
   * parts of its source-map proxy, then the parts of its declaration file.
   */
  function Parts(d: Document): (ps: seq<Document>)
    ensures |ps| >= 1 && ps[0] == d
    decreases d
  {
    [d] +
    (if Proxy(d).Some? then Parts(Proxy(d).value) else []) +
    (if d.dts.Some? then Parts(d.dts.value) else [])
  }

  /**
   * `replaceHash(document, hash)`: '.' + hash inserted before the document's
   * end-anchored extension, and the same renaming applied to the source
   * map's proxy and to the declaration file; the raw map is kept.
   */
  function ReplaceDocumentHash(document: Document, hash: string): (r: Document)
    ensures r.filePath == ReplaceHash(document.filePath, document.fileExtension, hash)
    ensures r.fileExtension == document.fileExtension && r.contents == document.contents
    ensures r.dependencies == document.dependencies && r.supportsHashes == document.supportsHashes
    ensures r.sourceMap.Some? <==> document.sourceMap.Some?
    ensures r.sourceMap.Some? ==> r.sourceMap.value.raw == document.sourceMap.value.raw
    ensures Proxy(r).Some? <==> Proxy(document).Some?
    ensures r.dts.Some? <==> document.dts.Some?
    decreases document
  {
    document.(
      filePath := ReplaceHash(document.filePath, document.fileExtension, hash),
      sourceMap := match document.sourceMap
        case None => None
        case Some(s) => Some(s.(proxy := match s.proxy
          case None => None
          case Some(p) => Some(ReplaceDocumentHash(p, hash)))),
      dts := match document.dts
        case None => None
        case Some(d) => Some(ReplaceDocumentHash(d, hash)))
  }

  /**
   * Renaming reaches every part: the renamed document has as many parts,
   * and each part has its path renamed with the one hash and its extension,
   * contents and dependencies kept.
   */
  lemma {:induction false} ReplaceDocumentHashParts(document: Document, hash: string)
    ensures var before := Parts(document);
      var after := Parts(ReplaceDocumentHash(document, hash));
      |after| == |before| &&
      forall i :: 0 <= i < |before| ==>
        after[i].filePath == ReplaceHash(before[i].filePath, before[i].fileExtension, hash) &&
        after[i].fileExtension == before[i].fileExtension &&
        after[i].contents == before[i].contents &&
        after[i].dependencies == before[i].dependencies
    decreases document
  {
    var r := ReplaceDocumentHash(document, hash);
    var pa := if Proxy(document).Some? then Parts(Proxy(document).value) else [];
    var pb := if Proxy(r).Some? then Parts(Proxy(r).value) else [];
    var da := if document.dts.Some? then Parts(document.dts.value) else [];
    var db := if r.dts.Some? then Parts(r.dts.value) else [];
    if Proxy(document).Some? {
      ReplaceDocumentHashParts(Proxy(document).value, hash);
      assert Proxy(r).value == ReplaceDocumentHash(Proxy(document).value, hash);
    }
    if document.dts.Some? {
      ReplaceDocumentHashParts(document.dts.value, hash);
    }
    assert Parts(document) == [document] + pa + da;
    assert Parts(r) == [r] + pb + db;
    PartsAlign(document, r, hash, pa, pb, da, db);
  }

  /** Lines up the three pieces of two part lists of equal piece lengths. */
  lemma PartsAlign(document: Document, r: Document, hash: string,
                   pa: seq<Document>, pb: seq<Document>, da: seq<Document>, db: seq<Document>)
    requires r.filePath == ReplaceHash(document.filePath, document.fileExtension, hash)
    requires r.fileExtension == document.fileExtension && r.contents == document.contents
    requires r.dependencies == document.dependencies
    requires |pa| == |pb| && |da| == |db|
    requires forall i :: 0 <= i < |pa| ==>
      pb[i].filePath == ReplaceHash(pa[i].filePath, pa[i].fileExtension, hash) &&
      pb[i].fileExtension == pa[i].fileExtension && pb[i].contents == pa[i].contents &&
      pb[i].dependencies == pa[i].dependencies
    requires forall i :: 0 <= i < |da| ==>
      db[i].filePath == ReplaceHash(da[i].filePath, da[i].fileExtension, hash) &&
      db[i].fileExtension == da[i].fileExtension && db[i].contents == da[i].contents &&
      db[i].dependencies == da[i].dependencies
    ensures var before := [document] + pa + da;
      var after := [r] + pb + db;
      |after| == |before| &&
      forall i :: 0 <= i < |before| ==>
        after[i].filePath == ReplaceHash(before[i].filePath, before[i].fileExtension, hash) &&
        after[i].fileExtension == before[i].fileExtension &&
        after[i].contents == before[i].contents &&
        after[i].dependencies == before[i].dependencies
  {
    var before := [document] + pa + da;
    var after := [r] + pb + db;
    forall i | 0 <= i < |before|
      ensures after[i].filePath == ReplaceHash(before[i].filePath, before[i].fileExtension, hash)
      ensures after[i].fileExtension == before[i].fileExtension
      ensures after[i].contents == before[i].contents
      ensures after[i].dependencies == before[i].dependencies
    {
      if i == 0 {
      } else if i < 1 + |pa| {
        assert before[i] == pa[i - 1] && after[i] == pb[i - 1];
      } else {
        assert before[i] == da[i - 1 - |pa|] && after[i] == db[i - 1 - |pa|];
      }
    }
  }

  /** With a literal-suffix extension the renamed path keeps its extension and grows by |hash| + 1. */
  lemma ReplaceDocumentHashPath(document: Document, hash: string)
    requires EndsWith(document.filePath, document.fileExtension)
    ensures var r := ReplaceDocumentHash(document, hash);
      EndsWith(r.filePath, document.fileExtension) && |r.filePath| == |document.filePath| + |hash| + 1
  {
    ReplaceHashShape(document.filePath, document.fileExtension, hash);
  }
}
