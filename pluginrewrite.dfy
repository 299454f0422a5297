/**
 * Contents rewriting on plugin documents: plugins/rewriteDocumentContents.ts
 * (apply the edits a callback records, regenerate the source map, recurse
 * into the map's proxy), plugins/rewriteFileContent.ts (references
 * rewritten to hashed paths), plugins/rewriteDocumentHashes.ts (renaming
 * and sourceMappingURL rewriting) and the `rewriteFileContent` of
 * plugins/createPlugin.ts.
 *
 * A callback `f(document, ms)` that records overwrites on a fresh
 * MagicString is modelled by the function giving the edits it records for
 * a document.
 */
module PluginRewrite {
  import opened Wrappers
  import opened Text
  import opened Paths
  import opened Edits
  import opened Hashes
  import opened Domain
  import Registry
  import RegistryRewrite

  type Dependency = Registry.Dependency
  type Libraries = RegistryRewrite.Libraries

  /**
   * `rewriteDocumentContents(document, f)`: when the edits change nothing the
   * document itself is returned; otherwise the contents are the rendered
   * edits and the source map is the generated one, composed with the
   * existing raw map, whose proxy is rewritten with the same callback.
   */
  function RewriteContents(lib: Posix, libs: Libraries, document: Document, f: Document -> seq<Edit>): (r: Document)
    ensures Render(document.contents, f(document)) == document.contents ==> r == document
    ensures Render(document.contents, f(document)) != document.contents ==>
      r.contents == Render(document.contents, f(document)) && r.sourceMap.Some?
    ensures r.filePath == document.filePath && r.fileExtension == document.fileExtension
    ensures r.dependencies == document.dependencies && r.dts == document.dts && r.supportsHashes == document.supportsHashes
    ensures document.sourceMap.None? && r != document ==> Proxy(r).None?
    ensures Proxy(r).Some? <==> Proxy(document).Some?
    decreases document
  {
    var edits := f(document);
    var contents := Render(document.contents, edits);
    if contents == document.contents then document
    else
      var generated := libs.generateMap(lib.basename(document.filePath), document.contents, edits);
      var sourceMap := match document.sourceMap
        case None => SourceMap(generated, None)
        case Some(s) =>
          SourceMap(libs.remap(generated, s.raw),
                    match s.proxy
                    case None => None
                    case Some(p) => Some(RewriteContents(lib, libs, p, f)));
      document.(contents := contents, sourceMap := Some(sourceMap))
  }

  /** Two lists of documents agree on every path and extension, position by position. */
  predicate SamePaths(a: seq<Document>, b: seq<Document>) {
    |a| == |b| &&
    forall i :: 0 <= i < |a| ==> a[i].filePath == b[i].filePath && a[i].fileExtension == b[i].fileExtension
  }

  lemma SamePathsConcat(a1: seq<Document>, b1: seq<Document>, a2: seq<Document>, b2: seq<Document>)
    requires SamePaths(a1, b1) && SamePaths(a2, b2)
    ensures SamePaths(a1 + a2, b1 + b2)
  {
    forall i | 0 <= i < |a1 + a2|
      ensures (a1 + a2)[i].filePath == (b1 + b2)[i].filePath && (a1 + a2)[i].fileExtension == (b1 + b2)[i].fileExtension
    {
      if i >= |a1| {
        assert (a1 + a2)[i] == a2[i - |a1|] && (b1 + b2)[i] == b2[i - |b1|];
      }
    }
  }

  /** Rewriting contents never moves a file: every part keeps its path and extension. */
  lemma {:induction false} RewriteContentsKeepsPaths(lib: Posix, libs: Libraries, document: Document, f: Document -> seq<Edit>)
    ensures var before := Parts(document);
      var after := Parts(RewriteContents(lib, libs, document, f));
      |after| == |before| &&
      forall i :: 0 <= i < |before| ==> after[i].filePath == before[i].filePath && after[i].fileExtension == before[i].fileExtension
    decreases document
  {
    var r := RewriteContents(lib, libs, document, f);
    if r != document {
      var pa := if Proxy(document).Some? then Parts(Proxy(document).value) else [];
      var pb := if Proxy(r).Some? then Parts(Proxy(r).value) else [];
      var da := if document.dts.Some? then Parts(document.dts.value) else [];
      if Proxy(document).Some? {
        RewriteContentsKeepsPaths(lib, libs, Proxy(document).value, f);
        assert Proxy(r).value == RewriteContents(lib, libs, Proxy(document).value, f);
      }
      assert SamePaths(pa, pb);
      assert SamePaths([document], [r]);
      assert SamePaths(da, da);
      SamePathsConcat([document], [r], pa, pb);
      SamePathsConcat([document] + pa, [r] + pb, da, da);
      assert Parts(document) == [document] + pa + da;
      assert Parts(r) == [r] + pb + da;
    }
  }

  /** A callback whose overwrites write back what they replace leaves the document as it was. */
  lemma IdentityCallbackKeepsDocument(lib: Posix, libs: Libraries, document: Document, f: Document -> seq<Edit>)
    requires WellFormed(document.contents, f(document))
    requires forall e :: e in f(document) ==> e.text == document.contents[e.start..e.end]
    ensures RewriteContents(lib, libs, document, f) == document
  {
    var edits := f(document);
    forall i | 0 <= i < |edits| ensures edits[i].text == document.contents[edits[i].start..edits[i].end] {
      assert edits[i] in edits;
    }
    RenderIdentity(document.contents, 0, edits);
  }

  /** `depHash` is truthy: present and not the empty string. */
  predicate HasHash(hashes: map<string, string>, p: string) {
    p in hashes && hashes[p] != ""
  }

  /**
   * The replacement for one reference of rewriteFileContent.ts: the relative
   * hashed path with '.d.ts' stripped when it ends so, else the base-URL
   * address of the unhashed path, else the relative hashed path.
   */
  function FileReplacementPath(lib: Posix, directory: string, baseUrl: Option<string>, hashes: map<string, string>,
                               document: Document, dep: Dependency): (r: string)
    requires HasHash(hashes, dep.filePath)
    ensures var hashedPath := ReplaceHash(dep.filePath, dep.fileExtension, hashes[dep.filePath]);
      var relativePath := EnsureRelative(lib.relative(lib.dirname(document.filePath), hashedPath));
      r == if PatternAtEnd(relativePath, DtsExt) then relativePath[..|relativePath| - |DtsExt|]
           else if HasBaseUrl(baseUrl) then ResolveOrigin(lib, directory, dep.filePath, baseUrl.value)
           else relativePath
  {
    var hashedPath := ReplaceHash(dep.filePath, dep.fileExtension, hashes[dep.filePath]);
    var relativePath := EnsureRelative(lib.relative(lib.dirname(document.filePath), hashedPath));
    var pathToUse := if HasBaseUrl(baseUrl) then ResolveOrigin(lib, directory, dep.filePath, baseUrl.value) else relativePath;
    if PatternAtEnd(relativePath, DtsExt) then ReplacePatternAtEnd(relativePath, DtsExt, "") else pathToUse
  }

  /** Without a base URL the replacement starts with '.' or '/', being the relative path, perhaps without '.d.ts'. */
  lemma FileReplacementRelative(lib: Posix, directory: string, hashes: map<string, string>, document: Document, dep: Dependency)
    requires HasHash(hashes, dep.filePath)
    ensures var r := FileReplacementPath(lib, directory, None, hashes, document, dep);
      r != [] ==> r[0] == '.' || r[0] == '/'
  {
    var hashedPath := ReplaceHash(dep.filePath, dep.fileExtension, hashes[dep.filePath]);
    var relativePath := EnsureRelative(lib.relative(lib.dirname(document.filePath), hashedPath));
    var r := FileReplacementPath(lib, directory, None, hashes, document, dep);
    if r != [] {
      assert r[0] == relativePath[0];
    }
  }

  /** The overwrites the reference loop of rewriteFileContent.ts records, in reference order. */
  function FileContentEdits(lib: Posix, directory: string, baseUrl: Option<string>, hashes: map<string, string>,
                            document: Document, deps: seq<Dependency>): seq<Edit>
  {
    if deps == [] then []
    else
      var dep := deps[0];
      (if HasHash(hashes, dep.filePath)
       then [Edit(dep.position.start, dep.position.end, FileReplacementPath(lib, directory, baseUrl, hashes, document, dep))]
       else []) +
      FileContentEdits(lib, directory, baseUrl, hashes, document, deps[1..])
  }

  /** Exactly the references with a truthy hash are overwritten, each over its own range. */
  lemma {:induction false} FileContentEditsExact(lib: Posix, directory: string, baseUrl: Option<string>, hashes: map<string, string>,
                                                 document: Document, deps: seq<Dependency>)
    ensures forall e :: e in FileContentEdits(lib, directory, baseUrl, hashes, document, deps) <==>
      exists dep :: dep in deps && HasHash(hashes, dep.filePath) &&
        e == Edit(dep.position.start, dep.position.end, FileReplacementPath(lib, directory, baseUrl, hashes, document, dep))
  {
    if deps != [] {
      FileContentEditsExact(lib, directory, baseUrl, hashes, document, deps[1..]);
      assert forall dep :: dep in deps <==> dep == deps[0] || dep in deps[1..];
    }
  }

  /** A document none of whose references has a hash records no overwrite. */
  lemma {:induction false} NoHashesNoEdits(lib: Posix, directory: string, baseUrl: Option<string>, hashes: map<string, string>,
                                           document: Document, deps: seq<Dependency>)
    requires forall dep :: dep in deps ==> !HasHash(hashes, dep.filePath)
    ensures FileContentEdits(lib, directory, baseUrl, hashes, document, deps) == []
  {
    if deps != [] {
      assert deps[0] in deps;
      NoHashesNoEdits(lib, directory, baseUrl, hashes, document, deps[1..]);
    }
  }

  /** The inner `rewriteDependencies(hashes, directory, baseUrl)(document, ms)` loop. */
  method RewriteFileDependencies(ms: MagicString, lib: Posix, directory: string, baseUrl: Option<string>,
                                 hashes: map<string, string>, document: Document)
    modifies ms
    ensures ms.edits == old(ms.edits) + FileContentEdits(lib, directory, baseUrl, hashes, document, document.dependencies)
  {
    ghost var start := ms.edits;
    var deps := document.dependencies;
    for i := 0 to |deps|
      invariant ms.edits + FileContentEdits(lib, directory, baseUrl, hashes, document, deps[i..]) ==
        start + FileContentEdits(lib, directory, baseUrl, hashes, document, deps)
    {
      var dep := deps[i];
      assert deps[i..][1..] == deps[i + 1..];
      if HasHash(hashes, dep.filePath) {
        ms.Overwrite(dep.position.start, dep.position.end, FileReplacementPath(lib, directory, baseUrl, hashes, document, dep));
      }
    }
  }

  /** The callback `rewriteDependencies(hashes, directory, baseUrl)`, as the edits it records for a document. */
  function FileCallback(lib: Posix, directory: string, baseUrl: Option<string>, hashes: map<string, string>): Document -> seq<Edit> {
    (d: Document) => FileContentEdits(lib, directory, baseUrl, hashes, d, d.dependencies)
  }

  /**
   * plugins/rewriteFileContent.ts `rewriteFileContent`: the document and its
   * declaration file are each rewritten with the reference callback.
   */
  function RewriteFileContent(lib: Posix, libs: Libraries, directory: string, baseUrl: Option<string>,
                              document: Document, hashes: map<string, string>): (r: Document)
    ensures var f := FileCallback(lib, directory, baseUrl, hashes);
      r == RewriteContents(lib, libs, document, f).(dts := match document.dts
        case None => None
        case Some(d) => Some(RewriteContents(lib, libs, d, f)))
    ensures r.filePath == document.filePath && r.dependencies == document.dependencies
    ensures r.dts.Some? <==> document.dts.Some?
    ensures r.dts.Some? ==> r.dts.value.filePath == document.dts.value.filePath
  {
    var f := FileCallback(lib, directory, baseUrl, hashes);
    var base := RewriteContents(lib, libs, document, f);
    var dts := match document.dts
      case None => None
      case Some(d) => Some(RewriteContents(lib, libs, d, f));
    base.(dts := dts)
  }

  /** With no hash for any of its references, a document without a declaration file comes back unchanged. */
  lemma UnhashedReferencesKeepDocument(lib: Posix, libs: Libraries, directory: string, baseUrl: Option<string>,
                                       document: Document, hashes: map<string, string>)
    requires document.dts.None?
    requires forall dep :: dep in document.dependencies ==> !HasHash(hashes, dep.filePath)
    ensures RewriteFileContent(lib, libs, directory, baseUrl, document, hashes) == document
  {
    NoHashesNoEdits(lib, directory, baseUrl, hashes, document, document.dependencies);
    RenderNoEdits(document.contents);
  }

  /** The callback `(document, ms) => rewriteSourceMapUrl(ms, document.filePath)`, as the edits it records. */
  function SourceMapUrlCallback(sourceMapUrl: (string, string) -> seq<Edit>): Document -> seq<Edit> {
    (d: Document) => sourceMapUrl(d.contents, d.filePath)
  }

  /**
   * plugins/rewriteDocumentHashes.ts: with source maps on, the document is
   * renamed when it supports hashes and has a truthy hash, then it and its
   * declaration file get their sourceMappingURL comments rewritten.
   * `sourceMapUrl(contents, path)` is the overwrites of the foreign
   * `rewriteSourceMapUrl`.
   */
  function RewriteDocumentHashes(lib: Posix, libs: Libraries, document: Document, hashes: map<string, string>,
                                 sourceMaps: bool, sourceMapUrl: (string, string) -> seq<Edit>): (r: Document)
    ensures !sourceMaps ==> r == document
    ensures sourceMaps ==>
      var updated := Renamed(document, hashes);
      var f := SourceMapUrlCallback(sourceMapUrl);
      r == RewriteContents(lib, libs, updated, f).(dts := match updated.dts
        case None => None
        case Some(d) => Some(RewriteContents(lib, libs, d, f)))
    ensures sourceMaps ==> r.filePath == Renamed(document, hashes).filePath
    ensures sourceMaps ==> r.fileExtension == document.fileExtension && r.dependencies == document.dependencies
    ensures sourceMaps ==> r.supportsHashes == document.supportsHashes
    ensures sourceMaps ==> r.contents == Render(document.contents,
                                                sourceMapUrl(document.contents, Renamed(document, hashes).filePath))
    ensures sourceMaps ==> (r.dts.Some? <==> document.dts.Some?)
    ensures sourceMaps && r.dts.Some? ==>
      var d := Renamed(document, hashes).dts.value;
      r.dts.value.filePath == d.filePath &&
      r.dts.value.contents == Render(d.contents, sourceMapUrl(d.contents, d.filePath))
  {
    if !sourceMaps then document
    else
      var updated := Renamed(document, hashes);
      var f := SourceMapUrlCallback(sourceMapUrl);
      var base := RewriteContents(lib, libs, updated, f);
      var dts := match updated.dts
        case None => None
        case Some(d) => Some(RewriteContents(lib, libs, d, f));
      base.(dts := dts)
  }

  /**
   * With source maps on, a renamed document and its declaration file both
   * carry the hash, and their sourceMappingURL overwrites are computed for
   * the renamed paths; a document that is not renamed keeps its paths.
   */
  lemma RewriteDocumentHashesPaths(lib: Posix, libs: Libraries, document: Document, hashes: map<string, string>,
                                   sourceMapUrl: (string, string) -> seq<Edit>)
    ensures var r := RewriteDocumentHashes(lib, libs, document, hashes, true, sourceMapUrl);
      if document.supportsHashes && HasHash(hashes, document.filePath) then
        var hash := hashes[document.filePath];
        r.filePath == ReplaceHash(document.filePath, document.fileExtension, hash) &&
        (r.dts.Some? ==>
          var d := document.dts.value;
          var path := ReplaceHash(d.filePath, d.fileExtension, hash);
          r.dts.value.filePath == path && r.dts.value.contents == Render(d.contents, sourceMapUrl(d.contents, path)))
      else
        r.filePath == document.filePath &&
        (r.dts.Some? ==> r.dts.value.filePath == document.dts.value.filePath)
  {
    if document.supportsHashes && HasHash(hashes, document.filePath) {
      var hash := hashes[document.filePath];
      if document.dts.Some? {
        var d := document.dts.value;
        assert Renamed(document, hashes).dts.value == ReplaceDocumentHash(d, hash);
      }
    }
  }

  /** The document renamed when it supports hashes and has a truthy hash at its path. */
  function Renamed(document: Document, hashes: map<string, string>): (r: Document)
    ensures document.supportsHashes && HasHash(hashes, document.filePath) ==>
      r.filePath == ReplaceHash(document.filePath, document.fileExtension, hashes[document.filePath])
    ensures !(document.supportsHashes && HasHash(hashes, document.filePath)) ==> r == document
    ensures r.contents == document.contents && (r.dts.Some? <==> document.dts.Some?)
  {
    if document.supportsHashes && HasHash(hashes, document.filePath) then ReplaceDocumentHash(document, hashes[document.filePath])
    else document
  }

  /**
   * With source maps on, a renamed document's parts — its proxy and its
   * declaration file included — all carry the hash in their paths.
   */
  lemma RenamedPartsCarryHash(document: Document, hashes: map<string, string>)
    requires document.supportsHashes && HasHash(hashes, document.filePath)
    ensures var before := Parts(document);
      var after := Parts(Renamed(document, hashes));
      |after| == |before| &&
      forall i :: 0 <= i < |before| ==> after[i].filePath == ReplaceHash(before[i].filePath, before[i].fileExtension, hashes[document.filePath])
  {
    ReplaceDocumentHashParts(document, hashes[document.filePath]);
  }

  /** Every reference of the document and, recursively, of its proxy and declaration file has a hash. */
  predicate AllReferencesHashed(d: Document, hashes: map<string, string>)
    decreases d
  {
    (forall dep :: dep in d.dependencies ==> dep.filePath in hashes) &&
    (Proxy(d).Some? ==> AllReferencesHashed(Proxy(d).value, hashes)) &&
    (d.dts.Some? ==> AllReferencesHashed(d.dts.value, hashes))
  }

  /** The overwrites of the loop in createPlugin.ts: every reference, with the foreign `replaceFileHash` path. */
  function PluginFileEdits(deps: seq<Dependency>, hashes: map<string, string>, replaceFileHash: (string, string) -> string): (es: seq<Edit>)
    requires forall dep :: dep in deps ==> dep.filePath in hashes
    ensures |es| == |deps|
    ensures forall i :: 0 <= i < |deps| ==>
      es[i] == Edit(deps[i].position.start, deps[i].position.end, replaceFileHash(deps[i].filePath, hashes[deps[i].filePath]))
  {
    if deps == [] then []
    else
      assert deps[0] in deps;
      [Edit(deps[0].position.start, deps[0].position.end, replaceFileHash(deps[0].filePath, hashes[deps[0].filePath]))] +
      PluginFileEdits(deps[1..], hashes, replaceFileHash)
  }

  /**
   * `after` is `before` as `rewriteFileContent` leaves it: the same path,
   * extension, references and hash support; every reference overwritten;
   * a source map generated for the edits and composed with an existing raw
   * map; and, recursively, the proxy and declaration file rewritten alike.
   */
  ghost predicate RewrittenFile(libs: Libraries, before: Document, after: Document, hashes: map<string, string>,
                                replaceFileHash: (string, string) -> string)
    requires AllReferencesHashed(before, hashes)
    decreases before
  {
    var edits := PluginFileEdits(before.dependencies, hashes, replaceFileHash);
    var generated := libs.generateMap(before.filePath, before.contents, edits);
    after.filePath == before.filePath && after.fileExtension == before.fileExtension &&
    after.dependencies == before.dependencies && after.supportsHashes == before.supportsHashes &&
    after.contents == Render(before.contents, edits) &&
    after.sourceMap.Some? &&
    after.sourceMap.value.raw == (if before.sourceMap.Some? then libs.remap(generated, before.sourceMap.value.raw) else generated) &&
    (Proxy(after).Some? <==> Proxy(before).Some?) &&
    (Proxy(after).Some? ==> RewrittenFile(libs, Proxy(before).value, Proxy(after).value, hashes, replaceFileHash)) &&
    (after.dts.Some? <==> before.dts.Some?) &&
    (after.dts.Some? ==> RewrittenFile(libs, before.dts.value, after.dts.value, hashes, replaceFileHash))
  }

  /**
   * `rewriteFileContent` of createPlugin.ts: every reference overwritten
   * with the hashed path, the source map always present (generated, and
   * composed with an existing raw map), and the proxy and declaration file
   * rewritten the same way. Unlike plugins/rewriteDocumentContents.ts there
   * is no short cut for unchanged contents, and the map is generated for
   * the full path.
   */
  method PluginRewriteFileContent(lib: Posix, libs: Libraries, document: Document, hashes: map<string, string>,
                                  replaceFileHash: (string, string) -> string) returns (r: Document)
    requires AllReferencesHashed(document, hashes)
    ensures r.filePath == document.filePath && r.fileExtension == document.fileExtension
    ensures r.dependencies == document.dependencies && r.supportsHashes == document.supportsHashes
    ensures r.contents == Render(document.contents, PluginFileEdits(document.dependencies, hashes, replaceFileHash))
    ensures r.sourceMap.Some?
    ensures var generated := libs.generateMap(document.filePath, document.contents,
                                              PluginFileEdits(document.dependencies, hashes, replaceFileHash));
      r.sourceMap.value.raw == if document.sourceMap.Some? then libs.remap(generated, document.sourceMap.value.raw) else generated
    ensures Proxy(r).Some? <==> Proxy(document).Some?
    ensures Proxy(r).Some? ==> RewrittenFile(libs, Proxy(document).value, Proxy(r).value, hashes, replaceFileHash)
    ensures r.dts.Some? <==> document.dts.Some?
    ensures r.dts.Some? ==> RewrittenFile(libs, document.dts.value, r.dts.value, hashes, replaceFileHash)
    decreases document
  {
    var ms := new MagicString(document.contents);
    OverwriteReferences(ms, document.dependencies, hashes, replaceFileHash);
    assert ms.edits == PluginFileEdits(document.dependencies, hashes, replaceFileHash);
    var updatedSourceMap := libs.generateMap(document.filePath, ms.original, ms.edits);
    var sourceMap: SourceMap;
    if document.sourceMap.None? {
      sourceMap := SourceMap(updatedSourceMap, None);
    } else {
      var remapped := libs.remap(updatedSourceMap, document.sourceMap.value.raw);
      if document.sourceMap.value.proxy.None? {
        sourceMap := SourceMap(remapped, None);
      } else {
        var proxy := PluginRewriteFileContent(lib, libs, document.sourceMap.value.proxy.value, hashes, replaceFileHash);
        assert RewrittenFile(libs, document.sourceMap.value.proxy.value, proxy, hashes, replaceFileHash);
        sourceMap := SourceMap(remapped, Some(proxy));
      }
    }
    var dts: Option<Document> := None;
    if document.dts.Some? {
      var d := PluginRewriteFileContent(lib, libs, document.dts.value, hashes, replaceFileHash);
      assert RewrittenFile(libs, document.dts.value, d, hashes, replaceFileHash);
      dts := Some(d);
    }
    r := document.(contents := ms.ToString(), sourceMap := Some(sourceMap), dts := dts);
  }

  /** The overwrite loop of `rewriteFileContent`: every reference, in order, with the `replaceFileHash` path. */
  method OverwriteReferences(ms: MagicString, deps: seq<Dependency>, hashes: map<string, string>,
                             replaceFileHash: (string, string) -> string)
    requires forall dep :: dep in deps ==> dep.filePath in hashes
    modifies ms
    ensures ms.edits == old(ms.edits) + PluginFileEdits(deps, hashes, replaceFileHash)
  {
    ghost var start := ms.edits;
    for i := 0 to |deps|
      invariant ms.edits == start + PluginFileEdits(deps[..i], hashes, replaceFileHash)
    {
      var dep := deps[i];
      assert dep in deps;
      ms.Overwrite(dep.position.start, dep.position.end, replaceFileHash(dep.filePath, hashes[dep.filePath]));
      assert deps[..i + 1] == deps[..i] + [dep];
      PluginFileEditsAppend(deps[..i], dep, hashes, replaceFileHash);
    }
    assert deps[..|deps|] == deps;
  }

  lemma PluginFileEditsAppend(deps: seq<Dependency>, dep: Dependency, hashes: map<string, string>,
                              replaceFileHash: (string, string) -> string)
    requires forall d :: d in deps + [dep] ==> d.filePath in hashes
    ensures PluginFileEdits(deps + [dep], hashes, replaceFileHash) ==
      PluginFileEdits(deps, hashes, replaceFileHash) + [Edit(dep.position.start, dep.position.end, replaceFileHash(dep.filePath, hashes[dep.filePath]))]
  {
    assert forall d :: d in deps ==> d in deps + [dep];
  }
}
