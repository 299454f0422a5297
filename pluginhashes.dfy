/**
 * The content-hash maps a plugin reports for a document: every file that
 * represents the document (itself, its source map, the map's proxy, its
 * declaration file) is keyed to the one hash. Two versions exist:
 * plugins/documentToContentHashes.ts (hash trimmed, proxy taken as a
 * document of its own) and the one inside plugins/createPlugin.ts (hash
 * untrimmed, proxy named after the source map), together with the default
 * extension and the hash-driven renaming of createPlugin.ts.
 */
module PluginHashes {
  import opened Wrappers
  import opened Text
  import opened Paths
  import opened Hashes
  import opened Domain

  /** The paths documentToContentHashes.ts keys: the document, its '.map', and recursively its proxy and declaration file. */
  function RepresentationPaths(d: Document): set<string>
    decreases d
  {
    {d.filePath} +
    (if d.sourceMap.Some? then {SourceMapPathFor(d.filePath)} else {}) +
    (if Proxy(d).Some? then RepresentationPaths(Proxy(d).value) else {}) +
    (if d.dts.Some? then RepresentationPaths(d.dts.value) else {})
  }

  /** The path of one part and, when it has one, its source map's. */
  function OwnPaths(d: Document): set<string> {
    {d.filePath} + (if d.sourceMap.Some? then {SourceMapPathFor(d.filePath)} else {})
  }

  /** The paths of a list of parts and the source maps of those that have one. */
  function PartPaths(ps: seq<Document>): set<string> {
    if ps == [] then {} else PartPaths(ps[..|ps| - 1]) + OwnPaths(ps[|ps| - 1])
  }

  lemma {:induction false} PartPathsAppend(a: seq<Document>, b: seq<Document>)
    ensures PartPaths(a + b) == PartPaths(a) + PartPaths(b)
    decreases |b|
  {
    if b == [] {
      assert a + b == a;
    } else {
      var init := b[..|b| - 1];
      PartPathsAppend(a, init);
      assert (a + b)[..|a + b| - 1] == a + init;
    }
  }

  /** The representation paths are exactly the paths of the document's parts and of their source maps. */
  lemma {:induction false} RepresentationPathsOfParts(d: Document)
    ensures RepresentationPaths(d) == PartPaths(Parts(d))
    decreases d
  {
    var pa := if Proxy(d).Some? then Parts(Proxy(d).value) else [];
    var da := if d.dts.Some? then Parts(d.dts.value) else [];
    if Proxy(d).Some? {
      RepresentationPathsOfParts(Proxy(d).value);
    }
    if d.dts.Some? {
      RepresentationPathsOfParts(d.dts.value);
    }
    assert Parts(d) == [d] + pa + da;
    PartPathsAppend([d] + pa, da);
    PartPathsAppend([d], pa);
    assert PartPaths([d]) == OwnPaths(d) by {
      assert [d][..0] == [];
    }
  }

  /**
   * plugins/documentToContentHashes.ts: every representation path of the
   * document maps to the hash trimmed to `hashLength`. The default `hash`,
   * the SHA-512 of the contents, is passed by the caller.
   */
  method DocumentToContentHashes(document: Document, hashLength: nat, hash: string) returns (m: map<string, string>)
    ensures m.Keys == RepresentationPaths(document)
    ensures forall p :: p in m ==> m[p] == TrimHash(Some(hashLength), hash)
    decreases document
  {
    var trimmedHash := TrimHash(Some(hashLength), hash);
    TrimHashIdempotent(Some(hashLength), hash);
    ghost var own := {document.filePath} + (if document.sourceMap.Some? then {SourceMapPathFor(document.filePath)} else {});
    ghost var proxyPaths := if Proxy(document).Some? then RepresentationPaths(Proxy(document).value) else {};
    m := map[document.filePath := trimmedHash];
    if document.sourceMap.Some? {
      var sourceMapPath := SourceMapPathFor(document.filePath);
      m := m[sourceMapPath := trimmedHash];
      if document.sourceMap.value.proxy.Some? {
        var proxyHashes := DocumentToContentHashes(document.sourceMap.value.proxy.value, hashLength, trimmedHash);
        m := m + proxyHashes;
      }
    }
    assert m.Keys == own + proxyPaths;
    assert forall p :: p in m ==> m[p] == trimmedHash;
    if document.dts.Some? {
      var dtsHashes := DocumentToContentHashes(document.dts.value, hashLength, trimmedHash);
      m := m + dtsHashes;
    }
  }

  /** The paths the createPlugin.ts version keys: the document, its '.map', the map's '.proxy.js', and recursively its declaration file. */
  function PluginHashPaths(d: Document): set<string>
    decreases d
  {
    {d.filePath} +
    (if d.sourceMap.Some? then {SourceMapPathFor(d.filePath)} else {}) +
    (if Proxy(d).Some? then {ProxyMapFor(SourceMapPathFor(d.filePath))} else {}) +
    (if d.dts.Some? then PluginHashPaths(d.dts.value) else {})
  }

  /**
   * `documentToContentHashes` of createPlugin.ts: the hash is used as given
   * (its default is the hexadecimal SHA-512 of the contents, passed by the
   * caller), and the declaration file's entries are merged over the rest.
   */
  method PluginContentHashes(document: Document, hash: string) returns (m: map<string, string>)
    ensures m.Keys == PluginHashPaths(document)
    ensures forall p :: p in m ==> m[p] == hash
    decreases document
  {
    m := map[document.filePath := hash];
    if document.sourceMap.Some? {
      var sourceMapPath := SourceMapPathFor(document.filePath);
      m := m[sourceMapPath := hash];
      if document.sourceMap.value.proxy.Some? {
        m := m[ProxyMapFor(sourceMapPath) := hash];
      }
    }
    assert forall p :: p in m ==> m[p] == hash;
    if document.dts.Some? {
      var dtsHashes := PluginContentHashes(document.dts.value, hash);
      m := m + dtsHashes;
    }
  }

  /**
   * For the documents createPlugin.ts reads — the proxy lives at the source
   * map's '.proxy.js' path and has no source map or declaration file of its
   * own — both versions key the same paths.
   */
  lemma {:induction false} KeySetsAgree(d: Document)
    requires ReadShape(d)
    ensures PluginHashPaths(d) == RepresentationPaths(d)
    decreases d
  {
    if d.dts.Some? {
      KeySetsAgree(d.dts.value);
    }
  }

  /** The shape createPlugin.ts reads: a proxy at the map's '.proxy.js' path with nothing of its own, recursively for the declaration file. */
  predicate ReadShape(d: Document)
    decreases d
  {
    (Proxy(d).Some? ==>
      var p := Proxy(d).value;
      p.filePath == ProxyMapFor(SourceMapPathFor(d.filePath)) && p.sourceMap.None? && p.dts.None?) &&
    (d.dts.Some? ==> ReadShape(d.dts.value))
  }

  /**
   * `rewriteDocumentHashes` of createPlugin.ts: the document is renamed
   * with its hash unless it has none; an empty hash is falsy and renames
   * nothing either.
   */
  function RenameIfHashed(document: Document, hashes: map<string, string>): (r: Document)
    ensures document.filePath in hashes && hashes[document.filePath] != "" ==>
      r == ReplaceDocumentHash(document, hashes[document.filePath])
    ensures document.filePath !in hashes || hashes[document.filePath] == "" ==> r == document
  {
    if document.filePath in hashes && hashes[document.filePath] != "" then ReplaceDocumentHash(document, hashes[document.filePath])
    else document
  }

  /** The plugin's `rewriteDocumentHashes` over a list: each document renamed in place. */
  function RenameAll(documents: seq<Document>, hashes: map<string, string>): (r: seq<Document>)
    ensures |r| == |documents|
    ensures forall i :: 0 <= i < |documents| ==> r[i] == RenameIfHashed(documents[i], hashes)
  {
    seq(|documents|, (i: int) requires 0 <= i < |documents| => RenameIfHashed(documents[i], hashes))
  }
}
