/**
 * The two views of a finished document registry:
 * `generateAssetManfiestFromRegistry` of infrastructure/generateAssetManifest.ts,
 * a record from each document's path to its hashed path, both relative to
 * the directory (or the hashed path under a base URL), and `normalizeRegistry`
 * of infrastructure/normalizeRegistry.ts, the registry with every path made
 * relative to the directory. Both walk the registry in its iteration order,
 * which the model takes as the sequence `paths` of its keys.
 */
module RegistryManifest {
  import opened Wrappers
  import opened Sequences
  import opened Paths
  import opened Registry
  import opened Hashes
  import opened OrderedMaps

  /** What the manifest says a document is written to. */
  function ManifestTarget(lib: Posix, directory: string, registry: DocumentRegistry, d: Document, hashLength: nat, baseUrl: Option<string>): string
    requires Acyclic(registry)
  {
    var to := GetHashedPath(d, registry, hashLength);
    if HasBaseUrl(baseUrl) then ApplyOrigin(lib, directory, to, baseUrl.value) else lib.relative(directory, to)
  }

  /** The assignments of the loop, one per registry entry in iteration order. */
  function RegistryAssignments(lib: Posix, directory: string, registry: DocumentRegistry, paths: seq<string>, hashLength: nat, baseUrl: Option<string>)
    : (r: seq<(string, string)>)
    requires Acyclic(registry)
    requires forall p :: p in paths ==> p in registry
    ensures |r| == |paths|
    ensures forall i :: 0 <= i < |paths| ==>
      r[i] == (lib.relative(directory, registry[paths[i]].filePath), ManifestTarget(lib, directory, registry, registry[paths[i]], hashLength, baseUrl))
  {
    seq(|paths|, (i: int) requires 0 <= i < |paths| =>
      (lib.relative(directory, registry[paths[i]].filePath), ManifestTarget(lib, directory, registry, registry[paths[i]], hashLength, baseUrl)))
  }

  /** `generateAssetManfiestFromRegistry`: the loop over the registry's documents. */
  method GenerateAssetManifestFromRegistry(lib: Posix, directory: string, registry: DocumentRegistry, paths: seq<string>,
                                           hashLength: nat, baseUrl: Option<string>)
    returns (manifest: seq<(string, string)>)
    requires Acyclic(registry)
    requires forall p :: p in paths ==> p in registry
    ensures manifest == FromEntries(RegistryAssignments(lib, directory, registry, paths, hashLength, baseUrl))
  {
    manifest := [];
    ghost var assignments := RegistryAssignments(lib, directory, registry, paths, hashLength, baseUrl);
    for i := 0 to |paths|
      invariant manifest == FromEntries(assignments[..i])
    {
      var document := registry[paths[i]];
      var from := document.filePath;
      var to := GetHashedPath(document, registry, hashLength);
      assert assignments[..i + 1][..i] == assignments[..i];
      manifest := Put(manifest, lib.relative(directory, from),
                      if HasBaseUrl(baseUrl) then ApplyOrigin(lib, directory, to, baseUrl.value) else lib.relative(directory, to));
    }
    assert assignments[..|paths|] == assignments;
  }

  /**
   * When `paths` lists the registry's keys, the manifest's keys are exactly
   * the registry documents' paths relative to the directory, each once.
   */
  lemma RegistryManifestKeys(lib: Posix, directory: string, registry: DocumentRegistry, paths: seq<string>,
                             hashLength: nat, baseUrl: Option<string>, k: string)
    requires Acyclic(registry)
    requires forall p :: p in paths <==> p in registry
    ensures var m := FromEntries(RegistryAssignments(lib, directory, registry, paths, hashLength, baseUrl));
      (Get(m, k).Some? <==> exists p :: p in registry && k == lib.relative(directory, registry[p].filePath)) &&
      Distinct(Keys(m))
  {
    var a := RegistryAssignments(lib, directory, registry, paths, hashLength, baseUrl);
    FromEntriesHasKey(a, k);
    if exists i :: 0 <= i < |a| && a[i].0 == k {
      var i :| 0 <= i < |a| && a[i].0 == k;
      assert paths[i] in paths;
    }
    if exists p :: p in registry && k == lib.relative(directory, registry[p].filePath) {
      var p :| p in registry && k == lib.relative(directory, registry[p].filePath);
      var i :| 0 <= i < |paths| && paths[i] == p;
      assert a[i].0 == k;
    }
  }

  /**
   * Every value of the manifest is the target of the last document in
   * iteration order whose relative path is the key.
   */
  lemma RegistryManifestValue(lib: Posix, directory: string, registry: DocumentRegistry, paths: seq<string>,
                              hashLength: nat, baseUrl: Option<string>, k: string)
    requires Acyclic(registry)
    requires forall p :: p in paths ==> p in registry
    requires Get(FromEntries(RegistryAssignments(lib, directory, registry, paths, hashLength, baseUrl)), k).Some?
    ensures exists i :: (0 <= i < |paths| && k == lib.relative(directory, registry[paths[i]].filePath) &&
      Get(FromEntries(RegistryAssignments(lib, directory, registry, paths, hashLength, baseUrl)), k).value ==
        ManifestTarget(lib, directory, registry, registry[paths[i]], hashLength, baseUrl) &&
      forall j :: i < j < |paths| ==> lib.relative(directory, registry[paths[j]].filePath) != k)
  {
    var a := RegistryAssignments(lib, directory, registry, paths, hashLength, baseUrl);
    FromEntriesGet(a, k);
    LastValueIsLast(a, k);
  }

  /**
   * The target of a document: under a base URL, the origin applied to its
   * hashed path; otherwise, for a document without a hash, its own relative
   * path, and for a 'hashFor' document, its path renamed with the hash of
   * the document it points at.
   */
  lemma ManifestTargetCases(lib: Posix, directory: string, registry: DocumentRegistry, d: Document, hashLength: nat, baseUrl: Option<string>)
    requires Acyclic(registry)
    ensures HasBaseUrl(baseUrl) ==>
      ManifestTarget(lib, directory, registry, d, hashLength, baseUrl) ==
        ApplyOrigin(lib, directory, GetHashedPath(d, registry, hashLength), baseUrl.value)
    ensures !HasBaseUrl(baseUrl) && d.contentHash.None? ==>
      ManifestTarget(lib, directory, registry, d, hashLength, baseUrl) == lib.relative(directory, d.filePath)
    ensures !HasBaseUrl(baseUrl) && d.contentHash.Some? && d.contentHash.value.HashFor? && d.contentHash.value.filePath in registry &&
            GetContentHash(registry[d.contentHash.value.filePath], registry, hashLength).Some? ==>
      ManifestTarget(lib, directory, registry, d, hashLength, baseUrl) ==
        lib.relative(directory, ReplaceHash(d.filePath, d.fileExtension,
                                            GetContentHash(registry[d.contentHash.value.filePath], registry, hashLength).value))
  {
    if d.contentHash.Some? && d.contentHash.value.HashFor? && d.contentHash.value.filePath in registry {
      HashForSharesHash(d, registry, hashLength);
    }
  }

  /** `normalizeDoc`'s change to a dependency: its path made relative. */
  function NormalizeDependency(lib: Posix, directory: string, d: Dependency): Dependency {
    d.(filePath := lib.relative(directory, d.filePath))
  }

  /** `normalizeDoc`. */
  function NormalizeDoc(lib: Posix, directory: string, document: Document): Document
  {
    document.(
      dependencies := seq(|document.dependencies|, (i: int) requires 0 <= i < |document.dependencies| =>
        NormalizeDependency(lib, directory, document.dependencies[i])),
      filePath := lib.relative(directory, document.filePath),
      sourceMap := match document.sourceMap
        case None => None
        case Some(p) => Some(lib.relative(directory, p)),
      contentHash := match document.contentHash
        case None => None
        case Some(h) => Some(if h.HashFor? then HashFor(lib.relative(directory, h.filePath)) else h))
  }

  /**
   * `normalizeDoc` makes the document's path, its dependencies' paths, its
   * source map's path and a 'hashFor' target relative, and keeps an own
   * hash and every other field.
   */
  lemma NormalizeDocFields(lib: Posix, directory: string, document: Document)
    ensures var r := NormalizeDoc(lib, directory, document);
      (r.filePath == lib.relative(directory, document.filePath)) &&
      (r.fileExtension == document.fileExtension && r.contents == document.contents) &&
      (r.isBase64Encoded == document.isBase64Encoded) &&
      (|r.dependencies| == |document.dependencies|) &&
      (forall i :: 0 <= i < |r.dependencies| ==>
        r.dependencies[i] == document.dependencies[i].(filePath := lib.relative(directory, document.dependencies[i].filePath))) &&
      (document.sourceMap.None? ==> r.sourceMap.None?) &&
      (document.sourceMap.Some? ==> r.sourceMap == Some(lib.relative(directory, document.sourceMap.value))) &&
      (document.contentHash.None? ==> r.contentHash.None?) &&
      (HasOwnHash(document) ==> r.contentHash == document.contentHash) &&
      (document.contentHash.Some? && document.contentHash.value.HashFor? ==>
        r.contentHash == Some(HashFor(lib.relative(directory, document.contentHash.value.filePath))))
  {
  }

  /** The entries of `normalizeRegistry`: each registry key made relative, with its normalised document. */
  function NormalizedEntries(lib: Posix, directory: string, registry: DocumentRegistry, paths: seq<string>): (r: seq<(string, Document)>)
    requires forall p :: p in paths ==> p in registry
    ensures |r| == |paths|
    ensures forall i :: 0 <= i < |paths| ==> r[i] == (lib.relative(directory, paths[i]), NormalizeDoc(lib, directory, registry[paths[i]]))
  {
    seq(|paths|, (i: int) requires 0 <= i < |paths| => (lib.relative(directory, paths[i]), NormalizeDoc(lib, directory, registry[paths[i]])))
  }

  /** `normalizeRegistry`: `Object.fromEntries` of the normalised entries. */
  function NormalizeRegistry(lib: Posix, directory: string, registry: DocumentRegistry, paths: seq<string>): seq<(string, Document)>
    requires forall p :: p in paths ==> p in registry
  {
    FromEntries(NormalizedEntries(lib, directory, registry, paths))
  }

  /**
   * The normalised registry has a key exactly when some registry key is
   * made relative to it, and holds there the normalised document of the
   * last such key in iteration order.
   */
  lemma NormalizeRegistryLookup(lib: Posix, directory: string, registry: DocumentRegistry, paths: seq<string>, k: string)
    requires forall p :: p in paths ==> p in registry
    ensures var n := NormalizeRegistry(lib, directory, registry, paths);
      (Get(n, k).Some? <==> exists i :: 0 <= i < |paths| && lib.relative(directory, paths[i]) == k) &&
      (Get(n, k).Some? ==>
        exists i :: 0 <= i < |paths| && lib.relative(directory, paths[i]) == k &&
          Get(n, k).value == NormalizeDoc(lib, directory, registry[paths[i]]) &&
          forall j :: i < j < |paths| ==> lib.relative(directory, paths[j]) != k)
  {
    var e := NormalizedEntries(lib, directory, registry, paths);
    var n := FromEntries(e);
    FromEntriesLookup(e, k);
    if exists i :: 0 <= i < |paths| && lib.relative(directory, paths[i]) == k {
      var i :| 0 <= i < |paths| && lib.relative(directory, paths[i]) == k;
      assert e[i].0 == k;
    }
    if Get(n, k).Some? {
      var i :| 0 <= i < |e| && e[i] == (k, Get(n, k).value) && forall j :: i < j < |e| ==> e[j].0 != k;
      assert lib.relative(directory, paths[i]) == k && Get(n, k).value == NormalizeDoc(lib, directory, registry[paths[i]]);
    }
  }

  /**
   * A 'hashFor' link survives normalisation: the normalised document points
   * at the relative path of its target, and when the target is a listed
   * registry key the normalised registry has an entry under that path.
   */
  lemma NormalizeKeepsLinks(lib: Posix, directory: string, registry: DocumentRegistry, paths: seq<string>, p: string, q: string)
    requires forall p :: p in paths ==> p in registry
    requires p in registry && registry[p].contentHash == Some(HashFor(q)) && q in paths
    ensures NormalizeDoc(lib, directory, registry[p]).contentHash == Some(HashFor(lib.relative(directory, q)))
    ensures Get(NormalizeRegistry(lib, directory, registry, paths), lib.relative(directory, q)).Some?
  {
    var i :| 0 <= i < |paths| && paths[i] == q;
    NormalizeDocFields(lib, directory, registry[p]);
    NormalizeRegistryLookup(lib, directory, registry, paths, lib.relative(directory, q));
  }
}
