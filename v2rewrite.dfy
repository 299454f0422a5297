/**
 * The reference rewrite of the v2 engine (v2/infrastructure/rewriteDependencies.ts):
 * every dependency whose hashed path differs from its own path is
 * overwritten with a relative, origin-applied or '.d.ts'-stripped path.
 *
 * v2's own `getHashedPath` rests on a `getContentHash` and `replaceHash`
 * of v2 that are not part of this model, so the hashed path of a registry
 * entry is a parameter here.
 */
module V2Rewrite {
  import opened Wrappers
  import opened Sequences
  import opened Text
  import opened Paths
  import opened Edits
  import opened Registry

  /** The settings of v2 rewriteDependencies (its `hashLength` only feeds the hashed-path function). */
  datatype Settings = Settings(directory: string, baseUrl: Option<string>)

  /** Every dependency of the document names a registry entry: the source dereferences the lookup unchecked. */
  predicate AllRegistered(registry: DocumentRegistry, document: Document) {
    forall k :: 0 <= k < |document.dependencies| ==> document.dependencies[k].filePath in registry
  }

  /** The relative path from the referencing document's directory to the hashed path. */
  function RelativeHashedPath(lib: Posix, document: Document, hashedPath: string): (r: string)
    ensures StartsWith(r, ".") || StartsWith(r, "/")
  {
    EnsureRelative(lib.relative(lib.dirname(document.filePath), hashedPath))
  }

  /**
   * The replacement of one reference: a relative path matching '.d.ts' at
   * its end wins with that ending removed; otherwise a truthy base URL gives
   * the origin-applied path of the unhashed dependency, and without one the
   * relative hashed path is used.
   */
  function ReplacementPath(lib: Posix, settings: Settings, document: Document, dep: Dependency, hashedPath: string): (r: string)
    ensures var rel := RelativeHashedPath(lib, document, hashedPath);
      (PatternAtEnd(rel, DtsExt) ==> r == rel[..|rel| - |DtsExt|]) &&
      (!PatternAtEnd(rel, DtsExt) && HasBaseUrl(settings.baseUrl) ==>
         r == ApplyOrigin(lib, settings.directory, dep.filePath, settings.baseUrl.value)) &&
      (!PatternAtEnd(rel, DtsExt) && !HasBaseUrl(settings.baseUrl) ==> r == rel)
  {
    var relativePath := RelativeHashedPath(lib, document, hashedPath);
    var pathToUse := if HasBaseUrl(settings.baseUrl) then ApplyOrigin(lib, settings.directory, dep.filePath, settings.baseUrl.value)
                     else relativePath;
    if PatternAtEnd(relativePath, DtsExt) then ReplacePatternAtEnd(relativePath, DtsExt, "") else pathToUse
  }

  /** `getHashedPath(registry.get(dep.filePath))`. */
  function HashedPathOf(registry: DocumentRegistry, hashedPath: Document -> string, dep: Dependency): string
    requires dep.filePath in registry
  {
    hashedPath(registry[dep.filePath])
  }

  /** The edit of one dependency: an overwrite of its range when its hashed path is not its own path. */
  function DependencyEdit(lib: Posix, settings: Settings, registry: DocumentRegistry, hashedPath: Document -> string,
                          document: Document, dep: Dependency): seq<Edit>
    requires dep.filePath in registry
  {
    var hashed := HashedPathOf(registry, hashedPath, dep);
    if hashed != dep.filePath
    then [Edit(dep.position.start, dep.position.end, ReplacementPath(lib, settings, document, dep, hashed))]
    else []
  }

  /** The edits of `deps`: one per dependency whose hashed path is not its own path. */
  function DependencyEdits(lib: Posix, settings: Settings, registry: DocumentRegistry, hashedPath: Document -> string,
                           document: Document, deps: seq<Dependency>): seq<Edit>
    requires forall k :: 0 <= k < |deps| ==> deps[k].filePath in registry
  {
    if deps == [] then []
    else
      DependencyEdit(lib, settings, registry, hashedPath, document, deps[0]) +
      DependencyEdits(lib, settings, registry, hashedPath, document, deps[1..])
  }

  /**
   * Exactly the dependencies whose hashed path differs from their own are
   * overwritten, each over its own range with its replacement path.
   */
  lemma {:induction false} DependencyEditsExact(lib: Posix, settings: Settings, registry: DocumentRegistry,
                                                hashedPath: Document -> string, document: Document, deps: seq<Dependency>)
    requires forall k :: 0 <= k < |deps| ==> deps[k].filePath in registry
    ensures forall e :: e in DependencyEdits(lib, settings, registry, hashedPath, document, deps) <==>
      exists dep :: dep in deps && hashedPath(registry[dep.filePath]) != dep.filePath &&
        e == Edit(dep.position.start, dep.position.end,
                  ReplacementPath(lib, settings, document, dep, hashedPath(registry[dep.filePath])))
  {
    if deps != [] {
      DependencyEditsExact(lib, settings, registry, hashedPath, document, deps[1..]);
      assert forall dep :: dep in deps <==> dep == deps[0] || dep in deps[1..];
    }
  }

  /** When no dependency's hashed path differs from its own, the contents are left alone. */
  lemma {:induction false} UnhashedDependenciesNoEdits(lib: Posix, settings: Settings, registry: DocumentRegistry,
                                                       hashedPath: Document -> string, document: Document, deps: seq<Dependency>)
    requires forall k :: 0 <= k < |deps| ==> deps[k].filePath in registry
    requires forall k :: 0 <= k < |deps| ==> hashedPath(registry[deps[k].filePath]) == deps[k].filePath
    ensures DependencyEdits(lib, settings, registry, hashedPath, document, deps) == []
  {
    if deps != [] {
      UnhashedDependenciesNoEdits(lib, settings, registry, hashedPath, document, deps[1..]);
    }
  }

  /**
   * Without a truthy base URL every replacement is a './', '../' or '/'
   * path, or what remains of one once its '.d.ts' ending is dropped.
   */
  lemma ReplacementIsRelative(lib: Posix, settings: Settings, document: Document, dep: Dependency, hashedPath: string)
    requires !HasBaseUrl(settings.baseUrl)
    ensures var r := ReplacementPath(lib, settings, document, dep, hashedPath);
      var rel := RelativeHashedPath(lib, document, hashedPath);
      StartsWith(rel, r) && (r != [] ==> r[0] == '.' || r[0] == '/')
  {
    var rel := RelativeHashedPath(lib, document, hashedPath);
    var r := ReplacementPath(lib, settings, document, dep, hashedPath);
    if r != [] {
      assert r[0] == rel[0];
    }
  }

  /** A '.d.ts' relative path is stripped even when a base URL is set: the origin is not applied. */
  lemma DtsWinsOverBaseUrl(lib: Posix, settings: Settings, document: Document, dep: Dependency, stem: string)
    requires RelativeHashedPath(lib, document, stem + DtsExt) == stem + DtsExt
    ensures ReplacementPath(lib, settings, document, dep, stem + DtsExt) == stem
  {
    EndsWithAppend(stem, DtsExt);
    EndsWithMatchesPattern(stem + DtsExt, DtsExt);
    assert (stem + DtsExt)[..|stem|] == stem;
  }

  /** The edits from position `i` on: those of the dependency at `i`, then the rest. */
  lemma DependencyEditsStep(lib: Posix, settings: Settings, registry: DocumentRegistry, hashedPath: Document -> string,
                            document: Document, deps: seq<Dependency>, i: nat)
    requires forall k :: 0 <= k < |deps| ==> deps[k].filePath in registry
    requires i < |deps|
    ensures DependencyEdits(lib, settings, registry, hashedPath, document, deps[i..]) ==
      DependencyEdit(lib, settings, registry, hashedPath, document, deps[i]) +
      DependencyEdits(lib, settings, registry, hashedPath, document, deps[i + 1..])
  {
    assert deps[i..][1..] == deps[i + 1..];
  }

  /** The body of the loop over the dependencies: the overwrite of one reference. */
  method RewriteDependency(ms: MagicString, lib: Posix, settings: Settings, registry: DocumentRegistry,
                           hashedPath: Document -> string, document: Document, dep: Dependency)
    requires dep.filePath in registry
    modifies ms
    ensures ms.edits == old(ms.edits) + DependencyEdit(lib, settings, registry, hashedPath, document, dep)
  {
    var hashed := HashedPathOf(registry, hashedPath, dep);
    if hashed != dep.filePath {
      ms.Overwrite(dep.position.start, dep.position.end, ReplacementPath(lib, settings, document, dep, hashed));
    }
  }

  /** v2 `rewriteDocumentDependencies(document, registry, directory, hashLength, baseUrl)(ms)`. */
  method RewriteDocumentDependencies(ms: MagicString, lib: Posix, settings: Settings, registry: DocumentRegistry,
                                     hashedPath: Document -> string, document: Document)
    requires AllRegistered(registry, document)
    modifies ms
    ensures ms.edits == old(ms.edits) + DependencyEdits(lib, settings, registry, hashedPath, document, document.dependencies)
  {
    ghost var start := ms.edits;
    var deps := document.dependencies;
    for i := 0 to |deps|
      invariant ms.edits + DependencyEdits(lib, settings, registry, hashedPath, document, deps[i..]) ==
        start + DependencyEdits(lib, settings, registry, hashedPath, document, deps)
    {
      DependencyEditsStep(lib, settings, registry, hashedPath, document, deps, i);
      assert ms.edits + (DependencyEdit(lib, settings, registry, hashedPath, document, deps[i]) +
                         DependencyEdits(lib, settings, registry, hashedPath, document, deps[i + 1..])) ==
             (ms.edits + DependencyEdit(lib, settings, registry, hashedPath, document, deps[i])) +
             DependencyEdits(lib, settings, registry, hashedPath, document, deps[i + 1..]);
      RewriteDependency(ms, lib, settings, registry, hashedPath, document, deps[i]);
    }
  }
}
