/**
 * Hash lookup and hashed file names (infrastructure/hashes/ and
 * plugins/trimHash.ts): resolving a document's hash through 'hashFor'
 * links, trimming it, and inserting it before the file extension.
 */
module Hashes {
  import opened Wrappers
  import opened Text
  import opened Registry

  /** `trimHash(length)(hash)`: unchanged for an undefined length, else the first `length` characters. */
  function TrimHash(length: Option<nat>, hash: string): (r: string)
    ensures length.None? ==> r == hash
    ensures length.Some? ==> |r| == (if length.value <= |hash| then length.value else |hash|)
    ensures StartsWith(hash, r)
  {
    if length.None? then hash else Take(hash, length.value)
  }

  lemma TrimHashIdempotent(length: Option<nat>, hash: string)
    ensures TrimHash(length, TrimHash(length, hash)) == TrimHash(length, hash)
  {
  }

  /** Trimming by n and then by m is trimming by min(n, m). */
  lemma TrimHashTwice(n: nat, m: nat, hash: string)
    ensures TrimHash(Some(m), TrimHash(Some(n), hash)) == TrimHash(Some(if n <= m then n else m), hash)
  {
    var once := TrimHash(Some(n), hash);
    assert once == hash[..|once|];
    var k := if n <= m then n else m;
    if k <= |hash| {
      assert TrimHash(Some(m), once) == once[..if m <= |once| then m else |once|];
    }
  }

  /**
   * `getContentHash`: a document's own hash trimmed to `hashLength`, or the
   * result for the registry entry its 'hashFor' link names; None without a
   * content hash or when the link's target is missing.
   */
  function GetContentHash(d: Document, registry: DocumentRegistry, hashLength: nat): (r: Option<string>)
    requires Acyclic(registry)
    ensures d.contentHash.None? ==> r.None?
    ensures d.contentHash.Some? && d.contentHash.value.Hash? ==> r == Some(Take(d.contentHash.value.hash, hashLength))
    ensures d.contentHash.Some? && d.contentHash.value.HashFor? && d.contentHash.value.filePath !in registry ==> r.None?
    ensures r.Some? ==> |r.value| <= hashLength
    decreases HashForDepth(d, registry)
  {
    match d.contentHash
    case None => None
    case Some(Hash(h)) => Some(Take(h, hashLength))
    case Some(HashFor(p)) =>
      if p in registry then GetContentHash(registry[p], registry, hashLength) else None
  }

  /** The documents reached by following `n` 'hashFor' links from `d` (an independent walk of the chain). */
  function Follow(d: Document, registry: DocumentRegistry, n: nat): Option<Document>
    decreases n
  {
    if n == 0 then Some(d)
    else match d.contentHash
      case Some(HashFor(p)) => if p in registry then Follow(registry[p], registry, n - 1) else None
      case _ => None
  }

  /** Following `n` links from `d` ends at a document with its own hash. */
  predicate ReachesOwnHash(d: Document, registry: DocumentRegistry, n: nat) {
    Follow(d, registry, n).Some? && HasOwnHash(Follow(d, registry, n).value)
  }

  /** The own hash found after `n` links. */
  function ReachedHash(d: Document, registry: DocumentRegistry, n: nat): string
    requires ReachesOwnHash(d, registry, n)
  {
    Follow(d, registry, n).value.contentHash.value.hash
  }

  /** Some result is the trimmed 'hash' of a document reached by following the links. */
  lemma {:induction false} GetContentHashFromChain(d: Document, registry: DocumentRegistry, hashLength: nat)
    requires Acyclic(registry)
    requires GetContentHash(d, registry, hashLength).Some?
    ensures exists n: nat :: (ReachesOwnHash(d, registry, n) &&
                              GetContentHash(d, registry, hashLength).value == Take(ReachedHash(d, registry, n), hashLength))
    decreases HashForDepth(d, registry)
  {
    match d.contentHash
    case Some(Hash(h)) =>
      assert ReachesOwnHash(d, registry, 0) && ReachedHash(d, registry, 0) == h;
    case Some(HashFor(p)) =>
      GetContentHashFromChain(registry[p], registry, hashLength);
      var n: nat :| ReachesOwnHash(registry[p], registry, n) &&
        GetContentHash(registry[p], registry, hashLength).value == Take(ReachedHash(registry[p], registry, n), hashLength);
      assert Follow(d, registry, n + 1) == Follow(registry[p], registry, n);
      assert ReachesOwnHash(d, registry, n + 1) && ReachedHash(d, registry, n + 1) == ReachedHash(registry[p], registry, n);
  }

  /** Conversely, reaching a 'hash' document along the links makes getContentHash return its trimmed hash. */
  lemma {:induction false} ChainGivesContentHash(d: Document, registry: DocumentRegistry, hashLength: nat, n: nat)
    requires Acyclic(registry)
    requires ReachesOwnHash(d, registry, n)
    ensures GetContentHash(d, registry, hashLength) == Some(Take(ReachedHash(d, registry, n), hashLength))
    decreases n
  {
    if n > 0 {
      var p := d.contentHash.value.filePath;
      ChainGivesContentHash(registry[p], registry, hashLength, n - 1);
    }
  }

  /** `replaceHash(filePath, extension, hash)`: '.' + hash inserted before the end-anchored extension. */
  function ReplaceHash(filePath: string, extension: string, hash: string): (r: string)
    ensures PatternAtEnd(filePath, extension) ==> r == filePath[..|filePath| - |extension|] + "." + hash + extension
    ensures !PatternAtEnd(filePath, extension) ==> r == filePath
  {
    ReplacePatternAtEnd(filePath, extension, "." + hash + extension)
  }

  /**
   * For an extension that is a literal suffix: the stem is kept as a prefix,
   * the extension is still the suffix, the text in between is '.' + hash, and
   * the path grows by |hash| + 1.
   */
  lemma ReplaceHashShape(filePath: string, extension: string, hash: string)
    requires EndsWith(filePath, extension)
    ensures var r := ReplaceHash(filePath, extension, hash);
      var stem := filePath[..|filePath| - |extension|];
      StartsWith(r, stem) && EndsWith(r, extension) && |r| == |filePath| + |hash| + 1 &&
      r[|stem|..|r| - |extension|] == "." + hash
  {
    EndsWithMatchesPattern(filePath, extension);
    var stem := filePath[..|filePath| - |extension|];
    var r := ReplaceHash(filePath, extension, hash);
    assert r == stem + ("." + hash) + extension;
  }

  /** `getHashedPath`: the path with the resolved hash inserted, or the path itself when there is none. */
  function GetHashedPath(d: Document, registry: DocumentRegistry, hashLength: nat): (r: string)
    requires Acyclic(registry)
    ensures GetContentHash(d, registry, hashLength).None? ==> r == d.filePath
    ensures GetContentHash(d, registry, hashLength).Some? ==>
      r == ReplaceHash(d.filePath, d.fileExtension, GetContentHash(d, registry, hashLength).value)
  {
    match GetContentHash(d, registry, hashLength)
    case None => d.filePath
    case Some(h) => ReplaceHash(d.filePath, d.fileExtension, Take(h, hashLength))
  }

  /** A 'hashFor' document embeds the same hash segment as its target. */
  lemma HashForSharesHash(d: Document, registry: DocumentRegistry, hashLength: nat)
    requires Acyclic(registry)
    requires d.contentHash.Some? && d.contentHash.value.HashFor? && d.contentHash.value.filePath in registry
    ensures GetContentHash(d, registry, hashLength) == GetContentHash(registry[d.contentHash.value.filePath], registry, hashLength)
    ensures var t := registry[d.contentHash.value.filePath];
      GetContentHash(t, registry, hashLength).Some? ==>
        GetHashedPath(d, registry, hashLength) == ReplaceHash(d.filePath, d.fileExtension, GetContentHash(t, registry, hashLength).value)
  {
  }

  /** With a literal-suffix extension and a resolved hash h, the hashed path is |filePath| + |h| + 1 long. */
  lemma HashedPathLength(d: Document, registry: DocumentRegistry, hashLength: nat)
    requires Acyclic(registry)
    requires EndsWith(d.filePath, d.fileExtension) && GetContentHash(d, registry, hashLength).Some?
    ensures |GetHashedPath(d, registry, hashLength)| == |d.filePath| + |GetContentHash(d, registry, hashLength).value| + 1
  {
    ReplaceHashShape(d.filePath, d.fileExtension, GetContentHash(d, registry, hashLength).value);
  }

  /** `getHashForPath`: the path with its end-anchored extension replaced by `replacementExt`. */
  function GetHashForPath(d: Document, replacementExt: string): (r: string)
    ensures PatternAtEnd(d.filePath, d.fileExtension) ==> r == d.filePath[..|d.filePath| - |d.fileExtension|] + replacementExt
    ensures !PatternAtEnd(d.filePath, d.fileExtension) ==> r == d.filePath
  {
    ReplacePatternAtEnd(d.filePath, d.fileExtension, replacementExt)
  }

  /** `getHashFor`: the document with its content hash pointing at the sibling with `replacementExt`. */
  function GetHashFor(d: Document, replacementExt: string): (r: Document)
    ensures r.contentHash == Some(HashFor(GetHashForPath(d, replacementExt)))
    ensures r == d.(contentHash := r.contentHash)
  {
    d.(contentHash := Some(HashFor(GetHashForPath(d, replacementExt))))
  }

  /** 'bar.d.ts' with extension '.d.ts' and replacement '.js' points at 'bar.js'. */
  lemma GetHashForPathExample(d: Document)
    requires d.filePath == "bar.d.ts" && d.fileExtension == ".d.ts"
    ensures GetHashForPath(d, ".js") == "bar.js"
  {
    assert PatternAtEnd(d.filePath, d.fileExtension);
  }
}
