/**
 * `generateAssetManifest` of
 * infrastructure/provideHashDirectoryEnv/generateAssetManifest.ts: a record
 * from each document's path, relative to the directory, to the path it is
 * renamed to, with the entries of its source map and source-map proxy and
 * of its declaration file. The record is assigned key by key, so it is an
 * insertion-ordered map whose later assignments win.
 */
module AssetManifest {
  import opened Wrappers
  import opened Paths
  import opened Hashes
  import opened OrderedMaps
  import opened Domain

  const SourceMapPostfix := ".map"
  const SourceMapProxyPostfix := ".map.proxy.js"

  /** A hash out of `hashes.get(...)` is truthy when it is there and not the empty string. */
  predicate Truthy(hash: Option<string>) {
    hash.Some? && hash.value != ""
  }

  /** The path a document is renamed to: with the hash inserted when there is one. */
  function RenamedPath(document: Document, hash: Option<string>): (r: string)
    ensures Truthy(hash) ==> r == ReplaceHash(document.filePath, document.fileExtension, hash.value)
    ensures !Truthy(hash) ==> r == document.filePath
  {
    if Truthy(hash) then ReplaceDocumentHash(document, hash.value).filePath else document.filePath
  }

  /** The assignments `addDocument` makes, in order. */
  function AddedEntries(lib: Posix, directory: string, document: Document, hash: Option<string>): seq<(string, string)>
  {
    var from := lib.relative(directory, document.filePath);
    var to := lib.relative(directory, RenamedPath(document, hash));
    [(from, to)] +
    if document.sourceMap.Some? then
      [(from + SourceMapPostfix, to + SourceMapPostfix)] +
      if document.sourceMap.value.proxy.Some? then [(from + SourceMapProxyPostfix, to + SourceMapProxyPostfix)] else []
    else []
  }

  /** The assignments of one turn of the loop: the document's, then its declaration file's under the same hash. */
  function DocumentAssignments(lib: Posix, directory: string, document: Document, hashes: seq<(string, string)>): seq<(string, string)>
  {
    var hash := Get(hashes, document.filePath);
    AddedEntries(lib, directory, document, hash) +
    if document.dts.Some? then AddedEntries(lib, directory, document.dts.value, hash) else []
  }

  /** All assignments of the loop, document by document. */
  function Assignments(lib: Posix, directory: string, documents: seq<Document>, hashes: seq<(string, string)>): seq<(string, string)>
  {
    if documents == [] then []
    else
      Assignments(lib, directory, documents[..|documents| - 1], hashes) +
      DocumentAssignments(lib, directory, documents[|documents| - 1], hashes)
  }

  /** The document's three keys, when it has the companions they name. */
  predicate NamesRepresentation(lib: Posix, directory: string, document: Document, k: string) {
    var from := lib.relative(directory, document.filePath);
    k == from ||
    (document.sourceMap.Some? && k == from + SourceMapPostfix) ||
    (Proxy(document).Some? && k == from + SourceMapProxyPostfix)
  }

  /** A key one turn of the loop writes: one of the document's or of its declaration file's. */
  predicate NamesDocument(lib: Posix, directory: string, document: Document, k: string) {
    NamesRepresentation(lib, directory, document, k) ||
    (document.dts.Some? && NamesRepresentation(lib, directory, document.dts.value, k))
  }

  /** `addDocument`: the three assignments into the manifest. */
  method AddDocument(assetManifest: seq<(string, string)>, lib: Posix, directory: string, document: Document, hash: Option<string>)
    returns (r: seq<(string, string)>)
    ensures r == PutAll(assetManifest, AddedEntries(lib, directory, document, hash))
  {
    var from := lib.relative(directory, document.filePath);
    var to := lib.relative(directory, if Truthy(hash) then ReplaceDocumentHash(document, hash.value).filePath else document.filePath);
    var entries := AddedEntries(lib, directory, document, hash);
    r := Put(assetManifest, from, to);
    assert entries[..1] == [(from, to)];
    assert PutAll(assetManifest, entries[..1]) == r;
    if document.sourceMap.Some? {
      r := Put(r, from + SourceMapPostfix, to + SourceMapPostfix);
      assert entries[..2][..1] == entries[..1];
      assert PutAll(assetManifest, entries[..2]) == r;
      if document.sourceMap.value.proxy.Some? {
        r := Put(r, from + SourceMapProxyPostfix, to + SourceMapProxyPostfix);
        assert entries[..3][..2] == entries[..2];
        assert entries[..3] == entries;
      } else {
        assert entries[..2] == entries;
      }
    } else {
      assert entries[..1] == entries;
    }
  }

  /** One turn of the loop: the document, then its declaration file under the document's hash. */
  method AddDocumentAndDeclaration(assetManifest: seq<(string, string)>, lib: Posix, directory: string, document: Document,
                                   hashes: seq<(string, string)>)
    returns (r: seq<(string, string)>)
    ensures r == PutAll(assetManifest, DocumentAssignments(lib, directory, document, hashes))
  {
    var hash := Get(hashes, document.filePath);
    var own := AddedEntries(lib, directory, document, hash);
    r := AddDocument(assetManifest, lib, directory, document, hash);
    if document.dts.Some? {
      r := AddDocument(r, lib, directory, document.dts.value, hash);
      PutAllConcat(assetManifest, own, AddedEntries(lib, directory, document.dts.value, hash));
    } else {
      assert own + [] == own;
    }
  }

  /** The loop over the documents; the declaration file is added with the document's own hash. */
  method GenerateAssetManifest(lib: Posix, directory: string, documents: seq<Document>, hashes: seq<(string, string)>)
    returns (assetManifest: seq<(string, string)>)
    ensures assetManifest == FromEntries(Assignments(lib, directory, documents, hashes))
  {
    assetManifest := [];
    for i := 0 to |documents|
      invariant assetManifest == FromEntries(Assignments(lib, directory, documents[..i], hashes))
    {
      PrefixStep(documents, i);
      FromEntriesConcat(Assignments(lib, directory, documents[..i], hashes), DocumentAssignments(lib, directory, documents[i], hashes));
      assetManifest := AddDocumentAndDeclaration(assetManifest, lib, directory, documents[i], hashes);
    }
    assert documents[..|documents|] == documents;
  }

  /** The prefix of one more document is the old prefix and that document. */
  lemma PrefixStep(documents: seq<Document>, i: nat)
    requires i < |documents|
    ensures documents[..i + 1][..i] == documents[..i] && documents[..i + 1][i] == documents[i]
  {
  }

  /**
   * What `addDocument` leaves for a key: the renamed path for the document's
   * path, that path with '.map' for its source map's key and with
   * '.map.proxy.js' for its proxy's key, and nothing for any other key.
   */
  lemma AddedEntriesLastValue(lib: Posix, directory: string, document: Document, hash: Option<string>, k: string)
    ensures var from := lib.relative(directory, document.filePath);
      var to := lib.relative(directory, RenamedPath(document, hash));
      LastValue(AddedEntries(lib, directory, document, hash), k) ==
        if k == from then Some(to)
        else if document.sourceMap.Some? && k == from + SourceMapPostfix then Some(to + SourceMapPostfix)
        else if Proxy(document).Some? && k == from + SourceMapProxyPostfix then Some(to + SourceMapProxyPostfix)
        else None
  {
    var from := lib.relative(directory, document.filePath);
    var to := lib.relative(directory, RenamedPath(document, hash));
    var e0 := [(from, to)];
    var e1 := [(from + SourceMapPostfix, to + SourceMapPostfix)];
    var e2 := [(from + SourceMapProxyPostfix, to + SourceMapProxyPostfix)];
    assert |from + SourceMapPostfix| == |from| + 4 && |from + SourceMapProxyPostfix| == |from| + 13;
    assert LastValue(e0, k) == if k == from then Some(to) else None by {
      assert e0[..0] == [];
    }
    assert LastValue(e1, k) == if k == from + SourceMapPostfix then Some(to + SourceMapPostfix) else None by {
      assert e1[..0] == [];
    }
    assert LastValue(e2, k) == if k == from + SourceMapProxyPostfix then Some(to + SourceMapProxyPostfix) else None by {
      assert e2[..0] == [];
    }
    if document.sourceMap.Some? {
      if document.sourceMap.value.proxy.Some? {
        LastValueConcat(e1, e2, k);
        LastValueConcat(e0, e1 + e2, k);
      } else {
        assert e1 + [] == e1;
        LastValueConcat(e0, e1, k);
      }
    } else {
      assert e0 + [] == e0;
    }
  }

  /** `addDocument` sets exactly the document's keys, to the values above, and leaves every other key as it was. */
  lemma AddDocumentGet(assetManifest: seq<(string, string)>, lib: Posix, directory: string, document: Document, hash: Option<string>, k: string)
    ensures var from := lib.relative(directory, document.filePath);
      var to := lib.relative(directory, RenamedPath(document, hash));
      Get(PutAll(assetManifest, AddedEntries(lib, directory, document, hash)), k) ==
        if k == from then Some(to)
        else if document.sourceMap.Some? && k == from + SourceMapPostfix then Some(to + SourceMapPostfix)
        else if Proxy(document).Some? && k == from + SourceMapProxyPostfix then Some(to + SourceMapProxyPostfix)
        else Get(assetManifest, k)
  {
    PutAllGet(assetManifest, AddedEntries(lib, directory, document, hash), k);
    AddedEntriesLastValue(lib, directory, document, hash, k);
  }

  /** Assignments for one more document come after those of the documents before it. */
  lemma AssignmentsSnoc(lib: Posix, directory: string, documents: seq<Document>, d: Document, hashes: seq<(string, string)>)
    ensures Assignments(lib, directory, documents + [d], hashes) ==
      Assignments(lib, directory, documents, hashes) + DocumentAssignments(lib, directory, d, hashes)
  {
    assert (documents + [d])[..|documents|] == documents;
  }

  /** The keys one turn of the loop writes are exactly the document's and its declaration file's. */
  lemma DocumentAssignmentsKeys(lib: Posix, directory: string, document: Document, hashes: seq<(string, string)>, k: string)
    ensures LastValue(DocumentAssignments(lib, directory, document, hashes), k).Some? <==> NamesDocument(lib, directory, document, k)
  {
    var hash := Get(hashes, document.filePath);
    AddedEntriesLastValue(lib, directory, document, hash, k);
    if document.dts.Some? {
      AddedEntriesLastValue(lib, directory, document.dts.value, hash, k);
      LastValueConcat(AddedEntries(lib, directory, document, hash), AddedEntries(lib, directory, document.dts.value, hash), k);
    } else {
      assert AddedEntries(lib, directory, document, hash) + [] == AddedEntries(lib, directory, document, hash);
    }
  }

  /**
   * The manifest has a key exactly when some document names it: its path,
   * its source map's or proxy's, or those of its declaration file.
   */
  lemma {:induction false} ManifestKeys(lib: Posix, directory: string, documents: seq<Document>, hashes: seq<(string, string)>, k: string)
    ensures Get(FromEntries(Assignments(lib, directory, documents, hashes)), k).Some? <==>
      exists i :: 0 <= i < |documents| && NamesDocument(lib, directory, documents[i], k)
  {
    FromEntriesGet(Assignments(lib, directory, documents, hashes), k);
    if documents != [] {
      var init := documents[..|documents| - 1];
      var last := documents[|documents| - 1];
      assert documents == init + [last];
      ManifestKeys(lib, directory, init, hashes, k);
      FromEntriesGet(Assignments(lib, directory, init, hashes), k);
      LastValueConcat(Assignments(lib, directory, init, hashes), DocumentAssignments(lib, directory, last, hashes), k);
      DocumentAssignmentsKeys(lib, directory, last, hashes, k);
      assert forall i :: 0 <= i < |init| ==> init[i] == documents[i];
    }
  }

  /** Later assignments win: for a key the last document writes, the manifest holds what that document wrote. */
  lemma LastDocumentWins(lib: Posix, directory: string, documents: seq<Document>, d: Document, hashes: seq<(string, string)>, k: string)
    requires NamesDocument(lib, directory, d, k)
    ensures Get(FromEntries(Assignments(lib, directory, documents + [d], hashes)), k) ==
      LastValue(DocumentAssignments(lib, directory, d, hashes), k)
  {
    AssignmentsSnoc(lib, directory, documents, d, hashes);
    FromEntriesGet(Assignments(lib, directory, documents + [d], hashes), k);
    LastValueConcat(Assignments(lib, directory, documents, hashes), DocumentAssignments(lib, directory, d, hashes), k);
    DocumentAssignmentsKeys(lib, directory, d, hashes, k);
  }

  /**
   * For the last document, which has no declaration file, its relative path
   * maps to the relative path of its renamed file, renamed with the hash
   * `hashes` has for it; without a (non-empty) hash, to itself.
   */
  lemma PrimaryEntry(lib: Posix, directory: string, documents: seq<Document>, d: Document, hashes: seq<(string, string)>)
    requires d.dts.None?
    ensures var k := lib.relative(directory, d.filePath);
      var hash := Get(hashes, d.filePath);
      Get(FromEntries(Assignments(lib, directory, documents + [d], hashes)), k) ==
        Some(lib.relative(directory, if Truthy(hash) then ReplaceHash(d.filePath, d.fileExtension, hash.value) else d.filePath))
  {
    var k := lib.relative(directory, d.filePath);
    var hash := Get(hashes, d.filePath);
    LastDocumentWins(lib, directory, documents, d, hashes, k);
    AddedEntriesLastValue(lib, directory, d, hash, k);
    assert DocumentAssignments(lib, directory, d, hashes) == AddedEntries(lib, directory, d, hash) + [];
    assert AddedEntries(lib, directory, d, hash) + [] == AddedEntries(lib, directory, d, hash);
  }

  /**
   * The declaration file is renamed with the hash of the document that
   * carries it: for the last document, the declaration file's relative path
   * maps to its path renamed with the document's hash.
   */
  lemma DtsUsesPrimaryHash(lib: Posix, directory: string, documents: seq<Document>, d: Document, hashes: seq<(string, string)>)
    requires d.dts.Some?
    ensures var k := lib.relative(directory, d.dts.value.filePath);
      var hash := Get(hashes, d.filePath);
      Get(FromEntries(Assignments(lib, directory, documents + [d], hashes)), k) ==
        Some(lib.relative(directory, RenamedPath(d.dts.value, hash)))
  {
    var dts := d.dts.value;
    var k := lib.relative(directory, dts.filePath);
    var hash := Get(hashes, d.filePath);
    LastDocumentWins(lib, directory, documents, d, hashes, k);
    AddedEntriesLastValue(lib, directory, dts, hash, k);
    LastValueConcat(AddedEntries(lib, directory, d, hash), AddedEntries(lib, directory, dts, hash), k);
  }

  /** Without a hash, every assignment maps a key to itself. */
  lemma {:induction false} UnhashedAssignments(lib: Posix, directory: string, documents: seq<Document>, hashes: seq<(string, string)>)
    requires forall i :: 0 <= i < |documents| ==> !Truthy(Get(hashes, documents[i].filePath))
    ensures forall e :: e in Assignments(lib, directory, documents, hashes) ==> e.1 == e.0
  {
    if documents != [] {
      var init := documents[..|documents| - 1];
      assert forall i :: 0 <= i < |init| ==> init[i] == documents[i];
      UnhashedAssignments(lib, directory, init, hashes);
    }
  }

  /** With no hash for any document, the manifest maps every key to itself. */
  lemma UnhashedManifestIsIdentity(lib: Posix, directory: string, documents: seq<Document>, hashes: seq<(string, string)>, k: string)
    requires forall i :: 0 <= i < |documents| ==> !Truthy(Get(hashes, documents[i].filePath))
    requires Get(FromEntries(Assignments(lib, directory, documents, hashes)), k).Some?
    ensures Get(FromEntries(Assignments(lib, directory, documents, hashes)), k).value == k
  {
    UnhashedAssignments(lib, directory, documents, hashes);
    FromEntriesGet(Assignments(lib, directory, documents, hashes), k);
    LastValueFrom(Assignments(lib, directory, documents, hashes), k);
  }
}
