/**
 * The pipeline of application/services/hashDirectory.ts: the documents,
 * already read and sorted, are rewritten one at a time with the hashes of
 * those before them (`reduce` over `rewriteFile`); the rewritten documents
 * get their hashes inserted into their names; and the diff and the asset
 * manifest are taken against the documents as first read. The plugin
 * services are parameters.
 */
module HashDirectory {
  import opened Wrappers
  import opened Sequences
  import opened Paths
  import opened OrderedMaps
  import opened Domain
  import opened Diff
  import opened AssetManifest

  /** `DocumentHashes`: the rewritten documents so far and the hashes of each path. */
  datatype DocumentHashes = DocumentHashes(documents: seq<Document>, hashes: seq<(string, string)>)

  /** `rewriteFileContent` and `generateContentHashes` of the plugins. */
  datatype Services = Services(
    rewriteFileContent: (Document, seq<(string, string)>, nat) -> Document,
    generateContentHashes: Document -> seq<(string, string)>,
    rewriteDocumentHashes: (seq<Document>, seq<(string, string)>) -> seq<Document>)

  /** A left fold: `f` applied to the seed and each value in order. */
  function FoldLeft<A, B>(f: (A, B) -> A, seed: A, values: seq<B>): A
  {
    if values == [] then seed
    else f(FoldLeft(f, seed, values[..|values| - 1]), values[|values| - 1])
  }

  /** `reduce`: the accumulator threaded through the values one by one. */
  method Reduce<A, B>(f: (A, B) -> A, seed: A, values: seq<B>) returns (acc: A)
    ensures acc == FoldLeft(f, seed, values)
  {
    acc := seed;
    for i := 0 to |values|
      invariant acc == FoldLeft(f, seed, values[..i])
    {
      assert values[..i + 1][..i] == values[..i];
      acc := f(acc, values[i]);
    }
    assert values[..|values|] == values;
  }

  /**
   * `rewriteFile`: the document rewritten with the hashes so far is
   * appended, and its hashes are added to the map, overriding earlier ones.
   */
  function RewriteFile(services: Services, acc: DocumentHashes, document: Document, hashLength: nat): (r: DocumentHashes)
    ensures |r.documents| == |acc.documents| + 1 && r.documents[..|acc.documents|] == acc.documents
    ensures r.documents[|acc.documents|] == services.rewriteFileContent(document, acc.hashes, hashLength)
  {
    var updated := services.rewriteFileContent(document, acc.hashes, hashLength);
    var updatedHashes := services.generateContentHashes(updated);
    DocumentHashes(acc.documents + [updated], FromEntries(acc.hashes + updatedHashes))
  }

  /** The reducer handed to `reduce`. */
  function Step(services: Services, hashLength: nat): (DocumentHashes, Document) -> DocumentHashes {
    (a: DocumentHashes, b: Document) => RewriteFile(services, a, b, hashLength)
  }

  const Seed := DocumentHashes([], [])

  /** The fold over the documents. */
  function Hashed(services: Services, hashLength: nat, documents: seq<Document>): DocumentHashes {
    FoldLeft(Step(services, hashLength), Seed, documents)
  }

  /** The hashes of the rewritten documents, one after the other. */
  function AllHashes(services: Services, documents: seq<Document>): seq<(string, string)>
  {
    if documents == [] then []
    else AllHashes(services, documents[..|documents| - 1]) + services.generateContentHashes(documents[|documents| - 1])
  }

  /**
   * After the fold there is one rewritten document per input document, in
   * order, and document i was rewritten with the hashes of documents 0..i-1
   * only.
   */
  lemma {:induction false} HashedDocuments(services: Services, hashLength: nat, documents: seq<Document>)
    ensures var r := Hashed(services, hashLength, documents);
      |r.documents| == |documents| &&
      forall i :: 0 <= i < |documents| ==>
        r.documents[i] == services.rewriteFileContent(documents[i], Hashed(services, hashLength, documents[..i]).hashes, hashLength)
  {
    if documents != [] {
      var init := documents[..|documents| - 1];
      HashedDocuments(services, hashLength, init);
      var prev := Hashed(services, hashLength, init);
      var r := Hashed(services, hashLength, documents);
      assert r == RewriteFile(services, prev, documents[|documents| - 1], hashLength);
      forall i | 0 <= i < |documents|
        ensures r.documents[i] == services.rewriteFileContent(documents[i], Hashed(services, hashLength, documents[..i]).hashes, hashLength)
      {
        if i < |init| {
          assert documents[..i] == init[..i];
          assert r.documents[i] == r.documents[..|prev.documents|][i];
        } else {
          assert documents[..i] == init;
        }
      }
    }
  }

  /** The keys of the hash map are each there once. */
  lemma HashedKeysDistinct(services: Services, hashLength: nat, documents: seq<Document>)
    ensures Distinct(Keys(Hashed(services, hashLength, documents).hashes))
  {
    if documents != [] {
      var init := documents[..|documents| - 1];
      var prev := Hashed(services, hashLength, init);
      var upd := services.rewriteFileContent(documents[|documents| - 1], prev.hashes, hashLength);
      FromEntriesKeys(prev.hashes + services.generateContentHashes(upd));
      CollectMembers(Keys(prev.hashes + services.generateContentHashes(upd)), KeepAll);
    }
  }

  /**
   * The hash map answers every path with the hash the last rewritten
   * document to produce one gave it: later documents override earlier ones.
   */
  lemma {:induction false} HashedHashes(services: Services, hashLength: nat, documents: seq<Document>, k: string)
    ensures var r := Hashed(services, hashLength, documents);
      Get(r.hashes, k) == LastValue(AllHashes(services, r.documents), k)
  {
    if documents != [] {
      var init := documents[..|documents| - 1];
      HashedHashes(services, hashLength, init, k);
      var prev := Hashed(services, hashLength, init);
      var r := Hashed(services, hashLength, documents);
      var upd := services.rewriteFileContent(documents[|documents| - 1], prev.hashes, hashLength);
      assert r.documents == prev.documents + [upd];
      assert r.documents[..|r.documents| - 1] == prev.documents;
      var gen := services.generateContentHashes(upd);
      FromEntriesGet(prev.hashes + gen, k);
      LastValueConcat(prev.hashes, gen, k);
      HashedKeysDistinct(services, hashLength, init);
      DistinctKeysGet(prev.hashes, k);
      LastValueConcat(AllHashes(services, prev.documents), gen, k);
    }
  }

  /** What the pipeline reports. */
  datatype HashedDirectory = HashedDirectory(
    assetManifest: seq<(string, string)>,
    created: seq<Document>,
    deleted: seq<Document>,
    hashes: seq<(string, string)>,
    unchangedDocs: seq<Document>)

  /**
   * `hashDirectory` from the sorted documents on: the fold, the renaming of
   * the rewritten documents, then the diff of the first reading against the
   * renamed documents and the manifest of the first reading.
   */
  method HashDirectory(lib: Posix, directory: string, services: Services, hashLength: nat, initialDocuments: seq<Document>)
    returns (r: HashedDirectory)
    ensures r.hashes == Hashed(services, hashLength, initialDocuments).hashes
    ensures var rewritten := services.rewriteDocumentHashes(Hashed(services, hashLength, initialDocuments).documents, r.hashes);
      r.created == Collect(rewritten, Absent(ByPath(initialDocuments))) &&
      r.deleted == Collect(initialDocuments, Absent(ByPath(rewritten))) &&
      r.unchangedDocs == Collect(initialDocuments, SameContents(ByPath(rewritten)))
    ensures r.assetManifest == FromEntries(Assignments(lib, directory, initialDocuments, r.hashes))
  {
    var acc := Reduce(Step(services, hashLength), Seed, initialDocuments);
    var rewrittenDocuments := services.rewriteDocumentHashes(acc.documents, acc.hashes);
    var created, deleted, unchangedDocs := DiffDocuments(initialDocuments, rewrittenDocuments);
    var assetManifest := GenerateAssetManifest(lib, directory, initialDocuments, acc.hashes);
    r := HashedDirectory(assetManifest, created, deleted, acc.hashes, unchangedDocs);
  }
}
