/**
 * `diffDocuments` of infrastructure/provideHashDirectoryEnv/diffDocuments.ts:
 * which documents of a new reading of a directory are new, which old ones
 * are gone, and which kept their contents. Documents are compared by path
 * and contents; a document with a new path is created, an old path with no
 * new document is deleted. The hashes argument is unused by the source and
 * left out.
 */
module Diff {
  import opened Wrappers
  import opened Sequences
  import opened OrderedMaps
  import opened Domain

  /** The entries of `new Map(docs.map(d => [d.filePath, d]))`. */
  function DocEntries(docs: seq<Document>): (r: seq<(string, Document)>)
    ensures |r| == |docs|
    ensures forall i :: 0 <= i < |docs| ==> r[i] == (docs[i].filePath, docs[i])
  {
    seq(|docs|, (i: int) requires 0 <= i < |docs| => (docs[i].filePath, docs[i]))
  }

  function ByPath(docs: seq<Document>): seq<(string, Document)> {
    FromEntries(DocEntries(docs))
  }

  /** The test of a document whose path the map does not have. */
  function Absent(byPath: seq<(string, Document)>): Document -> bool {
    (d: Document) => Get(byPath, d.filePath).None?
  }

  /** The test of a document whose path the map has, with the same contents. */
  function SameContents(byPath: seq<(string, Document)>): Document -> bool {
    (d: Document) => Get(byPath, d.filePath).Some? && Get(byPath, d.filePath).value.contents == d.contents
  }

  /** One pass over the current documents: gone ones to `deleted`, unchanged ones to `unchangedDocs`. */
  method DiffDocuments(currentDocs: seq<Document>, updatedDocs: seq<Document>)
    returns (created: seq<Document>, deleted: seq<Document>, unchangedDocs: seq<Document>)
    ensures created == Collect(updatedDocs, Absent(ByPath(currentDocs)))
    ensures deleted == Collect(currentDocs, Absent(ByPath(updatedDocs)))
    ensures unchangedDocs == Collect(currentDocs, SameContents(ByPath(updatedDocs)))
  {
    var currentFilePaths := ByPath(currentDocs);
    var updatedFilePaths := ByPath(updatedDocs);
    created, deleted, unchangedDocs := [], [], [];
    for i := 0 to |currentDocs|
      invariant deleted == Collect(currentDocs[..i], Absent(updatedFilePaths))
      invariant unchangedDocs == Collect(currentDocs[..i], SameContents(updatedFilePaths))
    {
      var current := currentDocs[i];
      assert currentDocs[..i + 1][..i] == currentDocs[..i];
      var updated := Get(updatedFilePaths, current.filePath);
      if updated.None? {
        deleted := AddOnce(deleted, current);
        continue;
      }
      if current.contents == updated.value.contents {
        unchangedDocs := AddOnce(unchangedDocs, current);
      }
    }
    assert currentDocs[..|currentDocs|] == currentDocs;
    for i := 0 to |updatedDocs|
      invariant created == Collect(updatedDocs[..i], Absent(currentFilePaths))
    {
      var updated := updatedDocs[i];
      assert updatedDocs[..i + 1][..i] == updatedDocs[..i];
      if Get(currentFilePaths, updated.filePath).None? {
        created := AddOnce(created, updated);
      }
    }
    assert updatedDocs[..|updatedDocs|] == updatedDocs;
  }

  /** A path is absent from the map exactly when no document has it, and a present path gives the last document with it. */
  lemma ByPathLookup(docs: seq<Document>, p: string)
    ensures Get(ByPath(docs), p).None? <==> forall i :: 0 <= i < |docs| ==> docs[i].filePath != p
    ensures Get(ByPath(docs), p).Some? ==>
      exists i :: 0 <= i < |docs| && docs[i] == Get(ByPath(docs), p).value && docs[i].filePath == p &&
                  forall j :: i < j < |docs| ==> docs[j].filePath != p
  {
    FromEntriesGet(DocEntries(docs), p);
    LastValueIsLast(DocEntries(docs), p);
  }

  /**
   * The three lists, member by member: deleted are the current documents
   * whose path nobody has any more, created the new documents whose path
   * nobody had, unchanged the current documents whose path's (last) new
   * document has the same contents. No list holds a document twice.
   */
  lemma DiffMembers(currentDocs: seq<Document>, updatedDocs: seq<Document>, d: Document)
    ensures d in Collect(currentDocs, Absent(ByPath(updatedDocs))) <==>
      d in currentDocs && forall i :: 0 <= i < |updatedDocs| ==> updatedDocs[i].filePath != d.filePath
    ensures d in Collect(updatedDocs, Absent(ByPath(currentDocs))) <==>
      d in updatedDocs && forall i :: 0 <= i < |currentDocs| ==> currentDocs[i].filePath != d.filePath
    ensures d in Collect(currentDocs, SameContents(ByPath(updatedDocs))) <==>
      d in currentDocs &&
      exists i :: 0 <= i < |updatedDocs| && updatedDocs[i].filePath == d.filePath && updatedDocs[i].contents == d.contents &&
                  forall j :: i < j < |updatedDocs| ==> updatedDocs[j].filePath != d.filePath
    ensures Distinct(Collect(currentDocs, Absent(ByPath(updatedDocs))))
    ensures Distinct(Collect(updatedDocs, Absent(ByPath(currentDocs))))
    ensures Distinct(Collect(currentDocs, SameContents(ByPath(updatedDocs))))
  {
    CollectMembers(currentDocs, Absent(ByPath(updatedDocs)));
    CollectMembers(updatedDocs, Absent(ByPath(currentDocs)));
    CollectMembers(currentDocs, SameContents(ByPath(updatedDocs)));
    ByPathLookup(updatedDocs, d.filePath);
    ByPathLookup(currentDocs, d.filePath);
    var m := ByPath(updatedDocs);
    if Get(m, d.filePath).Some? {
      var i :| 0 <= i < |updatedDocs| && updatedDocs[i] == Get(m, d.filePath).value && updatedDocs[i].filePath == d.filePath &&
               forall j :: i < j < |updatedDocs| ==> updatedDocs[j].filePath != d.filePath;
      forall i' | 0 <= i' < |updatedDocs| && updatedDocs[i'].filePath == d.filePath &&
                  forall j :: i' < j < |updatedDocs| ==> updatedDocs[j].filePath != d.filePath
        ensures i' == i
      {
      }
    }
  }

  /** No document is both deleted and unchanged, and a reading that changes nothing creates and deletes nothing. */
  lemma DiffOfSameReading(docs: seq<Document>, d: Document)
    ensures !(d in Collect(docs, Absent(ByPath(docs))))
    ensures !(d in Collect(docs, Absent(ByPath(docs))) && d in Collect(docs, SameContents(ByPath(docs))))
  {
    DiffMembers(docs, docs, d);
  }

  /**
   * A current document whose path now holds other contents is in none of
   * the three lists: the diff reports no changed documents.
   */
  lemma ChangedIsUnreported(currentDocs: seq<Document>, updatedDocs: seq<Document>, i: nat, k: nat)
    requires i < |currentDocs| && k < |updatedDocs|
    requires updatedDocs[k].filePath == currentDocs[i].filePath
    requires forall j :: k < j < |updatedDocs| ==> updatedDocs[j].filePath != currentDocs[i].filePath
    requires updatedDocs[k].contents != currentDocs[i].contents
    ensures currentDocs[i] !in Collect(currentDocs, Absent(ByPath(updatedDocs)))
    ensures currentDocs[i] !in Collect(currentDocs, SameContents(ByPath(updatedDocs)))
  {
    var d := currentDocs[i];
    DiffMembers(currentDocs, updatedDocs, d);
    ByPathLookup(updatedDocs, d.filePath);
    var m := ByPath(updatedDocs);
    var l :| 0 <= l < |updatedDocs| && updatedDocs[l] == Get(m, d.filePath).value && updatedDocs[l].filePath == d.filePath &&
             forall j :: l < j < |updatedDocs| ==> updatedDocs[j].filePath != d.filePath;
    assert l == k;
    CollectMembers(currentDocs, SameContents(m));
  }
}
