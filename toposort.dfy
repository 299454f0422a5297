/**
 * The ordering step of infrastructure/toposortDocs.ts: documents sorted so
 * that those with their own hash come first, then those without a hash,
 * then those pointing at another's hash; the dependency map built from the
 * sorted documents; and the strongly connected components, computed by a
 * foreign algorithm, mapped back to documents.
 */
module Toposort {
  import opened Wrappers
  import opened Registry
  import opened Sequences
  import opened OrderedMaps

  /** The sort key: 0 for an own hash, 1 for none, 2 for a 'hashFor'. */
  function Priority(d: Document): (r: nat)
    ensures r <= 2
    ensures r == 0 <==> HasOwnHash(d)
    ensures r == 1 <==> d.contentHash.None?
    ensures r == 2 <==> d.contentHash.Some? && d.contentHash.value.HashFor?
  {
    if d.contentHash.None? then 1 else if d.contentHash.value.HashFor? then 2 else 0
  }

  function HasPriority(k: nat): Document -> bool {
    d => Priority(d) == k
  }

  /**
   * `sortDocuments`: a stable sort on the priority. The library sort is
   * stable, so the result is the documents of each priority in their
   * original order, priority by priority.
   */
  function SortDocuments(documents: seq<Document>): seq<Document> {
    Filter(documents, HasPriority(0)) + Filter(documents, HasPriority(1)) + Filter(documents, HasPriority(2))
  }

  /** The sorted documents are in priority order. */
  lemma SortDocumentsSorted(documents: seq<Document>)
    ensures var r := SortDocuments(documents);
      forall i, j :: 0 <= i < j < |r| ==> Priority(r[i]) <= Priority(r[j])
  {
    var a := Filter(documents, HasPriority(0));
    var b := Filter(documents, HasPriority(1));
    var c := Filter(documents, HasPriority(2));
    FilterMembers(documents, HasPriority(0));
    FilterMembers(documents, HasPriority(1));
    FilterMembers(documents, HasPriority(2));
    var r := SortDocuments(documents);
    forall i | 0 <= i < |r|
      ensures Priority(r[i]) == if i < |a| then 0 else if i < |a| + |b| then 1 else 2
    {
      if i < |a| {
        assert r[i] == a[i] && a[i] in a;
      } else if i < |a| + |b| {
        assert r[i] == b[i - |a|] && b[i - |a|] in b;
      } else {
        assert r[i] == c[i - |a| - |b|] && c[i - |a| - |b|] in c;
      }
    }
  }

  /** Every document lands in exactly one of the three groups. */
  lemma {:induction false} PartitionByPriority(documents: seq<Document>)
    ensures multiset(documents) ==
      multiset(Filter(documents, HasPriority(0))) + multiset(Filter(documents, HasPriority(1))) + multiset(Filter(documents, HasPriority(2)))
  {
    if documents != [] {
      var d := documents[0];
      var rest := documents[1..];
      PartitionByPriority(rest);
      assert documents == [d] + rest;
      assert multiset(documents) == multiset{d} + multiset(rest);
      var k := Priority(d);
      assert multiset(Filter(documents, HasPriority(k))) == multiset{d} + multiset(Filter(rest, HasPriority(k)));
      forall j | 0 <= j <= 2 && j != k
        ensures Filter(documents, HasPriority(j)) == Filter(rest, HasPriority(j))
      {
        assert !HasPriority(j)(d);
      }
    }
  }

  /** Sorting neither loses nor duplicates a document. */
  lemma SortDocumentsPermutation(documents: seq<Document>)
    ensures multiset(SortDocuments(documents)) == multiset(documents)
  {
    PartitionByPriority(documents);
  }

  /** Documents of one priority keep their relative order. */
  lemma SortDocumentsStable(documents: seq<Document>, k: nat)
    requires k <= 2
    ensures Filter(SortDocuments(documents), HasPriority(k)) == Filter(documents, HasPriority(k))
  {
    var a := Filter(documents, HasPriority(0));
    var b := Filter(documents, HasPriority(1));
    var c := Filter(documents, HasPriority(2));
    FilterAppend(a + b, c, HasPriority(k));
    FilterAppend(a, b, HasPriority(k));
    FilterByPriority(documents, 0, k);
    FilterByPriority(documents, 1, k);
    FilterByPriority(documents, 2, k);
  }

  /** Filtering one priority group for priority `k` keeps it whole or empties it. */
  lemma FilterByPriority(documents: seq<Document>, j: nat, k: nat)
    ensures Filter(Filter(documents, HasPriority(j)), HasPriority(k)) == if j == k then Filter(documents, HasPriority(k)) else []
  {
    if j == k {
      FilterFilter(documents, HasPriority(j), HasPriority(k), HasPriority(k));
    } else {
      FilterFilter(documents, HasPriority(j), HasPriority(k), NoDocument);
      FilterNothing(documents);
    }
  }

  function NoDocument(d: Document): bool {
    false
  }

  lemma {:induction false} FilterNothing(documents: seq<Document>)
    ensures Filter(documents, NoDocument) == []
  {
    if documents != [] {
      FilterNothing(documents[1..]);
    }
  }

  /** The paths a document depends on, each once, in order of first appearance. */
  function DependencyPaths(d: Document): seq<string> {
    Collect(seq(|d.dependencies|, (i: int) requires 0 <= i < |d.dependencies| => d.dependencies[i].filePath), KeepAll)
  }

  lemma DependencyPathsExact(d: Document)
    ensures forall p :: p in DependencyPaths(d) <==> exists k :: 0 <= k < |d.dependencies| && d.dependencies[k].filePath == p
    ensures Distinct(DependencyPaths(d))
  {
    var paths := seq(|d.dependencies|, (i: int) requires 0 <= i < |d.dependencies| => d.dependencies[i].filePath);
    CollectMembers(paths, KeepAll);
    forall p ensures p in paths <==> exists k :: 0 <= k < |d.dependencies| && d.dependencies[k].filePath == p {
      if exists k :: 0 <= k < |d.dependencies| && d.dependencies[k].filePath == p {
        var k :| 0 <= k < |d.dependencies| && d.dependencies[k].filePath == p;
        assert paths[k] == p;
      }
    }
  }

  /** The entries `createDepMap` sets, one per document. */
  function DepEntries(documents: seq<Document>): (r: seq<(string, seq<string>)>)
    ensures |r| == |documents|
    ensures forall i :: 0 <= i < |documents| ==> r[i] == (documents[i].filePath, DependencyPaths(documents[i]))
  {
    seq(|documents|, (i: int) requires 0 <= i < |documents| => (documents[i].filePath, DependencyPaths(documents[i])))
  }

  /** `createDepMap`: a `Map` from each document's path to the paths it depends on, set document by document. */
  method CreateDepMap(documents: seq<Document>) returns (graph: seq<(string, seq<string>)>)
    ensures graph == FromEntries(DepEntries(documents))
  {
    graph := [];
    for i := 0 to |documents|
      invariant graph == FromEntries(DepEntries(documents)[..i])
    {
      var document := documents[i];
      assert DepEntries(documents)[..i + 1][..i] == DepEntries(documents)[..i];
      graph := Put(graph, document.filePath, DependencyPaths(document));
    }
    assert DepEntries(documents)[..|documents|] == DepEntries(documents);
  }

  /**
   * The dependency map has one vertex per distinct path, in order of first
   * appearance, and a path's dependencies are those of the last document
   * with that path.
   */
  lemma DepMapShape(documents: seq<Document>, p: string)
    ensures Keys(FromEntries(DepEntries(documents))) ==
      Collect(seq(|documents|, (i: int) requires 0 <= i < |documents| => documents[i].filePath), KeepAll)
    ensures Get(FromEntries(DepEntries(documents)), p).Some? ==>
      exists i :: 0 <= i < |documents| && documents[i].filePath == p &&
        Get(FromEntries(DepEntries(documents)), p).value == DependencyPaths(documents[i]) &&
        forall j :: i < j < |documents| ==> documents[j].filePath != p
  {
    FromEntriesKeys(DepEntries(documents));
    assert Keys(DepEntries(documents)) == seq(|documents|, (i: int) requires 0 <= i < |documents| => documents[i].filePath);
    FromEntriesGet(DepEntries(documents), p);
    LastValueIsLast(DepEntries(documents), p);
  }

  /** The entries of `docsByPath`: each document under its path. */
  function PathEntries(documents: seq<Document>): (r: seq<(string, Document)>)
    ensures |r| == |documents|
    ensures forall i :: 0 <= i < |documents| ==> r[i] == (documents[i].filePath, documents[i])
  {
    seq(|documents|, (i: int) requires 0 <= i < |documents| => (documents[i].filePath, documents[i]))
  }

  /** `compact(paths.map(p => docsByPath.get(p)))`: the documents of the paths that have one, in order. */
  function ComponentDocuments(docsByPath: seq<(string, Document)>, paths: seq<string>): (r: seq<Document>)
    ensures |r| <= |paths|
  {
    if paths == [] then []
    else
      ComponentDocuments(docsByPath, paths[..|paths| - 1]) +
      match Get(docsByPath, paths[|paths| - 1])
      case None => []
      case Some(d) => [d]
  }

  /** A component keeps exactly the paths with a document, and each maps to the last document of that path. */
  lemma {:induction false} ComponentDocumentsExact(documents: seq<Document>, paths: seq<string>)
    ensures var r := ComponentDocuments(FromEntries(PathEntries(documents)), paths);
      forall d :: d in r <==> exists k :: 0 <= k < |paths| && LastValue(PathEntries(documents), paths[k]) == Some(d)
  {
    if paths != [] {
      var entries := PathEntries(documents);
      var m := FromEntries(entries);
      var init := paths[..|paths| - 1];
      var last := paths[|paths| - 1];
      ComponentDocumentsExact(documents, init);
      FromEntriesGet(entries, last);
      var tail := if LastValue(entries, last).Some? then [LastValue(entries, last).value] else [];
      assert ComponentDocuments(m, paths) == ComponentDocuments(m, init) + tail;
      forall d | d in ComponentDocuments(m, paths)
        ensures exists k :: 0 <= k < |paths| && LastValue(entries, paths[k]) == Some(d)
      {
        if d in ComponentDocuments(m, init) {
          var k :| 0 <= k < |init| && LastValue(entries, init[k]) == Some(d);
          assert paths[k] == init[k];
        } else {
          assert LastValue(entries, paths[|paths| - 1]) == Some(d);
        }
      }
      forall d | exists k :: 0 <= k < |paths| && LastValue(entries, paths[k]) == Some(d)
        ensures d in ComponentDocuments(m, paths)
      {
        var k :| 0 <= k < |paths| && LastValue(entries, paths[k]) == Some(d);
        if k < |init| {
          assert init[k] == paths[k];
        } else {
          assert tail == [d];
        }
      }
    }
  }

  /** A document found through `docsByPath` is one of the documents, under its own path. */
  lemma LastValueIsDocument(documents: seq<Document>, p: string)
    requires LastValue(PathEntries(documents), p).Some?
    ensures LastValue(PathEntries(documents), p).value in documents
    ensures LastValue(PathEntries(documents), p).value.filePath == p
  {
    LastValueIsLast(PathEntries(documents), p);
  }

  /**
   * `sortDiGraph`: the components of the dependency map of the sorted
   * documents (the foreign `components` function stands for
   * `getStronglyConnectedComponents(fromDependencyMap(...))`), each mapped
   * back to documents through `docsByPath` built from the unsorted list.
   */
  function SortDiGraph(documents: seq<Document>, components: seq<(string, seq<string>)> -> seq<seq<string>>): (r: seq<seq<Document>>)
    ensures |r| == |components(FromEntries(DepEntries(SortDocuments(documents))))|
  {
    var byPath := FromEntries(PathEntries(documents));
    var sccs := components(FromEntries(DepEntries(SortDocuments(documents))));
    seq(|sccs|, (c: int) requires 0 <= c < |sccs| => ComponentDocuments(byPath, sccs[c]))
  }

  /** Every document of every component is an input document, named by one of the component's paths. */
  lemma SortDiGraphDocuments(documents: seq<Document>, components: seq<(string, seq<string>)> -> seq<seq<string>>, c: nat, d: Document)
    requires c < |SortDiGraph(documents, components)| && d in SortDiGraph(documents, components)[c]
    ensures d in documents
    ensures d.filePath in components(FromEntries(DepEntries(SortDocuments(documents))))[c]
  {
    var sccs := components(FromEntries(DepEntries(SortDocuments(documents))));
    ComponentDocumentsExact(documents, sccs[c]);
    var k :| 0 <= k < |sccs[c]| && LastValue(PathEntries(documents), sccs[c][k]) == Some(d);
    LastValueIsDocument(documents, sccs[c][k]);
  }
}
