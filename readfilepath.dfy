/**
 * `createReadFilePath` of infrastructure/createReadFilePath.ts: the plugins
 * are asked in order to read a file, and the first document one of them
 * returns is the answer. A plugin's reader is a function of the path; its
 * effects are not modelled.
 */
module CreateReadFilePath {
  import opened Wrappers

  /** `readFilePath`: the loop over the plugins with its early return. */
  method ReadFilePath<D>(plugins: seq<string -> Option<D>>, filePath: string) returns (r: Option<D>)
    ensures r.None? <==> forall i :: 0 <= i < |plugins| ==> plugins[i](filePath).None?
    ensures r.Some? ==> exists i :: (0 <= i < |plugins| && plugins[i](filePath) == r &&
      forall j :: 0 <= j < i ==> plugins[j](filePath).None?)
  {
    for i := 0 to |plugins|
      invariant forall j :: 0 <= j < i ==> plugins[j](filePath).None?
    {
      var document := plugins[i](filePath);
      if document.Some? {
        return document;
      }
    }
    return None;
  }
}

/**
 * `createReadFilePath` of v2/infrastructure/createReadFilePath.ts: every
 * plugin reads the file, and the documents they return are merged into the
 * first one: its fields are kept, a missing hash or source map is taken
 * from a later document, and the dependencies are joined without
 * duplicates.
 */
module V2CreateReadFilePath {
  import opened Wrappers
  import opened Sequences
  import opened Registry

  /** `dependencyEq`: the specifier, the path and the position; the extension is not compared. */
  function DependencyEq(d: Dependency): (string, string, Position) {
    (d.specifier, d.filePath, d.position)
  }

  /** `combineDocuments`. */
  function CombineDocuments(a: Document, b: Document): (r: Document)
    ensures r.filePath == a.filePath && r.fileExtension == a.fileExtension && r.contents == a.contents
    ensures r.isBase64Encoded == a.isBase64Encoded
    ensures r.contentHash == (if a.contentHash.Some? then a.contentHash else b.contentHash)
    ensures r.sourceMap == (if a.sourceMap.Some? then a.sourceMap else b.sourceMap)
  {
    a.(contentHash := a.contentHash.Alt(b.contentHash),
       sourceMap := a.sourceMap.Alt(b.sourceMap),
       dependencies := UniqBy(a.dependencies + b.dependencies, DependencyEq))
  }

  /** `options.filter(isSome).map(o => o.value)`. */
  function Somes<T>(options: seq<Option<T>>): (r: seq<T>)
    ensures |r| <= |options|
  {
    if options == [] then []
    else Somes(options[..|options| - 1]) + if options[|options| - 1].Some? then [options[|options| - 1].value] else []
  }

  /** `documents.slice(1).reduce(combineDocuments, documents[0])`. */
  function Combine(first: Document, rest: seq<Document>): Document
  {
    if rest == [] then first else CombineDocuments(Combine(first, rest[..|rest| - 1]), rest[|rest| - 1])
  }

  /** `readFilePath`, given what each plugin read. */
  function ReadFilePath(options: seq<Option<Document>>): Option<Document>
  {
    var documents := Somes(options);
    if documents == [] then None else Some(Combine(documents[0], documents[1..]))
  }

  /** The documents kept are exactly the Some results, in plugin order. */
  lemma {:induction false} SomesExact<T>(options: seq<Option<T>>)
    ensures Somes(options) == [] <==> forall i :: 0 <= i < |options| ==> options[i].None?
    ensures forall x :: x in Somes(options) <==> Some(x) in options
  {
    if options != [] {
      var init := options[..|options| - 1];
      SomesExact(init);
      assert options == init + [options[|options| - 1]];
      assert forall i :: 0 <= i < |init| ==> init[i] == options[i];
    }
  }

  /** The first kept document is the result of the first plugin that read one. */
  lemma {:induction false} SomesFirst<T>(options: seq<Option<T>>)
    requires Somes(options) != []
    ensures exists i :: (0 <= i < |options| && options[i] == Some(Somes(options)[0]) &&
      forall j :: 0 <= j < i ==> options[j].None?)
  {
    var init := options[..|options| - 1];
    assert forall i :: 0 <= i < |init| ==> init[i] == options[i];
    if Somes(init) != [] {
      SomesFirst(init);
      var i :| 0 <= i < |init| && init[i] == Some(Somes(init)[0]) && forall j :: 0 <= j < i ==> init[j].None?;
      assert Somes(options)[0] == Somes(init)[0];
    } else {
      SomesExact(init);
    }
  }

  /** Merging keeps the first document's path, extension, contents and encoding. */
  lemma {:induction false} CombineKeepsFirst(first: Document, rest: seq<Document>)
    ensures var r := Combine(first, rest);
      r.filePath == first.filePath && r.fileExtension == first.fileExtension &&
      r.contents == first.contents && r.isBase64Encoded == first.isBase64Encoded
  {
    if rest != [] {
      CombineKeepsFirst(first, rest[..|rest| - 1]);
    }
  }

  /** The merged hash is the first document's if it has one, else the first later document's that has one. */
  lemma {:induction false} CombineHash(first: Document, rest: seq<Document>)
    ensures var r := Combine(first, rest);
      (r.contentHash.None? <==> first.contentHash.None? && forall i :: 0 <= i < |rest| ==> rest[i].contentHash.None?) &&
      (first.contentHash.Some? ==> r.contentHash == first.contentHash) &&
      (first.contentHash.None? && r.contentHash.Some? ==>
        exists i :: 0 <= i < |rest| && r.contentHash == rest[i].contentHash && forall j :: 0 <= j < i ==> rest[j].contentHash.None?)
  {
    if rest != [] {
      var init := rest[..|rest| - 1];
      CombineHash(first, init);
      assert forall i :: 0 <= i < |init| ==> init[i] == rest[i];
    }
  }

  /** The dependencies of every document that took part, joined into one list. */
  function AllDependencies(first: Document, rest: seq<Document>): seq<Dependency>
  {
    if rest == [] then first.dependencies else AllDependencies(first, rest[..|rest| - 1]) + rest[|rest| - 1].dependencies
  }

  /**
   * The merged dependencies are the joined dependencies of all documents,
   * in order, with every later duplicate under `dependencyEq` removed.
   */
  lemma {:induction false} CombineDependencies(first: Document, rest: seq<Document>)
    ensures rest != [] ==> Combine(first, rest).dependencies == UniqBy(AllDependencies(first, rest), DependencyEq)
  {
    if rest != [] {
      var init := rest[..|rest| - 1];
      var last := rest[|rest| - 1];
      CombineDependencies(first, init);
      if init == [] {
        assert AllDependencies(first, rest) == first.dependencies + last.dependencies;
      } else {
        UniqByAppend(AllDependencies(first, init), last.dependencies, DependencyEq);
      }
    }
  }

  /**
   * `readFilePath` reads nothing exactly when no plugin read a document;
   * otherwise the path and contents are those of the first plugin's
   * document, and its dependencies hold, without duplicates, the key of
   * every dependency some plugin found.
   */
  lemma ReadFilePathProperties(options: seq<Option<Document>>)
    ensures ReadFilePath(options).None? <==> forall i :: 0 <= i < |options| ==> options[i].None?
    ensures ReadFilePath(options).Some? ==>
      exists i :: 0 <= i < |options| && options[i].Some? &&
        ReadFilePath(options).value.filePath == options[i].value.filePath &&
        ReadFilePath(options).value.contents == options[i].value.contents &&
        forall j :: 0 <= j < i ==> options[j].None?
  {
    SomesExact(options);
    var documents := Somes(options);
    if documents != [] {
      SomesFirst(options);
      CombineKeepsFirst(documents[0], documents[1..]);
    }
  }

  /** The merged dependencies have distinct keys, and every dependency joined has its key among them. */
  lemma CombinedDependenciesDistinct(first: Document, rest: seq<Document>)
    requires rest != []
    ensures var deps := Combine(first, rest).dependencies;
      (forall i, j :: 0 <= i < j < |deps| ==> DependencyEq(deps[i]) != DependencyEq(deps[j])) &&
      forall d :: d in AllDependencies(first, rest) ==> HasKey(deps, DependencyEq, DependencyEq(d))
  {
    CombineDependencies(first, rest);
    UniqByDistinctKeys(AllDependencies(first, rest), DependencyEq);
    UniqByAllKeys(AllDependencies(first, rest), DependencyEq);
  }
}
