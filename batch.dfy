/**
 * infrastructure/rewriteDependencies.ts: one batch of documents (a strongly
 * connected group, in topological order) is hashed together and each
 * document's references are rewritten to the hashed paths.
 *
 * The batch hash of a document is the digest of a sequence of strings: the
 * document's own representative hash, then the representative hash of every
 * registry document reached through a worklist of dependency records. A
 * dependency record is identified by its owner's path and its index in the
 * owner's dependency list (the document being hashed owns the records under
 * its own path).
 */
module Batch {
  import opened Wrappers
  import opened Sequences
  import opened Text
  import opened Paths
  import opened Edits
  import opened Registry
  import opened Hashes
  import opened RegistryRewrite

  /** The settings of rewriteDependencies. */
  datatype Settings = Settings(directory: string, hashLength: nat, sourceMaps: bool, baseUrl: Option<string>)

  /** A dependency record: the `index`-th dependency of the document at `owner`. */
  datatype DepRef = DepRef(owner: string, index: nat)

  /** The dependency list owned by a path. */
  function DepsOf(document: Document, registry: DocumentRegistry, owner: string): seq<Dependency> {
    if owner == document.filePath then document.dependencies
    else if owner in registry then registry[owner].dependencies
    else []
  }

  /** Every dependency record there is. */
  ghost function Universe(document: Document, registry: DocumentRegistry): set<DepRef> {
    set p, j | p in registry.Keys + {document.filePath} && 0 <= j < |DepsOf(document, registry, p)| :: DepRef(p, j)
  }

  predicate ValidRef(document: Document, registry: DocumentRegistry, r: DepRef) {
    r.index < |DepsOf(document, registry, r.owner)|
  }

  function DepAt(document: Document, registry: DocumentRegistry, r: DepRef): Dependency
    requires ValidRef(document, registry, r)
  {
    DepsOf(document, registry, r.owner)[r.index]
  }

  /** The records of the dependency list owned by `owner`, in order. */
  function ChildRefs(document: Document, registry: DocumentRegistry, owner: string): (cs: seq<DepRef>)
    ensures |cs| == |DepsOf(document, registry, owner)|
    ensures forall j :: 0 <= j < |cs| ==> cs[j] == DepRef(owner, j)
  {
    seq(|DepsOf(document, registry, owner)|, (j: int) requires 0 <= j => DepRef(owner, j))
  }

  /** The records of `owner` are those it owns, each in range. */
  lemma ChildRefsMembers(document: Document, registry: DocumentRegistry, owner: string)
    ensures var cs := ChildRefs(document, registry, owner);
      forall r :: r in cs <==> r.owner == owner && r.index < |cs|
  {
    var cs := ChildRefs(document, registry, owner);
    assert forall r: DepRef :: r.owner == owner && r.index < |cs| ==> cs[r.index] == r;
  }

  /** `cs.forEach(c => set.add(c))`. */
  function AddAll(q: seq<DepRef>, cs: seq<DepRef>): (r: seq<DepRef>)
    ensures |q| <= |r| && r[..|q|] == q
  {
    if cs == [] then q else AddOnce(AddAll(q, cs[..|cs| - 1]), cs[|cs| - 1])
  }

  /** The ordered set after adding holds what it held and what was added, and nothing else. */
  lemma {:induction false} AddAllMembers(q: seq<DepRef>, cs: seq<DepRef>)
    ensures forall x :: x in AddAll(q, cs) <==> x in q || x in cs
    ensures (forall x :: x in cs ==> x in q) ==> AddAll(q, cs) == q
  {
    if cs != [] {
      var init := cs[..|cs| - 1];
      AddAllMembers(q, init);
      assert forall x :: x in cs <==> x in init || x == cs[|cs| - 1];
    }
  }

  /** Adding to an ordered set keeps its elements distinct. */
  lemma {:induction false} AddAllDistinct(q: seq<DepRef>, cs: seq<DepRef>)
    requires Distinct(q)
    ensures Distinct(AddAll(q, cs))
  {
    if cs != [] {
      AddAllDistinct(q, cs[..|cs| - 1]);
    }
  }

  /** The representative hash of a document: its resolved content hash, else the hash of its contents. */
  function GetHash(d: Document, registry: DocumentRegistry, hashLength: nat, libs: Libraries): (h: string)
    requires Acyclic(registry)
    ensures GetContentHash(d, registry, hashLength).Some? ==> h == GetContentHash(d, registry, hashLength).value
    ensures GetContentHash(d, registry, hashLength).None? ==> h == libs.sha512(d.contents)
  {
    match GetContentHash(d, registry, hashLength)
    case Some(h) => h
    case None => libs.sha512(d.contents)
  }

  /** The state of the worklist loop: the records added so far and the strings fed so far. */
  datatype Walk = Walk(queue: seq<DepRef>, fed: seq<string>)

  function Members(q: seq<DepRef>): set<DepRef> {
    set r | r in q
  }

  /** The number of records not yet in the queue: the loop's measure. */
  ghost function Unvisited(document: Document, registry: DocumentRegistry, q: seq<DepRef>): nat {
    |Universe(document, registry) - Members(q)|
  }

  /** A record of the universe: owned by the hashed document or a registry entry, and in range. */
  predicate InUniverse(document: Document, registry: DocumentRegistry, r: DepRef) {
    (r.owner in registry || r.owner == document.filePath) && ValidRef(document, registry, r)
  }

  predicate GoodQueue(document: Document, registry: DocumentRegistry, q: seq<DepRef>) {
    forall k :: 0 <= k < |q| ==> InUniverse(document, registry, q[k])
  }

  /** Adding a registry document's records keeps the queue good. */
  lemma ChildrenGood(document: Document, registry: DocumentRegistry, q: seq<DepRef>, p: string)
    requires GoodQueue(document, registry, q) && p in registry
    ensures GoodQueue(document, registry, AddAll(q, ChildRefs(document, registry, p)))
  {
    var cs := ChildRefs(document, registry, p);
    AddAllMembers(q, cs);
    ChildRefsMembers(document, registry, p);
    var r := AddAll(q, cs);
    forall k | 0 <= k < |r| ensures InUniverse(document, registry, r[k]) {
      assert r[k] in r;
      if r[k] in q {
        var m :| 0 <= m < |q| && q[m] == r[k];
      }
    }
  }

  lemma RefInUniverse(document: Document, registry: DocumentRegistry, p: string, j: nat)
    requires p in registry.Keys + {document.filePath} && j < |DepsOf(document, registry, p)|
    ensures DepRef(p, j) in Universe(document, registry)
  {
  }

  /**
   * The records the worklist loop from position `i` ends with: the record at
   * `i` whose target is in the registry adds the target's own records.
   */
  ghost function ExploreQueue(document: Document, registry: DocumentRegistry, q: seq<DepRef>, i: nat): (w: seq<DepRef>)
    requires GoodQueue(document, registry, q) && i <= |q|
    ensures |q| <= |w| && w[..|q|] == q
    ensures GoodQueue(document, registry, w)
    decreases Unvisited(document, registry, q), |q| - i
  {
    if i == |q| then q
    else
      NextGood(document, registry, q, i);
      var w := ExploreQueue(document, registry, Next(document, registry, q, i), i + 1);
      PrefixTrans(w, Next(document, registry, q, i), q);
      w
  }

  /** One step of ExploreQueue. */
  lemma ExploreQueueStep(document: Document, registry: DocumentRegistry, q: seq<DepRef>, i: nat)
    requires GoodQueue(document, registry, q) && i < |q|
    ensures ValidRef(document, registry, q[i]) && GoodQueue(document, registry, Next(document, registry, q, i))
    ensures ExploreQueue(document, registry, q, i) == ExploreQueue(document, registry, Next(document, registry, q, i), i + 1)
  {
    NextGood(document, registry, q, i);
  }

  /**
   * The worklist loop from position `i`: the record at `i` whose target is in
   * the registry feeds the target's representative hash and adds the
   * target's own records.
   */
  ghost function Explore(document: Document, registry: DocumentRegistry, hashLength: nat, libs: Libraries,
                         q: seq<DepRef>, i: nat): (w: Walk)
    requires Acyclic(registry) && GoodQueue(document, registry, q) && i <= |q|
    ensures w.queue == ExploreQueue(document, registry, q, i)
    ensures |q| <= |w.queue| && w.queue[..|q|] == q
    ensures GoodQueue(document, registry, w.queue)
    decreases Unvisited(document, registry, q), |q| - i
  {
    if i == |q| then Walk(q, [])
    else
      NextGood(document, registry, q, i);
      var rest := Explore(document, registry, hashLength, libs, Next(document, registry, q, i), i + 1);
      var p := DepAt(document, registry, q[i]).filePath;
      if p in registry then Walk(rest.queue, [GetHash(registry[p], registry, hashLength, libs)] + rest.fed)
      else rest
  }

  /** The queue after the record at `i` is expanded. */
  function Next(document: Document, registry: DocumentRegistry, q: seq<DepRef>, i: nat): seq<DepRef>
    requires i < |q| && ValidRef(document, registry, q[i])
  {
    var p := DepAt(document, registry, q[i]).filePath;
    if p in registry then AddAll(q, ChildRefs(document, registry, p)) else q
  }

  /** Expanding a record keeps the queue good, extends it, and shrinks the loop measure on any change. */
  lemma NextGood(document: Document, registry: DocumentRegistry, q: seq<DepRef>, i: nat)
    requires GoodQueue(document, registry, q) && i < |q|
    ensures ValidRef(document, registry, q[i])
    ensures var q' := Next(document, registry, q, i);
      GoodQueue(document, registry, q') && |q| <= |q'| && q'[..|q|] == q &&
      (Unvisited(document, registry, q') < Unvisited(document, registry, q) ||
       (Unvisited(document, registry, q') == Unvisited(document, registry, q) && |q'| == |q|))
  {
    assert q[i] in q;
    var p := DepAt(document, registry, q[i]).filePath;
    if p in registry {
      ChildrenGood(document, registry, q, p);
      QueueMeasure(document, registry, q, p);
    }
  }

  /** A prefix of a prefix is a prefix. */
  lemma PrefixTrans(a: seq<DepRef>, b: seq<DepRef>, c: seq<DepRef>)
    requires |b| <= |a| && a[..|b|] == b && |c| <= |b| && b[..|c|] == c
    ensures |c| <= |a| && a[..|c|] == c
  {
    assert a[..|b|][..|c|] == a[..|c|];
  }

  /** Adding records from the universe either keeps the queue or leaves fewer records outside it. */
  lemma ShrinksOrSame(u: set<DepRef>, q: seq<DepRef>, cs: seq<DepRef>)
    requires forall r :: r in cs ==> r in u
    ensures AddAll(q, cs) == q ||
      |u - Members(AddAll(q, cs))| < |u - Members(q)|
  {
    AddAllMembers(q, cs);
    if exists c :: c in cs && c !in q {
      var c :| c in cs && c !in q;
      var before := u - Members(q);
      var after := u - Members(AddAll(q, cs));
      assert after <= before - {c};
      SubsetCard(after, before - {c});
    }
  }

  lemma SubsetCard<T>(a: set<T>, b: set<T>)
    requires a <= b
    ensures |a| <= |b|
  {
    assert b == a + (b - a);
  }

  /** The records the hashed document starts with: its own dependencies. */
  function InitialRefs(document: Document, registry: DocumentRegistry): (q: seq<DepRef>)
    ensures |q| == |document.dependencies|
    ensures forall j :: 0 <= j < |q| ==> q[j] == DepRef(document.filePath, j)
  {
    ChildRefs(document, registry, document.filePath)
  }

  lemma InitialGood(document: Document, registry: DocumentRegistry)
    ensures GoodQueue(document, registry, InitialRefs(document, registry))
  {
  }

  /** The worklist from position `i` on adds each record once. */
  lemma {:induction false} ExploreDistinct(document: Document, registry: DocumentRegistry, q: seq<DepRef>, i: nat)
    requires GoodQueue(document, registry, q) && i <= |q| && Distinct(q)
    ensures Distinct(ExploreQueue(document, registry, q, i))
    decreases Unvisited(document, registry, q), |q| - i
  {
    if i < |q| {
      NextGood(document, registry, q, i);
      var p := DepAt(document, registry, q[i]).filePath;
      if p in registry {
        AddAllDistinct(q, ChildRefs(document, registry, p));
      }
      ExploreDistinct(document, registry, Next(document, registry, q, i), i + 1);
    }
  }

  /** The strings `computeContentHash` feeds its SHA-512 hasher, in order. */
  ghost function DigestInput(document: Document, registry: DocumentRegistry, hashLength: nat, libs: Libraries): (s: seq<string>)
    requires Acyclic(registry)
    ensures |s| >= 1 && s[0] == GetHash(document, registry, hashLength, libs)
  {
    InitialGood(document, registry);
    [GetHash(document, registry, hashLength, libs)] + Explore(document, registry, hashLength, libs, InitialRefs(document, registry), 0).fed
  }

  /** The records the worklist ends with. */
  ghost function Worklist(document: Document, registry: DocumentRegistry, hashLength: nat, libs: Libraries): seq<DepRef>
    requires Acyclic(registry)
  {
    InitialGood(document, registry);
    Explore(document, registry, hashLength, libs, InitialRefs(document, registry), 0).queue
  }

  /** One step of the worklist loop, as Explore takes it. */
  lemma ExploreStep(document: Document, registry: DocumentRegistry, hashLength: nat, libs: Libraries, q: seq<DepRef>, i: nat)
    requires Acyclic(registry) && GoodQueue(document, registry, q) && i < |q|
    ensures ValidRef(document, registry, q[i]) && GoodQueue(document, registry, Next(document, registry, q, i))
    ensures var rest := Explore(document, registry, hashLength, libs, Next(document, registry, q, i), i + 1);
      var p := DepAt(document, registry, q[i]).filePath;
      Explore(document, registry, hashLength, libs, q, i) ==
        if p in registry then Walk(rest.queue, [GetHash(registry[p], registry, hashLength, libs)] + rest.fed) else rest
    ensures Explore(document, registry, hashLength, libs, q, i).queue ==
      Explore(document, registry, hashLength, libs, Next(document, registry, q, i), i + 1).queue
  {
    NextGood(document, registry, q, i);
  }

  /** Adding a document's records keeps the loop measure from growing, and shrinks it on any change. */
  lemma QueueMeasure(document: Document, registry: DocumentRegistry, q: seq<DepRef>, p: string)
    requires p in registry
    ensures var q' := AddAll(q, ChildRefs(document, registry, p));
      Unvisited(document, registry, q') <= Unvisited(document, registry, q) &&
      (q' != q ==> Unvisited(document, registry, q') < Unvisited(document, registry, q))
  {
    var u := Universe(document, registry);
    var cs := ChildRefs(document, registry, p);
    ChildRefsMembers(document, registry, p);
    forall r | r in cs ensures r in u {
      RefInUniverse(document, registry, p, r.index);
    }
    ShrinksOrSame(u, q, cs);
    SubsetCard(u - Members(AddAll(q, cs)), u - Members(q));
  }

  /** `depDoc.dependencies.forEach((d) => dependenciesForHashing.add(d))` for the document at `p`. */
  method AddChildren(document: Document, registry: DocumentRegistry, queue: seq<DepRef>, p: string) returns (q: seq<DepRef>)
    ensures q == AddAll(queue, ChildRefs(document, registry, p))
  {
    ghost var cs := ChildRefs(document, registry, p);
    var n := |DepsOf(document, registry, p)|;
    q := queue;
    for j := 0 to n
      invariant q == AddAll(queue, cs[..j])
    {
      assert cs[..j + 1][..j] == cs[..j];
      var c := DepRef(p, j);
      if c !in q {
        q := q + [c];
      }
    }
    assert cs[..n] == cs;
  }

  /**
   * One turn of the worklist loop: the record at `i` whose target is in the
   * registry feeds the target's hash and adds the target's records.
   */
  method Visit(document: Document, registry: DocumentRegistry, hashLength: nat, libs: Libraries,
               queue: seq<DepRef>, i: nat, fed: seq<string>) returns (queue': seq<DepRef>, fed': seq<string>)
    requires Acyclic(registry) && GoodQueue(document, registry, queue) && i < |queue|
    ensures ValidRef(document, registry, queue[i]) && queue' == Next(document, registry, queue, i)
    ensures GoodQueue(document, registry, queue')
    ensures fed' + Explore(document, registry, hashLength, libs, queue', i + 1).fed ==
            fed + Explore(document, registry, hashLength, libs, queue, i).fed
  {
    ExploreStep(document, registry, hashLength, libs, queue, i);
    var dep := DepAt(document, registry, queue[i]);
    if dep.filePath in registry {
      var h := GetHash(registry[dep.filePath], registry, hashLength, libs);
      queue' := AddChildren(document, registry, queue, dep.filePath);
      ghost var rest := Explore(document, registry, hashLength, libs, queue', i + 1).fed;
      assert fed + ([h] + rest) == (fed + [h]) + rest;
      fed' := fed + [h];
    } else {
      queue', fed' := queue, fed;
    }
  }

  /**
   * `computeContentHash`: the digest of the document's own representative
   * hash followed by those of the documents reached through the worklist.
   */
  method ComputeContentHash(document: Document, registry: DocumentRegistry, hashLength: nat, libs: Libraries) returns (hash: string)
    requires Acyclic(registry)
    ensures hash == libs.digest(DigestInput(document, registry, hashLength, libs))
  {
    var fed := [GetHash(document, registry, hashLength, libs)];
    var queue := InitialRefs(document, registry);
    InitialGood(document, registry);
    var i := 0;
    while i < |queue|
      invariant i <= |queue| && GoodQueue(document, registry, queue)
      invariant DigestInput(document, registry, hashLength, libs) ==
        fed + Explore(document, registry, hashLength, libs, queue, i).fed
      decreases Unvisited(document, registry, queue), |queue| - i
    {
      NextGood(document, registry, queue, i);
      queue, fed := Visit(document, registry, hashLength, libs, queue, i, fed);
      i := i + 1;
    }
    assert Explore(document, registry, hashLength, libs, queue, i).fed == [];
    assert fed + [] == fed;
    hash := libs.digest(fed);
  }

  /**
   * The representative hashes of the queue's records from position `i` on
   * whose target is in the registry, in queue order.
   */
  function HashesFrom(document: Document, registry: DocumentRegistry, hashLength: nat, libs: Libraries,
                      q: seq<DepRef>, i: nat): seq<string>
    requires Acyclic(registry) && GoodQueue(document, registry, q) && i <= |q|
    decreases |q| - i
  {
    if i == |q| then []
    else
      var dep := DepAt(document, registry, q[i]);
      (if dep.filePath in registry then [GetHash(registry[dep.filePath], registry, hashLength, libs)] else []) +
      HashesFrom(document, registry, hashLength, libs, q, i + 1)
  }

  /** The loop from `i` feeds exactly the hashes of the records from `i` on of the queue it ends with. */
  ghost predicate FeedsHashes(document: Document, registry: DocumentRegistry, hashLength: nat, libs: Libraries,
                              q: seq<DepRef>, i: nat)
    requires Acyclic(registry) && GoodQueue(document, registry, q) && i <= |q|
  {
    var w := Explore(document, registry, hashLength, libs, q, i);
    w.fed == HashesFrom(document, registry, hashLength, libs, w.queue, i)
  }

  lemma {:induction false} ExploreFeedsHashes(document: Document, registry: DocumentRegistry, hashLength: nat, libs: Libraries,
                                             q: seq<DepRef>, i: nat)
    requires Acyclic(registry) && GoodQueue(document, registry, q) && i <= |q|
    ensures FeedsHashes(document, registry, hashLength, libs, q, i)
    decreases Unvisited(document, registry, q), |q| - i
  {
    if i < |q| {
      NextGood(document, registry, q, i);
      ExploreFeedsHashes(document, registry, hashLength, libs, Next(document, registry, q, i), i + 1);
      FeedsStep(document, registry, hashLength, libs, q, i);
    } else {
      assert Explore(document, registry, hashLength, libs, q, i) == Walk(q, []);
    }
  }

  /** The step of ExploreFeedsHashes: the record at `i` feeds the first hash of those from `i` on. */
  lemma FeedsStep(document: Document, registry: DocumentRegistry, hashLength: nat, libs: Libraries, q: seq<DepRef>, i: nat)
    requires Acyclic(registry) && GoodQueue(document, registry, q) && i < |q|
    requires ValidRef(document, registry, q[i]) && GoodQueue(document, registry, Next(document, registry, q, i))
    requires FeedsHashes(document, registry, hashLength, libs, Next(document, registry, q, i), i + 1)
    ensures FeedsHashes(document, registry, hashLength, libs, q, i)
  {
    var w := Explore(document, registry, hashLength, libs, q, i);
    ExploreStep(document, registry, hashLength, libs, q, i);
    assert w.queue[i] == q[i] by {
      assert w.queue[..|q|][i] == q[i];
    }
  }

  /** The worklist never holds a record twice, so each record is expanded at most once. */
  lemma WorklistDistinct(document: Document, registry: DocumentRegistry, hashLength: nat, libs: Libraries)
    requires Acyclic(registry)
    ensures Distinct(Worklist(document, registry, hashLength, libs))
  {
    InitialGood(document, registry);
    var q := InitialRefs(document, registry);
    assert Distinct(q);
    ExploreDistinct(document, registry, q, 0);
  }

  /**
   * The digest input is the document's own hash followed by one hash per
   * worklist record whose target is in the registry, in worklist order.
   */
  lemma DigestInputIsWorklistHashes(document: Document, registry: DocumentRegistry, hashLength: nat, libs: Libraries)
    requires Acyclic(registry)
    ensures GoodQueue(document, registry, Worklist(document, registry, hashLength, libs))
    ensures DigestInput(document, registry, hashLength, libs) ==
      [GetHash(document, registry, hashLength, libs)] + HashesFrom(document, registry, hashLength, libs, Worklist(document, registry, hashLength, libs), 0)
  {
    InitialGood(document, registry);
    ExploreFeedsHashes(document, registry, hashLength, libs, InitialRefs(document, registry), 0);
  }

  /** The queue is closed below position `i`: every earlier record whose target exists has its children in the queue. */
  ghost predicate ClosedBefore(document: Document, registry: DocumentRegistry, q: seq<DepRef>, i: nat)
    requires i <= |q| && GoodQueue(document, registry, q)
    decreases i
  {
    i == 0 || (ClosedBefore(document, registry, q, i - 1) && Expanded(document, registry, q, q[i - 1]))
  }

  /** Every record below a closed position is expanded. */
  lemma {:induction false} ClosedBeforeAt(document: Document, registry: DocumentRegistry, q: seq<DepRef>, i: nat, k: nat)
    requires GoodQueue(document, registry, q) && k < i <= |q| && ClosedBefore(document, registry, q, i)
    ensures ValidRef(document, registry, q[k]) && Expanded(document, registry, q, q[k])
    decreases i
  {
    if k < i - 1 {
      ClosedBeforeAt(document, registry, q, i - 1, k);
    }
  }

  /** The children of `r`'s target, when it is in the registry, are all in `q`. */
  ghost predicate Expanded(document: Document, registry: DocumentRegistry, q: seq<DepRef>, r: DepRef)
    requires ValidRef(document, registry, r)
  {
    var p := DepAt(document, registry, r).filePath;
    p in registry ==> forall c :: c in ChildRefs(document, registry, p) ==> c in q
  }

  /** The queue the worklist loop from `i` ends with is closed throughout. */
  ghost predicate ClosesFrom(document: Document, registry: DocumentRegistry, q: seq<DepRef>, i: nat)
    requires GoodQueue(document, registry, q) && i <= |q|
  {
    var w := ExploreQueue(document, registry, q, i);
    ClosedBefore(document, registry, w, |w|)
  }

  /** A queue closed below position `i` is closed throughout once the worklist loop has run from `i`. */
  lemma {:induction false} ExploreCloses(document: Document, registry: DocumentRegistry, q: seq<DepRef>, i: nat)
    requires GoodQueue(document, registry, q) && i <= |q| && ClosedBefore(document, registry, q, i)
    ensures ClosesFrom(document, registry, q, i)
    decreases Unvisited(document, registry, q), |q| - i
  {
    if i < |q| {
      ClosesStep(document, registry, q, i);
      ExploreCloses(document, registry, Next(document, registry, q, i), i + 1);
      assert ClosesFrom(document, registry, q, i);
    } else {
      assert ExploreQueue(document, registry, q, i) == q;
      assert ClosesFrom(document, registry, q, i);
    }
  }

  /** One step of ExploreCloses, with the facts its recursion needs. */
  lemma ClosesStep(document: Document, registry: DocumentRegistry, q: seq<DepRef>, i: nat)
    requires GoodQueue(document, registry, q) && i < |q| && ClosedBefore(document, registry, q, i)
    ensures ValidRef(document, registry, q[i])
    ensures var q' := Next(document, registry, q, i);
      GoodQueue(document, registry, q') && i + 1 <= |q'| && ClosedBefore(document, registry, q', i + 1) &&
      (Unvisited(document, registry, q') < Unvisited(document, registry, q) ||
       (Unvisited(document, registry, q') == Unvisited(document, registry, q) && |q'| == |q|)) &&
      (ClosesFrom(document, registry, q', i + 1) ==> ClosesFrom(document, registry, q, i))
  {
    NextGood(document, registry, q, i);
    ClosedStep(document, registry, q, i);
    ExploreQueueStep(document, registry, q, i);
  }

  /** Expanding the record at `i` extends the closed part of the queue by one. */
  lemma ClosedStep(document: Document, registry: DocumentRegistry, q: seq<DepRef>, i: nat)
    requires GoodQueue(document, registry, q) && i < |q|
    requires ClosedBefore(document, registry, q, i)
    ensures ValidRef(document, registry, q[i]) && GoodQueue(document, registry, Next(document, registry, q, i))
    ensures ClosedBefore(document, registry, Next(document, registry, q, i), i + 1)
  {
    NextGood(document, registry, q, i);
    var q' := Next(document, registry, q, i);
    NextKeeps(document, registry, q, i);
    ClosedGrows(document, registry, q, q', i);
    NextExpands(document, registry, q, i);
    PrefixIndex(q', q, i);
  }

  /** A closed part stays closed in a longer queue that keeps every record. */
  lemma {:induction false} ClosedGrows(document: Document, registry: DocumentRegistry, q: seq<DepRef>, q': seq<DepRef>, i: nat)
    requires GoodQueue(document, registry, q) && GoodQueue(document, registry, q')
    requires |q| <= |q'| && q'[..|q|] == q && forall c :: c in q ==> c in q'
    requires i <= |q| && ClosedBefore(document, registry, q, i)
    ensures ClosedBefore(document, registry, q', i)
    decreases i
  {
    if i > 0 {
      ClosedGrows(document, registry, q, q', i - 1);
      PrefixIndex(q', q, i - 1);
      ExpandedGrows(document, registry, q, q', q[i - 1]);
    }
  }

  /** Expanding a record keeps every record of the queue. */
  lemma NextKeeps(document: Document, registry: DocumentRegistry, q: seq<DepRef>, i: nat)
    requires i < |q| && ValidRef(document, registry, q[i])
    ensures forall c :: c in q ==> c in Next(document, registry, q, i)
  {
    var p := DepAt(document, registry, q[i]).filePath;
    if p in registry {
      AddAllMembers(q, ChildRefs(document, registry, p));
    }
  }

  /** The expanded record has all its target's records in the new queue. */
  lemma NextExpands(document: Document, registry: DocumentRegistry, q: seq<DepRef>, i: nat)
    requires i < |q| && ValidRef(document, registry, q[i])
    ensures Expanded(document, registry, Next(document, registry, q, i), q[i])
  {
    var p := DepAt(document, registry, q[i]).filePath;
    if p in registry {
      AddAllMembers(q, ChildRefs(document, registry, p));
    }
  }

  /** An element of a prefix is the element of the whole. */
  lemma PrefixIndex(a: seq<DepRef>, b: seq<DepRef>, k: nat)
    requires |b| <= |a| && a[..|b|] == b && k < |b|
    ensures a[k] == b[k]
  {
    assert a[..|b|][k] == b[k];
  }

  /** A record expanded in a queue stays expanded in any queue that contains it. */
  lemma ExpandedGrows(document: Document, registry: DocumentRegistry, q: seq<DepRef>, q': seq<DepRef>, r: DepRef)
    requires ValidRef(document, registry, r) && Expanded(document, registry, q, r)
    requires forall c :: c in q ==> c in q'
    ensures Expanded(document, registry, q', r)
  {
  }

  /**
   * The worklist is closed: it starts with the document's own records, and
   * every record whose target is in the registry has all of the target's
   * records in the worklist too.
   */
  lemma WorklistClosed(document: Document, registry: DocumentRegistry, hashLength: nat, libs: Libraries)
    requires Acyclic(registry)
    ensures var w := Worklist(document, registry, hashLength, libs);
      (forall j :: 0 <= j < |document.dependencies| ==> j < |w| && w[j] == DepRef(document.filePath, j)) &&
      (forall r :: r in w ==> ValidRef(document, registry, r)) &&
      forall k :: 0 <= k < |w| && DepAt(document, registry, w[k]).filePath in registry ==>
        forall c :: c in ChildRefs(document, registry, DepAt(document, registry, w[k]).filePath) ==> c in w
  {
    InitialGood(document, registry);
    var q := InitialRefs(document, registry);
    ExploreCloses(document, registry, q, 0);
    var w := Worklist(document, registry, hashLength, libs);
    forall j | 0 <= j < |document.dependencies| ensures j < |w| && w[j] == DepRef(document.filePath, j) {
      assert w[..|q|][j] == q[j];
    }
    forall k | 0 <= k < |w| && DepAt(document, registry, w[k]).filePath in registry
      ensures forall c :: c in ChildRefs(document, registry, DepAt(document, registry, w[k]).filePath) ==> c in w
    {
      ClosedBeforeAt(document, registry, w, |w|, k);
    }
  }

  /** The record at `k` is one of the records of the target of the record at `j`, and that target is registered. */
  ghost predicate AddedBy(document: Document, registry: DocumentRegistry, q: seq<DepRef>, j: nat, k: nat)
    requires GoodQueue(document, registry, q) && j < |q| && k < |q|
  {
    var p := DepAt(document, registry, q[j]).filePath;
    p in registry && q[k] in ChildRefs(document, registry, p)
  }

  /**
   * The record at `k` is one of the hashed document's own records, at its own
   * position, or was added by an earlier record of the queue.
   */
  ghost predicate ReachedAt(document: Document, registry: DocumentRegistry, q: seq<DepRef>, k: nat)
    requires GoodQueue(document, registry, q) && k < |q|
  {
    (k < |document.dependencies| && q[k] == DepRef(document.filePath, k)) ||
    exists j :: 0 <= j < k && AddedBy(document, registry, q, j, k)
  }

  /** Every record of the queue is reached. */
  ghost predicate Reached(document: Document, registry: DocumentRegistry, q: seq<DepRef>)
    requires GoodQueue(document, registry, q)
  {
    forall k :: 0 <= k < |q| ==> ReachedAt(document, registry, q, k)
  }

  /** What `cs.forEach(c => set.add(c))` appends comes from `cs`. */
  lemma {:induction false} AddAllTail(q: seq<DepRef>, cs: seq<DepRef>)
    ensures forall k :: |q| <= k < |AddAll(q, cs)| ==> AddAll(q, cs)[k] in cs
  {
    if cs != [] {
      var init := cs[..|cs| - 1];
      AddAllTail(q, init);
      var prior := AddAll(q, init);
      assert forall x :: x in init ==> x in cs;
      if cs[|cs| - 1] !in prior {
        assert forall k :: |q| <= k < |prior| ==> AddAll(q, cs)[k] == prior[k];
      }
    }
  }

  /** Expanding the record at `i` keeps every record reached. */
  lemma NextReached(document: Document, registry: DocumentRegistry, q: seq<DepRef>, i: nat)
    requires GoodQueue(document, registry, q) && i < |q| && Reached(document, registry, q)
    ensures ValidRef(document, registry, q[i])
    ensures GoodQueue(document, registry, Next(document, registry, q, i))
    ensures Reached(document, registry, Next(document, registry, q, i))
  {
    NextGood(document, registry, q, i);
    var q' := Next(document, registry, q, i);
    forall k | 0 <= k < |q'| ensures ReachedAt(document, registry, q', k) {
      if k < |q| {
        KeptReached(document, registry, q, q', k);
      } else {
        AddedReached(document, registry, q, i, k);
      }
    }
  }

  /** A reached record stays reached in a queue that extends its queue. */
  lemma KeptReached(document: Document, registry: DocumentRegistry, q: seq<DepRef>, q': seq<DepRef>, k: nat)
    requires GoodQueue(document, registry, q) && GoodQueue(document, registry, q')
    requires |q| <= |q'| && q'[..|q|] == q && k < |q| && ReachedAt(document, registry, q, k)
    ensures ReachedAt(document, registry, q', k)
  {
    PrefixIndex(q', q, k);
    if !(k < |document.dependencies| && q[k] == DepRef(document.filePath, k)) {
      var j :| 0 <= j < k && AddedBy(document, registry, q, j, k);
      PrefixIndex(q', q, j);
      assert AddedBy(document, registry, q', j, k);
    }
  }

  /** A record that expanding the record at `i` appends is added by it. */
  lemma AddedReached(document: Document, registry: DocumentRegistry, q: seq<DepRef>, i: nat, k: nat)
    requires GoodQueue(document, registry, q) && i < |q|
    requires GoodQueue(document, registry, Next(document, registry, q, i))
    requires |q| <= k < |Next(document, registry, q, i)|
    ensures ReachedAt(document, registry, Next(document, registry, q, i), k)
  {
    var q' := Next(document, registry, q, i);
    var p := DepAt(document, registry, q[i]).filePath;
    assert p in registry;
    AddAllTail(q, ChildRefs(document, registry, p));
    PrefixIndex(q', q, i);
    assert AddedBy(document, registry, q', i, k);
  }

  /** The worklist loop from `i` keeps every record reached. */
  lemma {:induction false} ExploreReached(document: Document, registry: DocumentRegistry, q: seq<DepRef>, i: nat, k: nat)
    requires GoodQueue(document, registry, q) && i <= |q| && Reached(document, registry, q)
    ensures k < |ExploreQueue(document, registry, q, i)| ==> ReachedAt(document, registry, ExploreQueue(document, registry, q, i), k)
    decreases Unvisited(document, registry, q), |q| - i
  {
    if i < |q| {
      NextGood(document, registry, q, i);
      NextReached(document, registry, q, i);
      ExploreReached(document, registry, Next(document, registry, q, i), i + 1, k);
    }
  }

  /**
   * The worklist holds nothing else: each of its records is one of the
   * document's own records at its own position, or one of the records of the
   * registered target of an earlier record.
   */
  lemma WorklistOnlyReached(document: Document, registry: DocumentRegistry, hashLength: nat, libs: Libraries)
    requires Acyclic(registry)
    ensures var w := Worklist(document, registry, hashLength, libs);
      GoodQueue(document, registry, w) && Reached(document, registry, w)
  {
    InitialGood(document, registry);
    var q := InitialRefs(document, registry);
    var w := Worklist(document, registry, hashLength, libs);
    assert w == ExploreQueue(document, registry, q, 0);
    forall k | 0 <= k < |w| ensures ReachedAt(document, registry, w, k) {
      ExploreReached(document, registry, q, 0, k);
    }
  }

  /** Documents of the batch that get a batch hash: those with their own 'hash'. */
  function HashedPaths(documents: seq<Document>): set<string> {
    set d | d in documents && HasOwnHash(d) :: d.filePath
  }

  /** The document at `k` is the last one of the batch with its own hash at its path. */
  predicate LastHashedAt(documents: seq<Document>, k: int) {
    0 <= k < |documents| && HasOwnHash(documents[k]) &&
    forall l :: k < l < |documents| && HasOwnHash(documents[l]) ==> documents[l].filePath != documents[k].filePath
  }

  /** The map the loop of `computeContentHashes` builds over `documents`, one `set` per own-hash document. */
  ghost function HashesFor(documents: seq<Document>, registry: DocumentRegistry, hashLength: nat, libs: Libraries): map<string, string>
    requires Acyclic(registry)
  {
    if documents == [] then map[]
    else
      var m := HashesFor(documents[..|documents| - 1], registry, hashLength, libs);
      var d := documents[|documents| - 1];
      if HasOwnHash(d) then m[d.filePath := libs.digest(DigestInput(d, registry, hashLength, libs))] else m
  }

  /** Exactly the own-hash documents get an entry. */
  lemma {:induction false} HashesForKeys(documents: seq<Document>, registry: DocumentRegistry, hashLength: nat, libs: Libraries)
    requires Acyclic(registry)
    ensures HashesFor(documents, registry, hashLength, libs).Keys == HashedPaths(documents)
  {
    if documents != [] {
      var init := documents[..|documents| - 1];
      HashesForKeys(init, registry, hashLength, libs);
      assert documents == init + [documents[|documents| - 1]];
    }
  }

  /** A path's entry is the batch hash of the last own-hash document at that path. */
  lemma {:induction false} HashesForLast(documents: seq<Document>, registry: DocumentRegistry, hashLength: nat, libs: Libraries, k: nat)
    requires Acyclic(registry) && LastHashedAt(documents, k)
    ensures documents[k].filePath in HashesFor(documents, registry, hashLength, libs)
    ensures HashesFor(documents, registry, hashLength, libs)[documents[k].filePath] ==
            libs.digest(DigestInput(documents[k], registry, hashLength, libs))
  {
    var n := |documents|;
    var init := documents[..n - 1];
    var d := documents[n - 1];
    HashesForKeys(documents, registry, hashLength, libs);
    if k < n - 1 {
      assert !HasOwnHash(d) || d.filePath != documents[k].filePath;
      assert LastHashedAt(init, k);
      HashesForLast(init, registry, hashLength, libs, k);
    }
  }

  /**
   * `computeContentHashes`: nothing for a batch of fewer than two documents;
   * otherwise each batch document with its own hash gets the batch hash, the
   * last one winning on a repeated path.
   */
  method ComputeContentHashes(documents: seq<Document>, registry: DocumentRegistry, hashLength: nat, libs: Libraries)
    returns (computed: map<string, string>)
    requires Acyclic(registry)
    ensures |documents| < 2 ==> computed == map[]
    ensures |documents| >= 2 ==> computed == HashesFor(documents, registry, hashLength, libs)
  {
    computed := map[];
    if |documents| < 2 {
      return;
    }
    for i := 0 to |documents|
      invariant computed == HashesFor(documents[..i], registry, hashLength, libs)
    {
      var d := documents[i];
      assert documents[..i + 1][..i] == documents[..i];
      if d.contentHash.Some? && d.contentHash.value.Hash? {
        var h := ComputeContentHash(d, registry, hashLength, libs);
        computed := computed[d.filePath := h];
      }
    }
    assert documents[..|documents|] == documents;
  }

  /** The hashed path a reference to `depDoc` is rewritten to. */
  function HashedTarget(depDoc: Document, computed: map<string, string>, registry: DocumentRegistry, hashLength: nat): (r: string)
    requires Acyclic(registry)
    ensures depDoc.filePath in computed ==> r == ReplaceHash(depDoc.filePath, depDoc.fileExtension, Take(computed[depDoc.filePath], hashLength))
    ensures depDoc.filePath !in computed ==> r == GetHashedPath(depDoc, registry, hashLength)
  {
    if depDoc.filePath in computed then ReplaceHash(depDoc.filePath, depDoc.fileExtension, Take(computed[depDoc.filePath], hashLength))
    else GetHashedPath(depDoc, registry, hashLength)
  }

  /** `path.replace(/.d.ts$/, '')`, with `.` matching any character. */
  function StripDts(p: string): (r: string)
    ensures PatternAtEnd(p, DtsExt) ==> r == p[..|p| - 5]
    ensures !PatternAtEnd(p, DtsExt) ==> r == p
  {
    ReplacePatternAtEnd(p, DtsExt, "")
  }

  /** Both dots of `.d.ts$` are wildcards: 'a.d.ts' and 'axdxts' both lose their last five characters. */
  lemma StripDtsWildcards()
    ensures StripDts("a.d.ts") == "a" && StripDts("axdxts") == "a" && StripDts("a.dts") == "a.dts"
  {
    assert PatternAtEnd("axdxts", DtsExt);
    assert "a.d.ts"[..1] == "a" && "axdxts"[..1] == "a";
    assert !PatternAtEnd("a.dts", DtsExt) by { assert "a.dts"[0 + 1] != DtsExt[1]; }
  }

  /** The path used before '.d.ts' stripping: with a base URL the origin-applied path, else absolute or relative. */
  function PathToUse(lib: Posix, settings: Settings, document: Document, dep: Dependency, hashedPath: string): string {
    if HasBaseUrl(settings.baseUrl) then ApplyOrigin(lib, settings.directory, hashedPath, settings.baseUrl.value)
    else if StartsWith(dep.specifier, "/") then EnsureAbsolute(lib.relative(settings.directory, hashedPath))
    else EnsureRelative(lib.relative(lib.dirname(document.filePath), hashedPath))
  }

  /** `determineReplacementPath`. */
  function DetermineReplacementPath(lib: Posix, settings: Settings, registry: DocumentRegistry, computed: map<string, string>,
                                    document: Document, depDoc: Document, dep: Dependency): (r: string)
    requires Acyclic(registry)
    ensures var hashed := HashedTarget(depDoc, computed, registry, settings.hashLength);
      r == StripDts(PathToUse(lib, settings, document, dep, hashed))
  {
    StripDts(PathToUse(lib, settings, document, dep, HashedTarget(depDoc, computed, registry, settings.hashLength)))
  }

  /**
   * Without a base URL, a reference written with a leading '/' is rewritten
   * to a '/'-rooted path and any other reference to a './', '../' or '/'
   * path, unless stripping '.d.ts' empties it.
   */
  lemma ReplacementPathForm(lib: Posix, settings: Settings, registry: DocumentRegistry, computed: map<string, string>,
                            document: Document, depDoc: Document, dep: Dependency)
    requires Acyclic(registry) && !HasBaseUrl(settings.baseUrl)
    ensures var r := DetermineReplacementPath(lib, settings, registry, computed, document, depDoc, dep);
      r != [] ==> (if StartsWith(dep.specifier, "/") then r[0] == '/' else r[0] == '.' || r[0] == '/')
  {
    var hashed := HashedTarget(depDoc, computed, registry, settings.hashLength);
    var p := PathToUse(lib, settings, document, dep, hashed);
    var r := StripDts(p);
    if r != [] {
      assert r[0] == p[0];
    }
  }

  /** The replacement is a prefix of the chosen path: at most the '.d.ts' ending is removed. */
  lemma ReplacementPathPrefix(lib: Posix, settings: Settings, registry: DocumentRegistry, computed: map<string, string>,
                              document: Document, depDoc: Document, dep: Dependency)
    requires Acyclic(registry)
    ensures var p := PathToUse(lib, settings, document, dep, HashedTarget(depDoc, computed, registry, settings.hashLength));
      var r := DetermineReplacementPath(lib, settings, registry, computed, document, depDoc, dep);
      StartsWith(p, r) && (|r| == |p| || |r| == |p| - 5)
  {
  }

  /** The edit a dependency of the document gets, when its target is in the registry. */
  function DependencyEdits(lib: Posix, settings: Settings, registry: DocumentRegistry, computed: map<string, string>,
                           document: Document, deps: seq<Dependency>): seq<Edit>
    requires Acyclic(registry)
  {
    if deps == [] then []
    else
      var dep := deps[0];
      (if dep.filePath in registry
       then [Edit(dep.position.start, dep.position.end,
                  DetermineReplacementPath(lib, settings, registry, computed, document, registry[dep.filePath], dep))]
       else []) +
      DependencyEdits(lib, settings, registry, computed, document, deps[1..])
  }

  /**
   * Exactly the dependencies whose path is in the registry are overwritten,
   * each over its own range with its replacement path.
   */
  lemma {:induction false} DependencyEditsExact(lib: Posix, settings: Settings, registry: DocumentRegistry, computed: map<string, string>,
                                                document: Document, deps: seq<Dependency>)
    requires Acyclic(registry)
    ensures forall e :: e in DependencyEdits(lib, settings, registry, computed, document, deps) <==>
      exists dep :: dep in deps && dep.filePath in registry &&
        e == Edit(dep.position.start, dep.position.end,
                  DetermineReplacementPath(lib, settings, registry, computed, document, registry[dep.filePath], dep))
  {
    if deps != [] {
      DependencyEditsExact(lib, settings, registry, computed, document, deps[1..]);
      assert forall dep :: dep in deps <==> dep == deps[0] || dep in deps[1..];
    }
  }

  /** `rewriteDocumentDependencies(document, computedHashes, env)(ms)`. */
  method RewriteDocumentDependencies(ms: MagicString, lib: Posix, settings: Settings, registry: DocumentRegistry,
                                     computed: map<string, string>, document: Document)
    requires Acyclic(registry)
    modifies ms
    ensures ms.edits == old(ms.edits) + DependencyEdits(lib, settings, registry, computed, document, document.dependencies)
  {
    ghost var start := ms.edits;
    var deps := document.dependencies;
    for i := 0 to |deps|
      invariant ms.edits + DependencyEdits(lib, settings, registry, computed, document, deps[i..]) ==
        start + DependencyEdits(lib, settings, registry, computed, document, deps)
    {
      var dep := deps[i];
      assert deps[i..][1..] == deps[i + 1..];
      if dep.filePath in registry {
        var depDoc := registry[dep.filePath];
        ms.Overwrite(dep.position.start, dep.position.end,
                     DetermineReplacementPath(lib, settings, registry, computed, document, depDoc, dep));
      }
    }
  }

  /** The batch document with its computed hash installed, if it has one. */
  function WithComputedHash(document: Document, computed: map<string, string>): (r: Document)
    ensures document.filePath in computed ==> r == document.(contentHash := Some(Hash(computed[document.filePath])))
    ensures document.filePath !in computed ==> r == document
  {
    if document.filePath in computed then document.(contentHash := Some(Hash(computed[document.filePath]))) else document
  }

  /** The paths the rewrite of `documents` may touch: each document's path and source-map path. */
  function Touched(documents: seq<Document>): set<string> {
    if documents == [] then {} else Touched(documents[..|documents| - 1]) + TouchedBy(documents[|documents| - 1])
  }

  /** The paths the rewrite of one document may touch. */
  function TouchedBy(d: Document): set<string> {
    {d.filePath} + if d.sourceMap.Some? then {d.sourceMap.value} else {}
  }

  /**
   * One document of the batch rewritten into the current registry: its
   * computed hash installed, its references overwritten (the replacement
   * paths are resolved against the starting registry), and the hash update
   * skipped when a batch hash was installed.
   */
  function RewriteOne(lib: Posix, libs: Libraries, settings: Settings, registry: DocumentRegistry,
                      computed: map<string, string>, current: DocumentRegistry, document: Document): DocumentRegistry
    requires Acyclic(registry)
  {
    var updated := WithComputedHash(document, computed);
    RewriteDocumentContents(lib, libs, current, updated,
                            DependencyEdits(lib, settings, registry, computed, updated, updated.dependencies),
                            settings.sourceMaps, document.filePath in computed)
  }

  /** The documents of the batch rewritten in turn, starting from `registry`. */
  function RewriteAll(lib: Posix, libs: Libraries, settings: Settings, registry: DocumentRegistry,
                      computed: map<string, string>, documents: seq<Document>): DocumentRegistry
    requires Acyclic(registry)
  {
    if documents == [] then registry
    else
      RewriteOne(lib, libs, settings, registry, computed,
                 RewriteAll(lib, libs, settings, registry, computed, documents[..|documents| - 1]),
                 documents[|documents| - 1])
  }

  /** The batch hashes `computeContentHashes` returns: none for a batch of one. */
  ghost function BatchHashes(documents: seq<Document>, registry: DocumentRegistry, hashLength: nat, libs: Libraries): map<string, string>
    requires Acyclic(registry)
  {
    if |documents| < 2 then map[] else HashesFor(documents, registry, hashLength, libs)
  }

  /**
   * `rewriteDependencies(documents)`: the batch hashes are computed against
   * the starting registry, and each document in turn is rewritten into the
   * current registry with its references pointing at hashed paths.
   */
  method RewriteDependencies(lib: Posix, libs: Libraries, settings: Settings, registry: DocumentRegistry, documents: seq<Document>)
    returns (result: DocumentRegistry)
    requires Acyclic(registry)
    ensures result == RewriteAll(lib, libs, settings, registry, BatchHashes(documents, registry, settings.hashLength, libs), documents)
  {
    var computed := ComputeContentHashes(documents, registry, settings.hashLength, libs);
    result := registry;
    for i := 0 to |documents|
      invariant result == RewriteAll(lib, libs, settings, registry, computed, documents[..i])
    {
      result := RewriteDocument(lib, libs, settings, registry, computed, result, documents[i]);
      assert documents[..i + 1][..i] == documents[..i] && documents[..i + 1][i] == documents[i];
    }
    assert documents[..|documents|] == documents;
  }

  /** One turn of the loop of `rewriteDependencies`, for `document`. */
  method RewriteDocument(lib: Posix, libs: Libraries, settings: Settings, registry: DocumentRegistry,
                         computed: map<string, string>, current: DocumentRegistry, document: Document)
    returns (next: DocumentRegistry)
    requires Acyclic(registry)
    ensures next == RewriteOne(lib, libs, settings, registry, computed, current, document)
  {
    var hasComputedHash := document.filePath in computed;
    var updated := WithComputedHash(document, computed);
    var ms := new MagicString(updated.contents);
    RewriteDocumentDependencies(ms, lib, settings, registry, computed, updated);
    assert ms.edits == DependencyEdits(lib, settings, registry, computed, updated, updated.dependencies);
    next := RewriteDocumentContents(lib, libs, current, updated, ms.edits, settings.sourceMaps, hasComputedHash);
  }


  /**
   * Rewriting a batch adds entries only at its documents' paths and
   * source-map paths, keeps every registry path, and leaves every other
   * entry as it was.
   */
  lemma {:induction false} RewriteAllFrame(lib: Posix, libs: Libraries, settings: Settings, registry: DocumentRegistry,
                                           computed: map<string, string>, documents: seq<Document>)
    requires Acyclic(registry)
    ensures var result := RewriteAll(lib, libs, settings, registry, computed, documents);
      registry.Keys <= result.Keys &&
      result.Keys <= registry.Keys + Touched(documents) &&
      forall p :: p in registry && p !in Touched(documents) ==> result[p] == registry[p]
  {
    if documents != [] {
      var front := documents[..|documents| - 1];
      var d := documents[|documents| - 1];
      var prev := RewriteAll(lib, libs, settings, registry, computed, front);
      RewriteAllFrame(lib, libs, settings, registry, computed, front);
      RewriteOneFrame(lib, libs, settings, registry, computed, prev, d);
      FrameCompose(registry, prev, RewriteAll(lib, libs, settings, registry, computed, documents), Touched(front), TouchedBy(d));
    }
  }

  /** Two rewrites, each confined to its own paths, are together confined to both. */
  lemma FrameCompose(registry: DocumentRegistry, prev: DocumentRegistry, r: DocumentRegistry, a: set<string>, b: set<string>)
    requires registry.Keys <= prev.Keys <= registry.Keys + a
    requires forall p :: p in registry && p !in a ==> prev[p] == registry[p]
    requires prev.Keys <= r.Keys <= prev.Keys + b
    requires forall p :: p in prev && p !in b ==> r[p] == prev[p]
    ensures registry.Keys <= r.Keys <= registry.Keys + (a + b)
    ensures forall p :: p in registry && p !in a + b ==> r[p] == registry[p]
  {
  }

  /** One document's rewrite adds at most its path and source-map path and changes no other entry. */
  lemma RewriteOneFrame(lib: Posix, libs: Libraries, settings: Settings, registry: DocumentRegistry,
                        computed: map<string, string>, current: DocumentRegistry, d: Document)
    requires Acyclic(registry)
    ensures var r := RewriteOne(lib, libs, settings, registry, computed, current, d);
      current.Keys <= r.Keys && r.Keys <= current.Keys + TouchedBy(d) &&
      forall p :: p in current && p !in TouchedBy(d) ==> r[p] == current[p]
  {
    var updated := WithComputedHash(d, computed);
    assert updated.filePath == d.filePath && updated.sourceMap == d.sourceMap;
  }

  /**
   * A rewritten batch document whose batch hash was computed is stored with
   * that hash: the hash update is skipped, so the contents do not re-hash it.
   */
  lemma BatchHashStored(lib: Posix, libs: Libraries, settings: Settings, registry: DocumentRegistry,
                        computed: map<string, string>, current: DocumentRegistry, d: Document)
    requires Acyclic(registry) && d.filePath in computed
    requires !NotRewritten(lib, d)
    requires !(WritesSourceMap(lib, d, settings.sourceMaps) && d.sourceMap.value == d.filePath)
    ensures var r := RewriteOne(lib, libs, settings, registry, computed, current, d);
      d.filePath in r && r[d.filePath].contentHash == Some(Hash(computed[d.filePath]))
  {
    var updated := WithComputedHash(d, computed);
    assert ExtensionOf(lib, updated) == ExtensionOf(lib, d);
  }

  /** A batch document with its own hash carries its batch hash into the rewrite, whatever hash it had. */
  lemma BatchHashInstalled(documents: seq<Document>, computed: map<string, string>, k: nat)
    requires k < |documents| && documents[k].filePath in computed
    ensures HasOwnHash(WithComputedHash(documents[k], computed))
    ensures WithComputedHash(documents[k], computed).contentHash.value.hash == computed[documents[k].filePath]
  {
  }
}
