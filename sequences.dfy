/**
 * Sequence idioms the engine relies on: JavaScript's insertion-ordered
 * `Set` (add when absent, `Array.from`), and fp-ts's `uniq`, which keeps the
 * first of every group of equal elements.
 */
module Sequences {

  predicate Distinct<T(==,!new)>(s: seq<T>) {
    forall i, j :: 0 <= i < j < |s| ==> s[i] != s[j]
  }

  /** `set.add(x)` on an insertion-ordered set: append when absent. */
  function AddOnce<T(==)>(s: seq<T>, x: T): seq<T> {
    if x in s then s else s + [x]
  }

  lemma AddOnceMembers<T>(s: seq<T>, x: T)
    ensures forall y :: y in AddOnce(s, x) <==> y in s || y == x
  {
  }

  /**
   * `Array.from(set)` for a set filled by `for (x of xs) if (keep(x)) set.add(x)`:
   * the kept elements, each once, in order of first appearance.
   */
  function Collect<T(==,!new)>(xs: seq<T>, keep: T -> bool): seq<T>
  {
    if xs == [] then []
    else
      var r := Collect(xs[..|xs| - 1], keep);
      if keep(xs[|xs| - 1]) then AddOnce(r, xs[|xs| - 1]) else r
  }

  /** The filter of `Array.from(new Set(xs))`: every element is kept. */
  function KeepAll<T>(x: T): bool {
    true
  }

  /** An element is collected exactly when it occurs and is kept, and none is collected twice. */
  lemma {:induction false} CollectMembers<T(!new)>(xs: seq<T>, keep: T -> bool)
    ensures forall x :: x in Collect(xs, keep) <==> x in xs && keep(x)
    ensures Distinct(Collect(xs, keep))
  {
    if xs != [] {
      CollectMembers(xs[..|xs| - 1], keep);
      assert xs == xs[..|xs| - 1] + [xs[|xs| - 1]];
    }
  }

  /** Collecting a longer input only appends: what the prefix collected stays first, in order. */
  lemma {:induction false} CollectPrefix<T(!new)>(xs: seq<T>, ys: seq<T>, keep: T -> bool)
    ensures var a := Collect(xs, keep);
      var b := Collect(xs + ys, keep);
      |a| <= |b| && b[..|a|] == a
    decreases |ys|
  {
    if ys == [] {
      assert xs + ys == xs;
    } else {
      var zs := ys[..|ys| - 1];
      CollectPrefix(xs, zs, keep);
      assert (xs + ys)[..|xs + ys| - 1] == xs + zs;
    }
  }

  /** Some element of `r` has key `k`. */
  predicate HasKey<T(!new), K(==)>(r: seq<T>, key: T -> K, k: K) {
    exists i :: 0 <= i < |r| && key(r[i]) == k
  }

  /** fp-ts `uniq` under the equivalence "same key": each element is kept unless an earlier one has its key. */
  function UniqBy<T(!new), K(==)>(xs: seq<T>, key: T -> K): seq<T>
  {
    if xs == [] then []
    else
      var r := UniqBy(xs[..|xs| - 1], key);
      if HasKey(r, key, key(xs[|xs| - 1])) then r else r + [xs[|xs| - 1]]
  }

  /** `uniq` keeps only elements of the input. */
  lemma {:induction false} UniqBySubset<T(!new), K>(xs: seq<T>, key: T -> K)
    ensures forall i :: 0 <= i < |UniqBy(xs, key)| ==> exists j :: 0 <= j < |xs| && UniqBy(xs, key)[i] == xs[j]
  {
    if xs != [] {
      var p := xs[..|xs| - 1];
      var q := UniqBy(p, key);
      var r := UniqBy(xs, key);
      UniqBySubset(p, key);
      forall i | 0 <= i < |r|
        ensures exists j :: 0 <= j < |xs| && r[i] == xs[j]
      {
        if i < |q| {
          var j :| 0 <= j < |p| && q[i] == p[j];
          assert r[i] == xs[j];
        } else {
          assert r[i] == xs[|xs| - 1];
        }
      }
    } else {
      assert UniqBy(xs, key) == [];
    }
  }

  /** No two kept elements have the same key. */
  lemma {:induction false} UniqByDistinctKeys<T(!new), K>(xs: seq<T>, key: T -> K)
    ensures forall i, j :: 0 <= i < j < |UniqBy(xs, key)| ==> key(UniqBy(xs, key)[i]) != key(UniqBy(xs, key)[j])
  {
    if xs != [] {
      var q := UniqBy(xs[..|xs| - 1], key);
      var x := xs[|xs| - 1];
      var r := UniqBy(xs, key);
      UniqByDistinctKeys(xs[..|xs| - 1], key);
      if !HasKey(q, key, key(x)) {
        assert r == q + [x];
        forall i, j | 0 <= i < j < |r|
          ensures key(r[i]) != key(r[j])
        {
          if j == |q| {
            assert r[j] == x && r[i] == q[i];
          } else {
            assert r[j] == q[j] && r[i] == q[i];
          }
        }
      }
    }
  }

  /** Every key of the input is the key of a kept element. */
  lemma {:induction false} UniqByAllKeys<T(!new), K>(xs: seq<T>, key: T -> K)
    ensures forall j :: 0 <= j < |xs| ==> HasKey(UniqBy(xs, key), key, key(xs[j]))
  {
    if xs != [] {
      var p := xs[..|xs| - 1];
      var q := UniqBy(p, key);
      UniqByAllKeys(p, key);
      var r := UniqBy(xs, key);
      assert forall i :: 0 <= i < |q| ==> r[i] == q[i];
      forall j | 0 <= j < |xs|
        ensures HasKey(r, key, key(xs[j]))
      {
        if j < |p| {
          assert xs[j] == p[j];
          var i :| 0 <= i < |q| && key(q[i]) == key(p[j]);
          assert key(r[i]) == key(xs[j]);
        } else if !HasKey(q, key, key(xs[j])) {
          assert key(r[|q|]) == key(xs[j]);
        } else {
          var i :| 0 <= i < |q| && key(q[i]) == key(xs[j]);
          assert key(r[i]) == key(xs[j]);
        }
      }
    }
  }

  /** A kept element occurs no later than any element with its key: later duplicates are the ones removed. */
  lemma {:induction false} UniqByKeepsFirst<T(!new), K>(xs: seq<T>, key: T -> K)
    ensures forall i, j :: 0 <= i < |UniqBy(xs, key)| && 0 <= j < |xs| && key(xs[j]) == key(UniqBy(xs, key)[i]) ==>
        exists l :: 0 <= l <= j && xs[l] == UniqBy(xs, key)[i]
  {
    if xs != [] {
      var p := xs[..|xs| - 1];
      var x := xs[|xs| - 1];
      var q := UniqBy(p, key);
      UniqByKeepsFirst(p, key);
      UniqByAllKeys(p, key);
      var r := UniqBy(xs, key);
      assert forall j :: 0 <= j < |p| ==> xs[j] == p[j];
      forall i, j | 0 <= i < |r| && 0 <= j < |xs| && key(xs[j]) == key(r[i])
        ensures exists l :: 0 <= l <= j && xs[l] == r[i]
      {
        if i < |q| && j < |p| {
          assert r[i] == q[i];
          assert key(p[j]) == key(q[i]);
          assert exists l :: 0 <= l <= j && p[l] == q[i];
          var l :| 0 <= l <= j && p[l] == q[i];
          assert xs[l] == r[i];
        } else if i < |q| {
          assert r[i] == q[i];
          UniqBySubset(p, key);
          var m :| 0 <= m < |p| && q[i] == p[m];
          assert xs[m] == r[i];
        } else {
          assert r == q + [x];
          assert j == |p|;
          assert xs[|xs| - 1] == r[i];
        }
      }
    }
  }

  /** `uniq` is a fold: de-duplicating the de-duplicated prefix with more elements is de-duplicating the whole. */
  lemma {:induction false} UniqByAppend<T(!new), K>(xs: seq<T>, ys: seq<T>, key: T -> K)
    ensures UniqBy(UniqBy(xs, key) + ys, key) == UniqBy(xs + ys, key)
  {
    if ys == [] {
      assert xs + ys == xs;
      UniqByIdempotent(xs, key);
      assert UniqBy(xs, key) + ys == UniqBy(xs, key);
    } else {
      var init := ys[..|ys| - 1];
      var y := ys[|ys| - 1];
      UniqByAppend(xs, init, key);
      assert (UniqBy(xs, key) + ys)[..|UniqBy(xs, key) + ys| - 1] == UniqBy(xs, key) + init;
      assert (xs + ys)[..|xs + ys| - 1] == xs + init;
    }
  }

  /** De-duplicating twice is de-duplicating once. */
  lemma {:induction false} UniqByIdempotent<T(!new), K>(xs: seq<T>, key: T -> K)
    ensures UniqBy(UniqBy(xs, key), key) == UniqBy(xs, key)
  {
    UniqByDistinctKeys(xs, key);
    UniqByOfDistinct(UniqBy(xs, key), key);
  }

  /** A list whose keys are already distinct is kept whole. */
  lemma {:induction false} UniqByOfDistinct<T(!new), K>(xs: seq<T>, key: T -> K)
    requires forall i, j :: 0 <= i < j < |xs| ==> key(xs[i]) != key(xs[j])
    ensures UniqBy(xs, key) == xs
  {
    if xs != [] {
      var init := xs[..|xs| - 1];
      UniqByOfDistinct(init, key);
      assert !HasKey(init, key, key(xs[|xs| - 1])) by {
        forall i | 0 <= i < |init|
          ensures key(init[i]) != key(xs[|xs| - 1])
        {
          assert init[i] == xs[i];
        }
      }
      assert init + [xs[|xs| - 1]] == xs;
    }
  }

  /** `xs.filter(keep)`: the kept elements in order. */
  function Filter<T>(xs: seq<T>, keep: T -> bool): (r: seq<T>)
    ensures |r| <= |xs|
  {
    if xs == [] then [] else (if keep(xs[0]) then [xs[0]] else []) + Filter(xs[1..], keep)
  }

  /** An element survives the filter exactly when it occurs and is kept. */
  lemma {:induction false} FilterMembers<T>(xs: seq<T>, keep: T -> bool)
    ensures forall x :: x in Filter(xs, keep) <==> x in xs && keep(x)
  {
    if xs != [] {
      FilterMembers(xs[1..], keep);
      assert forall x :: x in xs <==> x == xs[0] || x in xs[1..];
    }
  }

  lemma {:induction false} FilterAppend<T>(a: seq<T>, b: seq<T>, keep: T -> bool)
    ensures Filter(a + b, keep) == Filter(a, keep) + Filter(b, keep)
  {
    if a == [] {
      assert a + b == b;
    } else {
      var t := a[1..];
      FilterAppend(t, b, keep);
      var ab := a + b;
      assert ab[0] == a[0] && ab[1..] == t + b;
      var h := if keep(a[0]) then [a[0]] else [];
      assert Filter(ab, keep) == h + Filter(t + b, keep);
      assert Filter(a, keep) == h + Filter(t, keep);
      assert h + (Filter(t, keep) + Filter(b, keep)) == (h + Filter(t, keep)) + Filter(b, keep);
    }
  }

  /** Filtering what a filter kept under a second test keeps what passes both. */
  lemma {:induction false} FilterFilter<T>(xs: seq<T>, p: T -> bool, q: T -> bool, both: T -> bool)
    requires forall x :: both(x) == (p(x) && q(x))
    ensures Filter(Filter(xs, p), q) == Filter(xs, both)
  {
    if xs != [] {
      FilterFilter(xs[1..], p, q, both);
      assert both(xs[0]) == (p(xs[0]) && q(xs[0]));
      if p(xs[0]) {
        var f := Filter(xs, p);
        assert f == [xs[0]] + Filter(xs[1..], p);
        assert f[0] == xs[0] && f[1..] == Filter(xs[1..], p);
        assert Filter(f, q) == (if q(xs[0]) then [xs[0]] else []) + Filter(f[1..], q);
      } else {
        assert Filter(xs, p) == Filter(xs[1..], p);
      }
    }
  }
}
