/**
 * JavaScript's `Map`: entries kept in insertion order, each key once.
 * `set` on a present key replaces its value where it stands; on a new key
 * it appends. `new Map(entries)` is a run of `set`s, so the last entry of a
 * key gives its value and the first one its place.
 */
module OrderedMaps {
  import opened Wrappers
  import opened Sequences

  /** The keys in iteration order. */
  function Keys<K, V>(m: seq<(K, V)>): (r: seq<K>)
    ensures |r| == |m|
    ensures forall i :: 0 <= i < |m| ==> r[i] == m[i].0
  {
    seq(|m|, (i: int) requires 0 <= i < |m| => m[i].0)
  }

  /** `map.get(k)`: the value of the first entry with key `k`. */
  function Get<K(==), V>(m: seq<(K, V)>, k: K): (r: Option<V>)
    ensures r.None? <==> k !in Keys(m)
  {
    if m == [] then None
    else if m[0].0 == k then Some(m[0].1)
    else
      assert Keys(m) == [m[0].0] + Keys(m[1..]);
      Get(m[1..], k)
  }

  /** `map.set(k, v)`: in place when present, appended when not. */
  function Put<K(==), V>(m: seq<(K, V)>, k: K, v: V): seq<(K, V)>
  {
    if m == [] then [(k, v)]
    else if m[0].0 == k then [(k, v)] + m[1..]
    else [m[0]] + Put(m[1..], k, v)
  }

  /** `new Map(entries)`: the entries `set` one after the other. */
  function FromEntries<K(==), V>(entries: seq<(K, V)>): seq<(K, V)>
  {
    if entries == [] then []
    else
      var last := entries[|entries| - 1];
      Put(FromEntries(entries[..|entries| - 1]), last.0, last.1)
  }

  /** The value a run of `set`s leaves for `k`: that of the last entry with key `k`. */
  function LastValue<K(==), V>(entries: seq<(K, V)>, k: K): Option<V>
  {
    if entries == [] then None
    else if entries[|entries| - 1].0 == k then Some(entries[|entries| - 1].1)
    else LastValue(entries[..|entries| - 1], k)
  }

  /** After `set`, the key reads back its new value and every other key reads as before. */
  lemma {:induction false} PutGet<K, V>(m: seq<(K, V)>, k: K, v: V, k': K)
    ensures Get(Put(m, k, v), k') == if k' == k then Some(v) else Get(m, k')
  {
    if m != [] && m[0].0 != k {
      PutGet(m[1..], k, v, k');
    }
  }

  lemma KeysCons<K, V>(e: (K, V), m: seq<(K, V)>)
    ensures Keys([e] + m) == [e.0] + Keys(m)
  {
  }

  /** `set` adds the key to the iteration order exactly as an insertion-ordered set would. */
  lemma {:induction false} PutKeys<K, V>(m: seq<(K, V)>, k: K, v: V)
    ensures Keys(Put(m, k, v)) == AddOnce(Keys(m), k)
  {
    if m != [] {
      assert m == [m[0]] + m[1..];
      KeysCons(m[0], m[1..]);
      if m[0].0 != k {
        PutKeys(m[1..], k, v);
        KeysCons(m[0], Put(m[1..], k, v));
        assert (k in Keys(m)) == (k in Keys(m[1..]));
      } else {
        KeysCons((k, v), m[1..]);
      }
    }
  }

  /** A map built from entries answers every key with the value of its last entry. */
  lemma {:induction false} FromEntriesGet<K, V>(entries: seq<(K, V)>, k: K)
    ensures Get(FromEntries(entries), k) == LastValue(entries, k)
  {
    if entries != [] {
      var last := entries[|entries| - 1];
      FromEntriesGet(entries[..|entries| - 1], k);
      PutGet(FromEntries(entries[..|entries| - 1]), last.0, last.1, k);
    }
  }

  /** Its keys are the entries' keys, each once, in order of first appearance. */
  lemma {:induction false} FromEntriesKeys<K(!new), V>(entries: seq<(K, V)>)
    ensures Keys(FromEntries(entries)) == Collect(Keys(entries), KeepAll)
  {
    if entries != [] {
      var init := entries[..|entries| - 1];
      var last := entries[|entries| - 1];
      FromEntriesKeys(init);
      PutKeys(FromEntries(init), last.0, last.1);
      assert Keys(entries)[..|entries| - 1] == Keys(init);
    }
  }

  /** The last entry of a key is found by `LastValue`, and no later entry has that key. */
  lemma {:induction false} LastValueIsLast<K, V>(entries: seq<(K, V)>, k: K)
    ensures LastValue(entries, k).None? <==> forall i :: 0 <= i < |entries| ==> entries[i].0 != k
    ensures LastValue(entries, k).Some? ==>
      exists i :: 0 <= i < |entries| && entries[i] == (k, LastValue(entries, k).value) &&
                  forall j :: i < j < |entries| ==> entries[j].0 != k
  {
    if entries != [] && entries[|entries| - 1].0 != k {
      var init := entries[..|entries| - 1];
      LastValueIsLast(init, k);
      assert forall i :: 0 <= i < |init| ==> init[i] == entries[i];
    }
  }

  /** When every entry carries the same value, a key that has an entry reads that value. */
  lemma {:induction false} LastValueUniform<K, V>(entries: seq<(K, V)>, k: K, v: V, j: nat)
    requires j < |entries| && entries[j].0 == k
    requires forall i :: 0 <= i < |entries| ==> entries[i].1 == v
    ensures LastValue(entries, k) == Some(v)
  {
    if entries[|entries| - 1].0 != k {
      var init := entries[..|entries| - 1];
      assert forall i :: 0 <= i < |init| ==> init[i] == entries[i];
      LastValueUniform(init, k, v, j);
    }
  }

  /** A run of `set`s on an existing map, one per entry, in order. */
  function PutAll<K(==), V>(m: seq<(K, V)>, entries: seq<(K, V)>): seq<(K, V)>
  {
    if entries == [] then m
    else
      var last := entries[|entries| - 1];
      Put(PutAll(m, entries[..|entries| - 1]), last.0, last.1)
  }

  /** After a run of `set`s a key reads the value of its last entry, or as before when no entry has it. */
  lemma {:induction false} PutAllGet<K, V>(m: seq<(K, V)>, entries: seq<(K, V)>, k: K)
    ensures Get(PutAll(m, entries), k) == LastValue(entries, k).Alt(Get(m, k))
  {
    if entries != [] {
      var last := entries[|entries| - 1];
      PutAllGet(m, entries[..|entries| - 1], k);
      PutGet(PutAll(m, entries[..|entries| - 1]), last.0, last.1, k);
    }
  }

  /** Building from two runs of entries is building from the first and then setting the second. */
  lemma {:induction false} FromEntriesConcat<K, V>(a: seq<(K, V)>, b: seq<(K, V)>)
    ensures FromEntries(a + b) == PutAll(FromEntries(a), b)
  {
    if b == [] {
      assert a + b == a;
    } else {
      var init := b[..|b| - 1];
      FromEntriesConcat(a, init);
      assert (a + b)[..|a + b| - 1] == a + init;
    }
  }

  /** Setting two runs of entries one after the other is setting their concatenation. */
  lemma {:induction false} PutAllConcat<K, V>(m: seq<(K, V)>, a: seq<(K, V)>, b: seq<(K, V)>)
    ensures PutAll(PutAll(m, a), b) == PutAll(m, a + b)
  {
    if b == [] {
      assert a + b == a;
    } else {
      var init := b[..|b| - 1];
      PutAllConcat(m, a, init);
      assert (a + b)[..|a + b| - 1] == a + init;
    }
  }

  /** A value the map holds was the value of one of the entries under that key. */
  lemma LastValueFrom<K, V>(entries: seq<(K, V)>, k: K)
    requires LastValue(entries, k).Some?
    ensures (k, LastValue(entries, k).value) in entries
  {
    LastValueIsLast(entries, k);
  }

  /** The last entry of a key in two runs is in the second run if that has one, else in the first. */
  lemma {:induction false} LastValueConcat<K, V>(a: seq<(K, V)>, b: seq<(K, V)>, k: K)
    ensures LastValue(a + b, k) == LastValue(b, k).Alt(LastValue(a, k))
  {
    if b == [] {
      assert a + b == a;
    } else {
      LastValueConcat(a, b[..|b| - 1], k);
      assert (a + b)[..|a + b| - 1] == a + b[..|b| - 1];
    }
  }

  /** `get` finds the first entry with the key. */
  lemma {:induction false} GetIsFirst<K, V>(m: seq<(K, V)>, k: K)
    requires Get(m, k).Some?
    ensures exists i :: 0 <= i < |m| && m[i] == (k, Get(m, k).value)
  {
    if m[0].0 != k {
      GetIsFirst(m[1..], k);
      var i :| 0 <= i < |m[1..]| && m[1..][i] == (k, Get(m[1..], k).value);
      assert m[i + 1] == m[1..][i];
    }
  }

  /** A record built from entries has exactly the entries' keys, each once. */
  lemma FromEntriesHasKey<K(!new), V>(entries: seq<(K, V)>, k: K)
    ensures Get(FromEntries(entries), k).Some? <==> exists i :: 0 <= i < |entries| && entries[i].0 == k
    ensures Distinct(Keys(FromEntries(entries)))
  {
    FromEntriesGet(entries, k);
    LastValueIsLast(entries, k);
    FromEntriesKeys(entries);
    CollectMembers(Keys(entries), KeepAll);
  }

  /** A record built from entries holds, under a key, the value of the last entry with that key. */
  lemma FromEntriesLookup<K, V>(entries: seq<(K, V)>, k: K)
    ensures Get(FromEntries(entries), k).Some? <==> exists i :: 0 <= i < |entries| && entries[i].0 == k
    ensures Get(FromEntries(entries), k).Some? ==>
      exists i :: 0 <= i < |entries| && entries[i] == (k, Get(FromEntries(entries), k).value) &&
                  forall j :: i < j < |entries| ==> entries[j].0 != k
  {
    FromEntriesGet(entries, k);
    LastValueIsLast(entries, k);
  }

  lemma DistinctKeysGet<K(!new), V>(m: seq<(K, V)>, k: K)
    requires Distinct(Keys(m))
    ensures LastValue(m, k) == Get(m, k)
  {
    LastValueIsLast(m, k);
    if Get(m, k).Some? {
      GetIsFirst(m, k);
      var i :| 0 <= i < |m| && m[i] == (k, Get(m, k).value);
      assert LastValue(m, k).Some? by {
        assert m[i].0 == k;
      }
      var j :| 0 <= j < |m| && m[j] == (k, LastValue(m, k).value) && forall l :: j < l < |m| ==> m[l].0 != k;
      assert Keys(m)[i] == Keys(m)[j];
      assert i == j;
    } else {
      forall i | 0 <= i < |m| ensures m[i].0 != k {
        assert Keys(m)[i] == m[i].0;
      }
    }
  }
}
