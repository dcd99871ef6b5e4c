/**
  Python dictionaries as the tool uses them: insertion-ordered, with `d[k] = v` keeping an
  existing key's position and appending a new key at the end. An ordered map is an
  association list whose keys are kept distinct by every operation here.
 */
module OrderedMaps {
  import opened Wrappers

  type OMap<K, V> = seq<(K, V)>

  /** The keys in iteration order (`list(d.keys())`). */
  function Keys<K, V>(m: OMap<K, V>): (ks: seq<K>)
    ensures |ks| == |m|
    ensures forall i :: 0 <= i < |m| ==> ks[i] == m[i].0
  {
    if |m| == 0 then [] else Keys(m[..|m| - 1]) + [m[|m| - 1].0]
  }

  /** The values in iteration order (`list(d.values())`). */
  function Values<K, V>(m: OMap<K, V>): (vs: seq<V>)
    ensures |vs| == |m|
    ensures forall i :: 0 <= i < |m| ==> vs[i] == m[i].1
  {
    seq(|m|, i requires 0 <= i < |m| => m[i].1)
  }

  predicate UniqueKeys<K(==,!new), V>(m: OMap<K, V>) {
    forall i, j :: 0 <= i < j < |m| ==> m[i].0 != m[j].0
  }

  /** `d.get(k)`. */
  function Get<K(==,!new), V>(m: OMap<K, V>, k: K): (r: Option<V>)
    ensures r.Some? <==> k in Keys(m)
  {
    if |m| == 0 then None
    else if m[|m| - 1].0 == k then Some(m[|m| - 1].1)
    else Get(m[..|m| - 1], k)
  }

  /** `d[k] = v`. */
  function Put<K(==,!new), V>(m: OMap<K, V>, k: K, v: V): OMap<K, V>
  {
    if |m| == 0 then [(k, v)]
    else if m[|m| - 1].0 == k then m[..|m| - 1] + [(k, v)]
    else if k !in Keys(m) then m + [(k, v)]
    else Put(m[..|m| - 1], k, v) + [m[|m| - 1]]
  }

  /** The value of the LAST entry of `n` whose key is `k`: what a dictionary built from
      `n` with repeated keys ends up holding. */
  function LastGet<K(==,!new), V>(n: seq<(K, V)>, k: K): Option<V> {
    if |n| == 0 then None
    else if n[|n| - 1].0 == k then Some(n[|n| - 1].1)
    else LastGet(n[..|n| - 1], k)
  }

  /** `d.update(n)`, or the loop `for k, v in n: d[k] = v`. */
  function PutAll<K(==,!new), V>(m: OMap<K, V>, n: seq<(K, V)>): OMap<K, V>
  {
    if |n| == 0 then m else Put(PutAll(m, n[..|n| - 1]), n[|n| - 1].0, n[|n| - 1].1)
  }

  /** `dict(n)`, or a comprehension `{k: v for (k, v) in n}`. */
  function FromPairs<K(==,!new), V>(n: seq<(K, V)>): OMap<K, V>
  {
    PutAll([], n)
  }

  /** The entries of the elements of `xs` that `keep` accepts, in order (a comprehension
      `[entry(x) for x in xs if keep(x)]`). */
  function Collect<X, K, V>(xs: seq<X>, keep: X -> bool, entry: X -> (K, V)): seq<(K, V)> {
    if |xs| == 0 then []
    else Collect(xs[..|xs| - 1], keep, entry) + (if keep(xs[|xs| - 1]) then [entry(xs[|xs| - 1])] else [])
  }

  /** Starting from `{}`, `d.update(dict(n))` for each `n` of `ns` in turn. */
  function UpdateAll<K(==,!new), V>(ns: seq<seq<(K, V)>>): OMap<K, V> {
    if |ns| == 0 then [] else PutAll(UpdateAll(ns[..|ns| - 1]), FromPairs(ns[|ns| - 1]))
  }

  /** `ks` followed by each element of `ns` that is not already there, in order: the keys a
      dictionary with keys `ks` has after the keys `ns` are assigned one by one. */
  function AddNew<K(==)>(ks: seq<K>, ns: seq<K>): seq<K> {
    if |ns| == 0 then ks
    else
      var front := AddNew(ks, ns[..|ns| - 1]);
      if ns[|ns| - 1] in front then front else front + [ns[|ns| - 1]]
  }

  /** All the lists of `ns`, one after the other. */
  function Concat<T>(ns: seq<seq<T>>): seq<T> {
    if |ns| == 0 then [] else Concat(ns[..|ns| - 1]) + ns[|ns| - 1]
  }

  // ---------------------------------------------------------------------------
  // Lemmas

  /** `d[k] = v` maps `k` to `v` and leaves every other key's value alone. */
  lemma {:induction false} PutGet<K(!new), V>(m: OMap<K, V>, k: K, v: V, k': K)
    ensures Get(Put(m, k, v), k') == if k' == k then Some(v) else Get(m, k')
  {
    var r := Put(m, k, v);
    if |m| == 0 {
    } else if m[|m| - 1].0 == k {
      var front := m[..|m| - 1];
      assert r == front + [(k, v)];
      assert r[..|r| - 1] == front;
    } else if k !in Keys(m) {
      assert r[..|r| - 1] == m;
    } else {
      var front := m[..|m| - 1];
      PutGet(front, k, v, k');
      assert r == Put(front, k, v) + [m[|m| - 1]];
      assert r[..|r| - 1] == Put(front, k, v);
    }
  }

  /** `d[k] = v` appends `k` to the keys only when it is new. */
  lemma {:induction false} PutKeys<K(!new), V>(m: OMap<K, V>, k: K, v: V)
    ensures Keys(Put(m, k, v)) == if k in Keys(m) then Keys(m) else Keys(m) + [k]
  {
    var r := Put(m, k, v);
    if |m| > 0 && m[|m| - 1].0 != k && k in Keys(m) {
      var front := m[..|m| - 1];
      PutKeys(front, k, v);
      assert r == Put(front, k, v) + [m[|m| - 1]];
      assert r[..|r| - 1] == Put(front, k, v);
      assert Keys(m) == Keys(front) + [m[|m| - 1].0];
    } else if |m| > 0 && m[|m| - 1].0 == k {
      assert r[..|r| - 1] == m[..|m| - 1];
    } else if |m| > 0 {
      assert r[..|r| - 1] == m;
    }
  }

  /** `d[k] = v` keeps the keys distinct. */
  lemma PutUnique<K(!new), V>(m: OMap<K, V>, k: K, v: V)
    requires UniqueKeys(m)
    ensures UniqueKeys(Put(m, k, v))
  {
    var r := Put(m, k, v);
    PutKeys(m, k, v);
    assert forall i :: 0 <= i < |r| ==> r[i].0 == Keys(r)[i];
    assert forall i :: 0 <= i < |m| ==> m[i].0 == Keys(m)[i];
  }

  /** Updating with `n`: keys of `n` take the value of their last entry in `n`,
      every other key keeps its value, and no key is lost or repeated. */
  lemma {:induction false} PutAllGet<K(!new), V>(m: OMap<K, V>, n: seq<(K, V)>, k: K)
    ensures Get(PutAll(m, n), k) == if k in Keys(n) then LastGet(n, k) else Get(m, k)
  {
    if |n| > 0 {
      var front := n[..|n| - 1];
      PutAllGet(m, front, k);
      PutGet(PutAll(m, front), n[|n| - 1].0, n[|n| - 1].1, k);
      if n[|n| - 1].0 != k {
        assert k in Keys(n) <==> k in Keys(front);
      }
    }
  }

  /** A key has a last entry exactly when it is one of the keys. */
  lemma {:induction false} LastGetSome<K(!new), V>(n: seq<(K, V)>, k: K)
    ensures LastGet(n, k).Some? <==> k in Keys(n)
  {
    if |n| > 0 {
      LastGetSome(n[..|n| - 1], k);
    }
  }

  /** The entry at `j` is the last one with key `k`, so it is the one `LastGet` finds. */
  lemma {:induction false} LastGetAt<K(!new), V>(n: seq<(K, V)>, k: K, j: int)
    requires 0 <= j < |n| && n[j].0 == k
    requires forall i :: j < i < |n| ==> n[i].0 != k
    ensures LastGet(n, k) == Some(n[j].1)
  {
    if j < |n| - 1 {
      LastGetAt(n[..|n| - 1], k, j);
    }
  }

  /** Looking a key up in `dict(n)` gives the value of its last entry in `n`. */
  lemma FromPairsGet<K(!new), V>(n: seq<(K, V)>, k: K)
    ensures Get(FromPairs(n), k) == LastGet(n, k)
  {
    PutAllGet([], n, k);
    LastGetSome(n, k);
  }

  /** In `dict(n)` a key is present exactly when some entry has it, and the key of the
      last entry maps to that entry's value. */
  lemma FromPairsLookup<K(!new), V>(n: seq<(K, V)>, k: K)
    ensures Get(FromPairs(n), k).Some? <==> exists j :: 0 <= j < |n| && n[j].0 == k
    ensures |n| > 0 && n[|n| - 1].0 == k ==> Get(FromPairs(n), k) == Some(n[|n| - 1].1)
  {
    FromPairsGet(n, k);
    LastGetSome(n, k);
    if exists j :: 0 <= j < |n| && n[j].0 == k {
      var j :| 0 <= j < |n| && n[j].0 == k;
      assert Keys(n)[j] == k;
    }
  }

  /** Updating never reorders: the old keys stay in front, in order, and the new ones
      follow (their order is stated by PutAllOrder). */
  lemma {:induction false} PutAllKeys<K(!new), V>(m: OMap<K, V>, n: seq<(K, V)>)
    ensures UniqueKeys(m) ==> UniqueKeys(PutAll(m, n))
    ensures Keys(m) <= Keys(PutAll(m, n))
    ensures forall k :: k in Keys(PutAll(m, n)) <==> k in Keys(m) || k in Keys(n)
  {
    if |n| > 0 {
      PutAllKeys(m, n[..|n| - 1]);
      var front := PutAll(m, n[..|n| - 1]);
      PutKeys(front, n[|n| - 1].0, n[|n| - 1].1);
      if UniqueKeys(m) {
        PutUnique(front, n[|n| - 1].0, n[|n| - 1].1);
      }
    }
  }

  /** Updating appends the new keys in order of first appearance. */
  lemma {:induction false} PutAllOrder<K(!new), V>(m: OMap<K, V>, n: seq<(K, V)>)
    ensures Keys(PutAll(m, n)) == AddNew(Keys(m), Keys(n))
  {
    if |n| > 0 {
      var front := n[..|n| - 1];
      PutAllOrder(m, front);
      PutKeys(PutAll(m, front), n[|n| - 1].0, n[|n| - 1].1);
      assert Keys(n)[..|n| - 1] == Keys(front);
    }
  }

  /** An element is in `AddNew(ks, ns)` exactly when it is in `ks` or in `ns`. */
  lemma {:induction false} AddNewHas<K>(ks: seq<K>, ns: seq<K>, x: K)
    ensures x in AddNew(ks, ns) <==> x in ks || x in ns
  {
    if |ns| > 0 {
      var front := ns[..|ns| - 1];
      AddNewHas(ks, front, x);
      assert ns == front + [ns[|ns| - 1]];
    }
  }

  /** Adding the elements of `a + b` is adding those of `a`, then those of `b`. */
  lemma {:induction false} AddNewAppend<K>(ks: seq<K>, a: seq<K>, b: seq<K>)
    ensures AddNew(ks, a + b) == AddNew(AddNew(ks, a), b)
  {
    if |b| > 0 {
      AddNewAppend(ks, a, b[..|b| - 1]);
      assert (a + b)[..|a + b| - 1] == a + b[..|b| - 1];
    } else {
      assert a + b == a;
    }
  }

  /** Removing repeats first changes nothing about what is added. */
  lemma {:induction false} AddNewDedup<K>(ks: seq<K>, xs: seq<K>)
    ensures AddNew(ks, AddNew([], xs)) == AddNew(ks, xs)
  {
    if |xs| > 0 {
      var front := xs[..|xs| - 1];
      var x := xs[|xs| - 1];
      var d := AddNew([], front);
      AddNewDedup(ks, front);
      AddNewHas([], front, x);
      AddNewHas(ks, front, x);
      if x !in d {
        AddNewAppend(ks, d, [x]);
        assert (d + [x])[..|d + [x]| - 1] == d;
      }
    }
  }

  /** Every element of `r` occurs in `xs` before the first occurrence of every later
      element of `r`. */
  predicate FirstOrdered<K(==)>(r: seq<K>, xs: seq<K>) {
    forall i, j :: 0 <= i < j < |r| ==> exists p :: 0 <= p < |xs| && xs[p] == r[i] && r[j] !in xs[..p]
  }

  /** The first occurrences of `xs`: distinct, the elements of `xs`, and ordered by their
      first occurrence in `xs`. */
  lemma {:induction false} AddNewFirst<K>(xs: seq<K>)
    ensures forall i, j :: 0 <= i < j < |AddNew([], xs)| ==> AddNew([], xs)[i] != AddNew([], xs)[j]
    ensures forall x :: x in AddNew([], xs) <==> x in xs
    ensures FirstOrdered(AddNew([], xs), xs)
  {
    forall x ensures x in AddNew([], xs) <==> x in xs {
      AddNewHas([], xs, x);
    }
    if |xs| > 0 {
      var front := xs[..|xs| - 1];
      var x := xs[|xs| - 1];
      var d := AddNew([], front);
      AddNewFirst(front);
      assert FirstOrdered(d, front);
      forall i, j | 0 <= i < j < |d|
        ensures exists p :: 0 <= p < |xs| && xs[p] == d[i] && d[j] !in xs[..p]
      {
        var p :| 0 <= p < |front| && front[p] == d[i] && d[j] !in front[..p];
        assert xs[..p] == front[..p];
      }
      if x !in d {
        var r := d + [x];
        forall i | 0 <= i < |d|
          ensures exists p :: 0 <= p < |xs| && xs[p] == r[i] && r[|d|] !in xs[..p]
        {
          assert d[i] in front;
          var p :| 0 <= p < |front| && front[p] == d[i];
          assert xs[..p] == front[..p];
          assert x !in front;
        }
      }
    }
  }

  /** A map holding two different keys has at least two entries. */
  lemma TwoKeys<K(!new), V>(m: OMap<K, V>, a: K, b: K)
    requires a in Keys(m) && b in Keys(m) && a != b
    ensures |m| >= 2
  {
  }

  /** A dictionary built from pairs has exactly one entry per distinct key. */
  lemma FromPairsKeys<K(!new), V>(n: seq<(K, V)>)
    ensures UniqueKeys(FromPairs(n))
    ensures forall k :: k in Keys(FromPairs(n)) <==> k in Keys(n)
    ensures |FromPairs(n)| == |set k | k in Keys(n)|
  {
    var m := FromPairs(n);
    PutAllKeys([], n);
    assert Keys<K, V>([]) == [];
    assert forall k :: k in Keys(m) <==> k in Keys(n);
    UniqueCard(m);
    assert (set k | k in Keys(m)) == (set k | k in Keys(n));
  }

  /** With distinct keys, the number of entries is the number of distinct keys. */
  lemma {:induction false} UniqueCard<K(!new), V>(m: OMap<K, V>)
    requires UniqueKeys(m)
    ensures |m| == |set k | k in Keys(m)|
  {
    if |m| > 0 {
      var front := m[..|m| - 1];
      UniqueCard(front);
      assert (set k | k in Keys(m)) == (set k | k in Keys(front)) + {m[|m| - 1].0};
      assert m[|m| - 1].0 !in Keys(front);
    }
  }

  /** The last collected entry for `k` is that of the last accepted element whose entry
      has key `k`; there is none exactly when no accepted element has one. */
  lemma {:induction false} CollectLast<X, K(!new), V>(xs: seq<X>, keep: X -> bool, entry: X -> (K, V), k: K)
    returns (j: int)
    ensures LastGet(Collect(xs, keep, entry), k).None? ==>
              forall i :: 0 <= i < |xs| && keep(xs[i]) ==> entry(xs[i]).0 != k
    ensures LastGet(Collect(xs, keep, entry), k).Some? ==>
              && 0 <= j < |xs| && keep(xs[j]) && entry(xs[j]).0 == k
              && LastGet(Collect(xs, keep, entry), k).value == entry(xs[j]).1
              && forall i :: j < i < |xs| && keep(xs[i]) ==> entry(xs[i]).0 != k
  {
    j := 0;
    if |xs| > 0 {
      var front := xs[..|xs| - 1];
      var x := xs[|xs| - 1];
      var cf := Collect(front, keep, entry);
      j := CollectLast(front, keep, entry, k);
      if keep(x) {
        assert Collect(xs, keep, entry) == cf + [entry(x)];
        assert (cf + [entry(x)])[..|cf|] == cf;
        assert (cf + [entry(x)])[|cf|] == entry(x);
        if entry(x).0 == k {
          j := |xs| - 1;
        }
      } else {
        assert Collect(xs, keep, entry) == cf;
      }
      assert forall i :: 0 <= i < |front| ==> xs[i] == front[i];
    }
  }

  /** Every collected entry comes from an accepted element, and every accepted element
      contributes its entry. */
  lemma {:induction false} CollectMembers<X, K, V>(xs: seq<X>, keep: X -> bool, entry: X -> (K, V))
    ensures forall e :: e in Collect(xs, keep, entry) ==> exists x :: x in xs && keep(x) && e == entry(x)
    ensures forall x :: x in xs && keep(x) ==> entry(x) in Collect(xs, keep, entry)
  {
    if |xs| > 0 {
      var front := xs[..|xs| - 1];
      var x := xs[|xs| - 1];
      CollectMembers(front, keep, entry);
      assert xs == front + [x];
    }
  }

  /** `LastGet` and `Get` read an association list the same way. */
  lemma {:induction false} LastGetIsGet<K(!new), V>(n: seq<(K, V)>, k: K)
    ensures LastGet(n, k) == Get(n, k)
  {
    if |n| > 0 {
      LastGetIsGet(n[..|n| - 1], k);
    }
  }

  /** The last entry for `k` in `a + b` is in `b` when `b` has one. */
  lemma {:induction false} LastGetAppend<K(!new), V>(a: seq<(K, V)>, b: seq<(K, V)>, k: K)
    ensures LastGet(a + b, k) == if k in Keys(b) then LastGet(b, k) else LastGet(a, k)
  {
    if |b| > 0 {
      var front := b[..|b| - 1];
      LastGetAppend(a, front, k);
      assert (a + b)[..|a + b| - 1] == a + front;
      assert (a + b)[|a + b| - 1] == b[|b| - 1];
      assert Keys(b) == Keys(front) + [b[|b| - 1].0];
    } else {
      assert a + b == a;
    }
  }

  /** The keys of a fold of updates are distinct, and those of the first lists stay in
      front: a key keeps the place of its first appearance. */
  lemma {:induction false} UpdateAllUnique<K(!new), V>(ns: seq<seq<(K, V)>>)
    ensures UniqueKeys(UpdateAll(ns))
    ensures |ns| > 0 ==> Keys(UpdateAll(ns[..|ns| - 1])) <= Keys(UpdateAll(ns))
  {
    if |ns| > 0 {
      var front := ns[..|ns| - 1];
      UpdateAllUnique(front);
      FromPairsKeys(ns[|ns| - 1]);
      PutAllKeys(UpdateAll(front), FromPairs(ns[|ns| - 1]));
    }
  }

  /** A key of a fold of updates is a key of one of the lists, and the other way round. */
  lemma {:induction false} UpdateAllKeys<K(!new), V>(ns: seq<seq<(K, V)>>, k: K) returns (i: int)
    ensures k in Keys(UpdateAll(ns)) ==> 0 <= i < |ns| && k in Keys(ns[i])
    ensures k !in Keys(UpdateAll(ns)) ==> forall j :: 0 <= j < |ns| ==> k !in Keys(ns[j])
  {
    i := -1;
    if |ns| > 0 {
      var front := ns[..|ns| - 1];
      var last := ns[|ns| - 1];
      var i' := UpdateAllKeys(front, k);
      assert UpdateAll(ns) == PutAll(UpdateAll(front), FromPairs(last));
      FromPairsKeys(last);
      PutAllKeys(UpdateAll(front), FromPairs(last));
      assert k in Keys(UpdateAll(ns)) <==> k in Keys(UpdateAll(front)) || k in Keys(last);
      if k in Keys(last) {
        i := |ns| - 1;
      } else if k in Keys(UpdateAll(front)) {
        i := i';
        assert ns[i] == front[i];
      } else {
        forall j | 0 <= j < |ns| ensures k !in Keys(ns[j]) {
          if j < |front| {
            assert ns[j] == front[j];
          }
        }
      }
    }
  }

  /** The keys of a fold of updates are the first occurrences of the keys of all the lists,
      in order: a key keeps the place of its first appearance. */
  lemma {:induction false} UpdateAllOrder<K(!new), V>(ns: seq<seq<(K, V)>>)
    ensures Keys(UpdateAll(ns)) == AddNew([], Keys(Concat(ns)))
  {
    if |ns| > 0 {
      var front := ns[..|ns| - 1];
      var last := ns[|ns| - 1];
      UpdateAllOrder(front);
      PutAllOrder(UpdateAll(front), FromPairs(last));
      PutAllOrder([], last);
      assert Keys<K, V>([]) == [];
      AddNewDedup(Keys(UpdateAll(front)), Keys(last));
      AddNewAppend([], Keys(Concat(front)), Keys(last));
      KeysAppend(Concat(front), last);
    }
  }

  lemma {:induction false} KeysAppend<K, V>(a: seq<(K, V)>, b: seq<(K, V)>)
    ensures Keys(a + b) == Keys(a) + Keys(b)
  {
    if |b| > 0 {
      KeysAppend(a, b[..|b| - 1]);
      assert (a + b)[..|a + b| - 1] == a + b[..|b| - 1];
    } else {
      assert a + b == a;
    }
  }

  /** In a map with distinct keys, looking up the key of an entry gives that entry's value. */
  lemma {:induction false} GetEntry<K(!new), V>(m: OMap<K, V>, i: int)
    requires UniqueKeys(m) && 0 <= i < |m|
    ensures Get(m, m[i].0) == Some(m[i].1)
  {
    if i < |m| - 1 {
      GetEntry(m[..|m| - 1], i);
    }
  }

  /** A fold of updates gives each key the value of its last entry over all the lists. */
  lemma {:induction false} UpdateAllGet<K(!new), V>(ns: seq<seq<(K, V)>>, k: K)
    ensures Get(UpdateAll(ns), k) == LastGet(Concat(ns), k)
  {
    if |ns| > 0 {
      var front := ns[..|ns| - 1];
      var last := ns[|ns| - 1];
      UpdateAllGet(front, k);
      FromPairsKeys(last);
      PutAllGet(UpdateAll(front), FromPairs(last), k);
      LastGetIsGet(FromPairs(last), k);
      FromPairsGet(last, k);
      LastGetAppend(Concat(front), last, k);
    }
  }
}
