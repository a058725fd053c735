/**
 * Python's `dict`: a finite map that remembers the order in which its keys
 * were first inserted. Iterating a dict (`items()`) follows that order;
 * assigning to a key already present keeps its place; `del` removes it.
 */
module Dicts {

  datatype Dict<K(==), V> = Dict(keys: seq<K>, vals: map<K, V>)

  predicate Distinct<T(==)>(s: seq<T>) {
    forall i, j | 0 <= i < j < |s| :: s[i] != s[j]
  }

  /** The key order lists every key of the map exactly once. */
  predicate Valid<K, V>(d: Dict<K, V>) {
    Distinct(d.keys) && (forall k | k in d.vals :: k in d.keys) && (forall k | k in d.keys :: k in d.vals)
  }

  function Empty<K(==), V>(): Dict<K, V> {
    Dict([], map[])
  }

  /** `d[k] = v`. */
  function Put<K(==), V>(d: Dict<K, V>, k: K, v: V): Dict<K, V> {
    if k in d.vals then Dict(d.keys, d.vals[k := v]) else Dict(d.keys + [k], d.vals[k := v])
  }

  function RemoveFrom<K(==)>(s: seq<K>, k: K): seq<K>
    decreases |s|
  {
    if |s| == 0 then [] else (if s[0] == k then [] else [s[0]]) + RemoveFrom(s[1..], k)
  }

  /** `del d[k]` (a no-op where the key is absent). */
  function Remove<K(==), V>(d: Dict<K, V>, k: K): Dict<K, V> {
    Dict(RemoveFrom(d.keys, k), d.vals - {k})
  }

  /** `{f(k): v for k, v in pairs}`: the pairs inserted one after another. */
  function PutAll<K(==), V>(d: Dict<K, V>, pairs: seq<(K, V)>): Dict<K, V>
    decreases |pairs|
  {
    if |pairs| == 0 then d else PutAll(Put(d, pairs[0].0, pairs[0].1), pairs[1..])
  }

  /** `list(d.items())`. */
  function Items<K(==), V>(d: Dict<K, V>): seq<(K, V)>
    requires Valid(d)
  {
    seq(|d.keys|, i requires 0 <= i < |d.keys| => (d.keys[i], d.vals[d.keys[i]]))
  }

  // ---------------------------------------------------------------- lemmas

  /** Assignment keeps the key order a duplicate-free list of the keys, and only `k` changes. */
  lemma PutValid<K, V>(d: Dict<K, V>, k: K, v: V)
    requires Valid(d)
    ensures Valid(Put(d, k, v))
    ensures Put(d, k, v).vals == d.vals[k := v]
    ensures k in d.vals ==> Put(d, k, v).keys == d.keys
    ensures k !in d.vals ==> Put(d, k, v).keys == d.keys + [k]
  {
    if k !in d.vals {
      var ks := d.keys + [k];
      forall i, j | 0 <= i < j < |ks|
        ensures ks[i] != ks[j]
      {
        if j == |d.keys| {
          assert ks[i] == d.keys[i];
        }
      }
    }
  }

  lemma {:induction false} RemoveFromSpec<K>(s: seq<K>, k: K)
    ensures forall x :: x in RemoveFrom(s, k) <==> x in s && x != k
    ensures Distinct(s) ==> Distinct(RemoveFrom(s, k))
    ensures k !in s ==> RemoveFrom(s, k) == s
    decreases |s|
  {
    if |s| > 0 {
      RemoveFromSpec(s[1..], k);
      var r := RemoveFrom(s, k);
      var tail := RemoveFrom(s[1..], k);
      if Distinct(s) {
        assert s[0] !in s[1..] by {
          forall i | 1 <= i < |s|
            ensures s[i] != s[0]
          {
          }
        }
        assert Distinct(s[1..]) by {
          forall i, j | 0 <= i < j < |s[1..]|
            ensures s[1..][i] != s[1..][j]
          {
            assert s[1..][i] == s[i + 1] && s[1..][j] == s[j + 1];
          }
        }
        if s[0] != k {
          forall i, j | 0 <= i < j < |r|
            ensures r[i] != r[j]
          {
            if i == 0 {
              assert r[j] == tail[j - 1];
              assert r[j] in tail;
            } else {
              assert r[i] == tail[i - 1] && r[j] == tail[j - 1];
            }
          }
        }
      }
      if k !in s {
        assert s == [s[0]] + s[1..];
      }
    }
  }

  /** Deleting a key keeps the dict valid and removes exactly that key, the others keeping their order. */
  lemma RemoveValid<K, V>(d: Dict<K, V>, k: K)
    requires Valid(d)
    ensures Valid(Remove(d, k))
    ensures Remove(d, k).vals == d.vals - {k}
    ensures k !in d.vals ==> Remove(d, k) == d
  {
    RemoveFromSpec(d.keys, k);
    var r := Remove(d, k);
    forall x | x in r.vals
      ensures x in r.keys
    {
      RemoveFromHas(d.keys, k, x);
    }
    forall x | x in r.keys
      ensures x in r.vals
    {
      RemoveFromHas(d.keys, k, x);
    }
    if k !in d.vals {
      assert k !in d.keys;
      assert r.vals == d.vals;
    }
  }

  lemma RemoveFromHas<K>(s: seq<K>, k: K, x: K)
    ensures x in RemoveFrom(s, k) <==> x in s && x != k
  {
    RemoveFromSpec(s, k);
  }

  lemma {:induction false} PutAllValid<K, V>(d: Dict<K, V>, pairs: seq<(K, V)>)
    requires Valid(d)
    ensures Valid(PutAll(d, pairs))
    decreases |pairs|
  {
    if |pairs| > 0 {
      PutValid(d, pairs[0].0, pairs[0].1);
      PutAllValid(Put(d, pairs[0].0, pairs[0].1), pairs[1..]);
    }
  }

  /** Appending one element keeps a list duplicate-free exactly when the element is new. */
  lemma DistinctSnoc<T>(a: seq<T>, x: T)
    ensures Distinct(a + [x]) <==> Distinct(a) && x !in a
  {
    var s := a + [x];
    if Distinct(s) {
      forall i, j | 0 <= i < j < |a|
        ensures a[i] != a[j]
      {
        assert a[i] == s[i] && a[j] == s[j];
      }
      forall i | 0 <= i < |a|
        ensures a[i] != x
      {
        assert s[i] == a[i] && s[|a|] == x;
      }
    }
    if Distinct(a) && x !in a {
      forall i, j | 0 <= i < j < |s|
        ensures s[i] != s[j]
      {
        if j == |a| {
          assert s[i] == a[i];
        }
      }
    }
  }

  /** A concatenation is duplicate-free exactly when both parts are and they share nothing. */
  lemma DistinctConcat<T>(a: seq<T>, b: seq<T>)
    ensures Distinct(a + b) <==> Distinct(a) && Distinct(b) && forall x | x in a :: x !in b
  {
    var s := a + b;
    if Distinct(s) {
      forall i, j | 0 <= i < j < |a|
        ensures a[i] != a[j]
      {
        assert a[i] == s[i] && a[j] == s[j];
      }
      forall i, j | 0 <= i < j < |b|
        ensures b[i] != b[j]
      {
        assert b[i] == s[|a| + i] && b[j] == s[|a| + j];
      }
      forall x | x in a
        ensures x !in b
      {
        var i :| 0 <= i < |a| && a[i] == x;
        forall j | 0 <= j < |b|
          ensures b[j] != x
        {
          assert s[i] == x && s[|a| + j] == b[j];
        }
      }
    }
    if Distinct(a) && Distinct(b) && forall x | x in a :: x !in b {
      forall i, j | 0 <= i < j < |s|
        ensures s[i] != s[j]
      {
        if j < |a| {
          assert s[i] == a[i] && s[j] == a[j];
        } else if i >= |a| {
          assert s[i] == b[i - |a|] && s[j] == b[j - |a|];
        } else {
          assert s[i] == a[i] && s[j] == b[j - |a|];
          assert s[i] in a;
        }
      }
    }
  }

  /** The keys of a list of pairs, in order. */
  function PairKeys<K(==), V>(pairs: seq<(K, V)>): (r: seq<K>)
    ensures |r| == |pairs| && forall i | 0 <= i < |pairs| :: r[i] == pairs[i].0
  {
    seq(|pairs|, i requires 0 <= i < |pairs| => pairs[i].0)
  }

  /** What `Put` of the first pair leaves for the rest: still new, still distinct keys. */
  lemma FreshTail<K, V>(d: Dict<K, V>, pairs: seq<(K, V)>)
    requires |pairs| > 0
    requires Distinct(PairKeys(pairs))
    requires forall i | 0 <= i < |pairs| :: pairs[i].0 !in d.vals
    ensures PairKeys(pairs) == [pairs[0].0] + PairKeys(pairs[1..])
    ensures Distinct(PairKeys(pairs[1..]))
    ensures pairs[0].0 !in PairKeys(pairs[1..])
    ensures forall i | 0 <= i < |pairs[1..]| :: pairs[1..][i].0 !in Put(d, pairs[0].0, pairs[0].1).vals
  {
    var rest := pairs[1..];
    var ks, rs := PairKeys(pairs), PairKeys(rest);
    assert ks == [pairs[0].0] + rs;
    forall i, j | 0 <= i < j < |rs|
      ensures rs[i] != rs[j]
    {
      assert rs[i] == ks[i + 1] && rs[j] == ks[j + 1];
    }
    forall i | 0 <= i < |rest|
      ensures rest[i].0 !in Put(d, pairs[0].0, pairs[0].1).vals && rest[i].0 != pairs[0].0
    {
      assert rest[i] == pairs[i + 1];
      assert ks[0] != ks[i + 1];
    }
  }

  /** Inserting pairs whose keys are new and distinct appends the keys in order. */
  lemma {:induction false} PutAllFreshKeys<K, V>(d: Dict<K, V>, pairs: seq<(K, V)>)
    requires Distinct(PairKeys(pairs))
    requires forall i | 0 <= i < |pairs| :: pairs[i].0 !in d.vals
    ensures PutAll(d, pairs).keys == d.keys + PairKeys(pairs)
    decreases |pairs|
  {
    if |pairs| == 0 {
      assert d.keys + PairKeys(pairs) == d.keys;
    } else {
      var k0, rest := pairs[0].0, pairs[1..];
      var d' := Put(d, k0, pairs[0].1);
      FreshTail(d, pairs);
      PutAllFreshKeys(d', rest);
      FreshKeysStep(d, pairs, PutAll(d', rest).keys);
    }
  }

  lemma FreshKeysStep<K, V>(d: Dict<K, V>, pairs: seq<(K, V)>, restKeys: seq<K>)
    requires |pairs| > 0 && pairs[0].0 !in d.vals
    requires PairKeys(pairs) == [pairs[0].0] + PairKeys(pairs[1..])
    requires restKeys == Put(d, pairs[0].0, pairs[0].1).keys + PairKeys(pairs[1..])
    requires PutAll(Put(d, pairs[0].0, pairs[0].1), pairs[1..]).keys == restKeys
    ensures PutAll(d, pairs).keys == d.keys + PairKeys(pairs)
  {
    var k0, rest := pairs[0].0, pairs[1..];
    assert PutAll(d, pairs) == PutAll(Put(d, k0, pairs[0].1), rest);
    assert Put(d, k0, pairs[0].1).keys == d.keys + [k0];
    SnocAssoc(d.keys, k0, PairKeys(rest));
  }

  lemma SnocAssoc<T>(a: seq<T>, x: T, b: seq<T>)
    ensures (a + [x]) + b == a + ([x] + b)
  {
  }

  /** The same insertion keeps every old value and stores every pair's value. */
  lemma {:induction false} PutAllFreshVals<K, V>(d: Dict<K, V>, pairs: seq<(K, V)>)
    requires Distinct(PairKeys(pairs))
    requires forall i | 0 <= i < |pairs| :: pairs[i].0 !in d.vals
    ensures forall k | k in d.vals :: k in PutAll(d, pairs).vals && PutAll(d, pairs).vals[k] == d.vals[k]
    ensures forall i | 0 <= i < |pairs| :: pairs[i].0 in PutAll(d, pairs).vals && PutAll(d, pairs).vals[pairs[i].0] == pairs[i].1
    decreases |pairs|
  {
    if |pairs| > 0 {
      var d' := Put(d, pairs[0].0, pairs[0].1);
      FreshTail(d, pairs);
      PutAllFreshVals(d', pairs[1..]);
      var r := PutAll(d, pairs);
      assert r == PutAll(d', pairs[1..]);
      forall i | 0 <= i < |pairs|
        ensures pairs[i].0 in r.vals && r.vals[pairs[i].0] == pairs[i].1
      {
        if i > 0 {
          assert pairs[i] == pairs[1..][i - 1];
        }
      }
    }
  }

  /** A dict built from pairs with distinct keys lists exactly those pairs as its items. */
  lemma ItemsOfPutAll<K, V>(pairs: seq<(K, V)>)
    requires Distinct(PairKeys(pairs))
    ensures Valid(PutAll(Empty(), pairs))
    ensures Items(PutAll(Empty(), pairs)) == pairs
  {
    var e: Dict<K, V> := Empty();
    PutAllValid(e, pairs);
    PutAllFreshKeys(e, pairs);
    PutAllFreshVals(e, pairs);
    var d := PutAll(e, pairs);
    assert d.keys == PairKeys(pairs);
    var it := Items(d);
    forall i | 0 <= i < |pairs|
      ensures it[i] == pairs[i]
    {
      assert d.keys[i] == pairs[i].0;
    }
  }

  /** The keys of a dict's items are its key order. */
  lemma ItemKeys<K, V>(d: Dict<K, V>)
    requires Valid(d)
    ensures PairKeys(Items(d)) == d.keys
  {
  }

  /** A valid dict is determined by its items. */
  lemma ItemsDetermine<K, V>(a: Dict<K, V>, b: Dict<K, V>)
    requires Valid(a) && Valid(b) && Items(a) == Items(b)
    ensures a == b
  {
    ItemKeys(a);
    ItemKeys(b);
    forall k | k in a.vals
      ensures k in b.vals && a.vals[k] == b.vals[k]
    {
      var i :| 0 <= i < |a.keys| && a.keys[i] == k;
      assert Items(a)[i] == Items(b)[i];
    }
    assert a.vals.Keys == b.vals.Keys;
    assert a.vals == b.vals;
  }

  /** Rebuilding a dict from its own items gives the same dict back. */
  lemma PutAllItems<K, V>(d: Dict<K, V>)
    requires Valid(d)
    ensures PairKeys(Items(d)) == d.keys
    ensures PutAll(Empty(), Items(d)) == d
  {
    var it := Items(d);
    ItemKeys(d);
    ItemsOfPutAll(it);
    ItemsDetermine(PutAll(Empty(), it), d);
  }
}
