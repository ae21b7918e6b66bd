/** JavaScript's `Map`: finite maps that remember the order in which their keys were inserted.
    Setting a key that is present keeps its place; deleting it and setting it again moves it to the
    end. `AsMap` forgets the order. */
module JsMap {
  import opened Wrappers

  type Entries<K, V> = seq<(K, V)>

  function AsMap<K, V>(m: Entries<K, V>): map<K, V> {
    if m == [] then map[] else AsMap(m[1..])[m[0].0 := m[0].1]
  }

  lemma NoEntries<K, V>()
    ensures AsMap<K, V>([]) == map[]
  {
  }

  // No key occurs twice.
  predicate Distinct<K(==), V>(m: Entries<K, V>) {
    m == [] || (!Has(m[1..], m[0].0) && Distinct(m[1..]))
  }

  predicate Has<K(==), V>(m: Entries<K, V>, k: K) {
    m != [] && (m[0].0 == k || Has(m[1..], k))
  }

  function Get<K(==), V>(m: Entries<K, V>, k: K): Option<V> {
    if m == [] then None
    else if m[0].0 == k then Some(m[0].1)
    else Get(m[1..], k)
  }

  function Set<K(==), V>(m: Entries<K, V>, k: K, v: V): Entries<K, V> {
    if m == [] then [(k, v)]
    else if m[0].0 == k then [(k, v)] + m[1..]
    else [m[0]] + Set(m[1..], k, v)
  }

  function Delete<K(==), V>(m: Entries<K, V>, k: K): Entries<K, V> {
    if m == [] then []
    else if m[0].0 == k then m[1..]
    else [m[0]] + Delete(m[1..], k)
  }

  function Values<K, V>(m: Entries<K, V>): (r: seq<V>)
    ensures |r| == |m|
    ensures forall i :: 0 <= i < |m| ==> r[i] == m[i].1
  {
    if m == [] then [] else [m[0].1] + Values(m[1..])
  }

  // `new Map(pairs)`
  function FromPairs<K(==), V>(pairs: seq<(K, V)>): Entries<K, V> {
    if pairs == [] then []
    else Set(FromPairs(pairs[..|pairs| - 1]), pairs[|pairs| - 1].0, pairs[|pairs| - 1].1)
  }

  lemma {:induction false} Lookup<K, V>(m: Entries<K, V>, k: K)
    ensures Has(m, k) <==> k in AsMap(m)
    ensures Get(m, k) == if k in AsMap(m) then Some(AsMap(m)[k]) else None
  {
    if m == [] {
    } else {
      Lookup(m[1..], k);
    }
  }

  lemma {:induction false} Setting<K, V>(m: Entries<K, V>, k: K, v: V)
    ensures AsMap(Set(m, k, v)) == AsMap(m)[k := v]
    ensures forall x :: Has(Set(m, k, v), x) <==> x == k || Has(m, x)
    ensures Distinct(m) ==> Distinct(Set(m, k, v))
  {
    if m != [] && m[0].0 != k {
      Setting(m[1..], k, v);
    }
  }

  lemma {:induction false} Deleting<K, V>(m: Entries<K, V>, k: K)
    requires Distinct(m)
    ensures AsMap(Delete(m, k)) == AsMap(m) - {k}
    ensures forall x :: Has(Delete(m, k), x) <==> x != k && Has(m, x)
    ensures Distinct(Delete(m, k))
  {
    if m == [] {
    } else {
      if m[0].0 != k {
        Deleting(m[1..], k);
      } else {
        Lookup(m[1..], k);
        assert AsMap(m) - {k} == AsMap(m[1..]);
      }
    }
  }

  lemma SetLookup<K, V>(m: Entries<K, V>, k: K, v: V)
    ensures forall x :: Get(Set(m, k, v), x) == if x == k then Some(v) else Get(m, x)
    ensures Has(m, k) <==> Get(m, k).Some?
  {
    hide AsMap, Get, Set, Has;
    Setting(m, k, v);
    Lookup(m, k);
    forall x
      ensures Get(Set(m, k, v), x) == if x == k then Some(v) else Get(m, x)
    {
      Lookup(m, x);
      Lookup(Set(m, k, v), x);
    }
  }

  lemma DeleteLookup<K, V>(m: Entries<K, V>, k: K)
    requires Distinct(m)
    ensures forall x :: Get(Delete(m, k), x) == if x == k then None else Get(m, x)
  {
    hide AsMap, Get, Delete, Distinct;
    Deleting(m, k);
    forall x
      ensures Get(Delete(m, k), x) == if x == k then None else Get(m, x)
    {
      Lookup(m, x);
      Lookup(Delete(m, k), x);
    }
  }

  lemma {:induction false} At<K, V>(m: Entries<K, V>, i: nat)
    requires Distinct(m) && i < |m|
    ensures Has(m, m[i].0) && m[i].0 in AsMap(m) && AsMap(m)[m[i].0] == m[i].1
  {
    if i == 0 {
    } else {
      At(m[1..], i - 1);
      assert m[1..][i - 1] == m[i];
    }
  }

  lemma {:induction false} Position<K, V>(m: Entries<K, V>, k: K) returns (i: nat)
    requires Has(m, k)
    ensures i < |m| && m[i].0 == k
  {
    if m[0].0 == k {
      i := 0;
    } else {
      i := Position(m[1..], k);
      i := i + 1;
    }
  }

  lemma {:induction false} DistinctKeys<K, V>(m: Entries<K, V>, i: nat, j: nat)
    requires Distinct(m) && i < j < |m|
    ensures m[i].0 != m[j].0
  {
    if i == 0 {
      At(m[1..], j - 1);
      assert m[1..][j - 1] == m[j];
    } else {
      DistinctKeys(m[1..], i - 1, j - 1);
    }
  }

  lemma {:induction false} SettingNew<K, V>(m: Entries<K, V>, k: K, v: V)
    requires !Has(m, k)
    ensures Set(m, k, v) == m + [(k, v)]
  {
    if m == [] {
    } else {
      SettingNew(m[1..], k, v);
      assert [m[0]] + (m[1..] + [(k, v)]) == m + [(k, v)];
    }
  }

  lemma {:induction false} DistinctPrefix<K, V>(m: Entries<K, V>, n: nat)
    requires Distinct(m) && n <= |m|
    ensures Distinct(m[..n])
    ensures forall k :: Has(m[..n], k) ==> Has(m, k)
    ensures n < |m| ==> !Has(m[..n], m[n].0)
  {
    if n == 0 {
    } else {
      assert m[..n][1..] == m[1..][..n - 1];
      DistinctPrefix(m[1..], n - 1);
      if n < |m| {
        assert m[1..][n - 1] == m[n];
        DistinctKeys(m, 0, n);
      }
    }
  }

  // Distinct pairs are already a map.
  lemma {:induction false} FromDistinctPairs<K, V>(m: Entries<K, V>)
    requires Distinct(m)
    ensures FromPairs(m) == m
    decreases |m|
  {
    if m == [] {
    } else {
      var n := |m| - 1;
      DistinctPrefix(m, n);
      FromDistinctPairs(m[..n]);
      SettingNew(m[..n], m[n].0, m[n].1);
      assert m[..n] + [m[n]] == m;
    }
  }
}
