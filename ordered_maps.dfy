/** Insertion-ordered maps, the collection behind JavaScript's `Map` and
    Python's `dict`: iteration visits keys in the order they were first set,
    and setting a key that is already present replaces its value without
    moving it. */
module OrderedMaps {
  import opened Text

  /** The value of such a map: its keys in insertion order, and what each
      key holds. */
  datatype OrderedMap<K(==), V> = OrderedMap(keys: seq<K>, values: map<K, V>)
  {
    /** Keys are listed once each, and exactly the keys of `values` are listed. */
    ghost predicate Valid() {
      && (forall i, j | 0 <= i < j < |keys| :: keys[i] != keys[j])
      && (forall k | k in values :: k in keys)
      && (forall i | 0 <= i < |keys| :: keys[i] in values)
    }

    /** `map.has(k)`, `k in d` */
    predicate Has(k: K) {
      k in values
    }

    /** `map.set(k, v)`, `d[k] = v` */
    function Set(k: K, v: V): (r: OrderedMap<K, V>)
      requires Valid()
      ensures r.Valid()
    {
      if k in values then OrderedMap(keys, values[k := v])
      else OrderedMap(keys + [k], values[k := v])
    }

    /** The position of `k` in iteration order. */
    function IndexOf(k: K): (i: nat)
      requires Valid() && Has(k)
      ensures i < |keys| && keys[i] == k
    {
      Find(keys, k)
    }

    /** The values in iteration order. */
    function Values(): (vs: seq<V>)
      requires Valid()
      ensures |vs| == |keys|
      ensures forall i | 0 <= i < |keys| :: vs[i] == values[keys[i]]
    {
      seq(|keys|, i requires 0 <= i < |keys| => values[keys[i]])
    }

    /** The values of `k` and of every key inserted after it. */
    function ValuesFrom(k: K): seq<V>
      requires Valid() && Has(k)
    {
      Values()[IndexOf(k)..]
    }
  }

  function Empty<K(==), V>(): (m: OrderedMap<K, V>)
    ensures m.Valid() && m.keys == []
  {
    OrderedMap([], map[])
  }

  /** The first position of `k` in `s`. */
  function Find<K(==)>(s: seq<K>, k: K): (i: nat)
    requires k in s
    ensures i < |s| && s[i] == k
    ensures forall j | 0 <= j < i :: s[j] != k
  {
    if s[0] == k then 0 else 1 + Find(s[1..], k)
  }

  /** Setting a key changes that key's value only; an existing key keeps its
      position in iteration order and a new key goes last. */
  lemma SetKeepsPosition<K, V>(m: OrderedMap<K, V>, k: K, v: V)
    requires m.Valid()
    ensures m.Set(k, v).Has(k) && m.Set(k, v).values[k] == v
    ensures forall j | j != k :: m.Set(k, v).Has(j) == m.Has(j)
    ensures forall j | j != k && m.Has(j) :: m.Set(k, v).values[j] == m.values[j]
    ensures forall j | m.Has(j) :: m.Set(k, v).IndexOf(j) == m.IndexOf(j)
    ensures !m.Has(k) ==> m.Set(k, v).IndexOf(k) == |m.keys|
  {
    var r := m.Set(k, v);
    forall j | m.Has(j)
      ensures r.IndexOf(j) == m.IndexOf(j)
    {
      var i := m.IndexOf(j);
      assert r.keys[i] == j;
    }
    if !m.Has(k) {
      assert r.keys[|m.keys|] == k;
    }
  }

  // ---------------------------------------------------------------------
  // Filling a map from a sequence

  /** Sets `v` under the key `o` holds, when it holds one. */
  function SetSome<K(==), V>(m: OrderedMap<K, V>, o: Option<K>, v: V): (r: OrderedMap<K, V>)
    requires m.Valid()
    ensures r.Valid()
  {
    match o
    case Some(k) => m.Set(k, v)
    case None => m
  }

  /** After the step, `k` is a key when it was one or was set, and holds
      `v` exactly when it was set. */
  lemma SetSomeEntry<K, V>(m: OrderedMap<K, V>, o: Option<K>, v: V, k: K)
    requires m.Valid()
    ensures SetSome(m, o, v).Has(k) <==> m.Has(k) || o == Some(k)
    ensures o == Some(k) ==> SetSome(m, o, v).values[k] == v
    ensures o != Some(k) && m.Has(k) ==> SetSome(m, o, v).values[k] == m.values[k]
  {
  }

  /** The step never moves a key already present. */
  lemma SetSomeIndex<K, V>(m: OrderedMap<K, V>, o: Option<K>, v: V, j: K)
    requires m.Valid() && m.Has(j)
    ensures SetSome(m, o, v).Has(j) && SetSome(m, o, v).IndexOf(j) == m.IndexOf(j)
  {
    if o.Some? {
      var r := m.Set(o.value, v);
      assert r.keys[m.IndexOf(j)] == j;
    }
  }

  /** A new key goes last. */
  lemma SetSomeNew<K, V>(m: OrderedMap<K, V>, o: Option<K>, v: V, k: K)
    requires m.Valid() && o == Some(k) && !m.Has(k)
    ensures SetSome(m, o, v).Has(k) && SetSome(m, o, v).IndexOf(k) == |m.keys|
  {
    assert m.Set(k, v).keys[|m.keys|] == k;
  }

  /** A new map into which every value of `vs`, in order, is set under the
      key `key` gives it; a value `key` gives no key for is passed over. */
  function SetEach<K(==), V>(key: V -> Option<K>, vs: seq<V>): (r: OrderedMap<K, V>)
    ensures r.Valid()
  {
    if vs == [] then Empty()
    else SetSome(SetEach(key, vs[..|vs| - 1]), key(vs[|vs| - 1]), vs[|vs| - 1])
  }

  /** The step gives equal maps from equal maps. */
  lemma SetSomeSame<K, V>(a: OrderedMap<K, V>, b: OrderedMap<K, V>, o: Option<K>, v: V)
    requires a.Valid() && a == b
    ensures SetSome(a, o, v) == SetSome(b, o, v)
  {
  }

  /** Filling from a non-empty sequence is filling from all but its last
      value, then one more step. */
  lemma SetEachStep<K, V>(key: V -> Option<K>, vs: seq<V>)
    requires vs != []
    ensures SetEach(key, vs) == SetSome(SetEach(key, vs[..|vs| - 1]), key(vs[|vs| - 1]), vs[|vs| - 1])
  {
  }

  /** Maps built one step at a time, from an empty one, the way `SetEach`
      fills its result, end at `SetEach`'s result. */
  lemma {:induction false} SetEachFromSteps<K, V>(key: V -> Option<K>, vs: seq<V>, fills: seq<OrderedMap<K, V>>)
    requires |fills| == |vs| + 1 && fills[0] == Empty()
    requires forall n | 0 <= n < |vs| :: fills[n].Valid() && fills[n + 1] == SetSome(fills[n], key(vs[n]), vs[n])
    ensures fills[|vs|] == SetEach(key, vs)
  {
    if vs != [] {
      var n := |vs| - 1;
      SetEachFromSteps(key, vs[..n], fills[..n + 1]);
      SetEachStep(key, vs);
    }
  }

  /** Every key some value is given is a key of the filled map. */
  lemma {:induction false} SetEachHas<K, V>(key: V -> Option<K>, vs: seq<V>, k: K, i: nat)
    requires i < |vs| && key(vs[i]) == Some(k)
    ensures SetEach(key, vs).Has(k)
  {
    var n := |vs| - 1;
    var p := vs[..n];
    if i < n {
      assert p[i] == vs[i];
      SetEachHas(key, p, k, i);
    }
    SetSomeEntry(SetEach(key, p), key(vs[n]), vs[n], k);
  }

  /** Every key of the filled map is given by some value. */
  lemma {:induction false} SetEachGiven<K, V>(key: V -> Option<K>, vs: seq<V>, k: K)
    requires SetEach(key, vs).Has(k)
    ensures exists i | 0 <= i < |vs| :: key(vs[i]) == Some(k)
  {
    var n := |vs| - 1;
    var p := vs[..n];
    SetSomeEntry(SetEach(key, p), key(vs[n]), vs[n], k);
    if key(vs[n]) != Some(k) {
      SetEachGiven(key, p, k);
      var i :| 0 <= i < n && key(p[i]) == Some(k);
      assert p[i] == vs[i];
    }
  }

  /** Each key holds one of the values, and a value given that key. */
  lemma {:induction false} SetEachValueKeyed<K, V>(key: V -> Option<K>, vs: seq<V>, k: K)
    requires SetEach(key, vs).Has(k)
    ensures SetEach(key, vs).values[k] in vs && key(SetEach(key, vs).values[k]) == Some(k)
  {
    var n := |vs| - 1;
    var p := vs[..n];
    SetSomeEntry(SetEach(key, p), key(vs[n]), vs[n], k);
    if key(vs[n]) != Some(k) {
      SetEachValueKeyed(key, p, k);
    }
  }

  /** `k` is a key of the filled map exactly when some value is given it. */
  lemma SetEachKeys<K, V>(key: V -> Option<K>, vs: seq<V>, k: K)
    ensures SetEach(key, vs).Has(k) <==> exists i | 0 <= i < |vs| :: key(vs[i]) == Some(k)
  {
    if SetEach(key, vs).Has(k) {
      SetEachGiven(key, vs, k);
    }
    if exists i | 0 <= i < |vs| :: key(vs[i]) == Some(k) {
      var i :| 0 <= i < |vs| && key(vs[i]) == Some(k);
      SetEachHas(key, vs, k, i);
    }
  }

  /** A key holds the last value given it: a later value replaces an
      earlier one. */
  lemma {:induction false} SetEachLatest<K, V>(key: V -> Option<K>, vs: seq<V>, k: K, i: nat)
    requires i < |vs| && key(vs[i]) == Some(k)
    requires forall j | i < j < |vs| :: key(vs[j]) != Some(k)
    ensures SetEach(key, vs).Has(k) && SetEach(key, vs).values[k] == vs[i]
    decreases |vs|, 1
  {
    var n := |vs| - 1;
    if i < n {
      SetEachLatestEarlier(key, vs, k, i);
    } else {
      SetSomeEntry(SetEach(key, vs[..n]), key(vs[n]), vs[n], k);
    }
  }

  /** The value given a key before the last value survives a last value
      with another key. */
  lemma {:induction false} SetEachLatestEarlier<K, V>(key: V -> Option<K>, vs: seq<V>, k: K, i: nat)
    requires i < |vs| - 1 && key(vs[i]) == Some(k)
    requires forall j | i < j < |vs| :: key(vs[j]) != Some(k)
    ensures SetEach(key, vs).Has(k) && SetEach(key, vs).values[k] == vs[i]
    decreases |vs|, 0
  {
    var n := |vs| - 1;
    var p := vs[..n];
    forall j | i < j < n
      ensures key(p[j]) != Some(k)
    {
      assert p[j] == vs[j];
    }
    assert p[i] == vs[i];
    SetEachLatest(key, p, k, i);
    SetSomeEntry(SetEach(key, p), key(vs[n]), vs[n], k);
  }

  /** A key no value is given is not a key of the filled map. */
  lemma SetEachFresh<K, V>(key: V -> Option<K>, vs: seq<V>, k: K)
    requires forall j | 0 <= j < |vs| :: key(vs[j]) != Some(k)
    ensures !SetEach(key, vs).Has(k)
  {
    if SetEach(key, vs).Has(k) {
      SetEachGiven(key, vs, k);
    }
  }

  /** A key first given by the last value goes after every key given
      before it. */
  lemma SetEachAppends<K, V>(key: V -> Option<K>, vs: seq<V>, kn: K, ko: K, io: nat)
    requires io < |vs| - 1 && key(vs[io]) == Some(ko)
    requires key(vs[|vs| - 1]) == Some(kn) && forall j | 0 <= j < |vs| - 1 :: key(vs[j]) != Some(kn)
    ensures SetEach(key, vs).Has(kn) && SetEach(key, vs).Has(ko)
    ensures SetEach(key, vs).IndexOf(ko) < SetEach(key, vs).IndexOf(kn)
  {
    var n := |vs| - 1;
    var p := vs[..n];
    var m := SetEach(key, p);
    forall j | 0 <= j < n ensures key(p[j]) != Some(kn) {
      assert p[j] == vs[j];
    }
    SetEachFresh(key, p, kn);
    assert p[io] == vs[io];
    SetEachHas(key, p, ko, io);
    SetSomeNew(m, key(vs[n]), vs[n], kn);
    SetSomeIndex(m, key(vs[n]), vs[n], ko);
  }

  /** A key already set keeps its position when one more value is set. */
  lemma SetEachKeeps<K, V>(key: V -> Option<K>, vs: seq<V>, k: K)
    requires vs != [] && SetEach(key, vs[..|vs| - 1]).Has(k)
    ensures SetEach(key, vs).Has(k)
    ensures SetEach(key, vs).IndexOf(k) == SetEach(key, vs[..|vs| - 1]).IndexOf(k)
  {
    var n := |vs| - 1;
    SetSomeIndex(SetEach(key, vs[..n]), key(vs[n]), vs[n], k);
  }

  /** What holds of the values before position `i` holds of the same
      values in a prefix of `vs`. */
  lemma FirstInPrefix<K, V>(key: V -> Option<K>, vs: seq<V>, n: nat, k: K, i: nat)
    requires i < n <= |vs| && key(vs[i]) == Some(k) && forall j | 0 <= j < i :: key(vs[j]) != Some(k)
    ensures key(vs[..n][i]) == Some(k) && forall j | 0 <= j < i :: key(vs[..n][j]) != Some(k)
  {
  }

  /** Keys are in the order of the first value given each: a key set again
      keeps its place. */
  lemma {:induction false} SetEachOrder<K, V>(key: V -> Option<K>, vs: seq<V>, k1: K, i1: nat, k2: K, i2: nat)
    requires i1 < |vs| && key(vs[i1]) == Some(k1) && forall j | 0 <= j < i1 :: key(vs[j]) != Some(k1)
    requires i2 < |vs| && key(vs[i2]) == Some(k2) && forall j | 0 <= j < i2 :: key(vs[j]) != Some(k2)
    ensures SetEach(key, vs).Has(k1) && SetEach(key, vs).Has(k2)
    ensures SetEach(key, vs).IndexOf(k1) < SetEach(key, vs).IndexOf(k2) <==> i1 < i2
    decreases |vs|, 1
  {
    var n := |vs| - 1;
    SetEachHas(key, vs, k1, i1);
    SetEachHas(key, vs, k2, i2);
    if i1 < n && i2 < n {
      SetEachOrderEarlier(key, vs, k1, i1, k2, i2);
    } else if i1 == n && i2 < n {
      SetEachAppends(key, vs, k1, k2, i2);
    } else if i2 == n && i1 < n {
      SetEachAppends(key, vs, k2, k1, i1);
    }
  }

  /** Two keys first given before the last value keep their order. */
  lemma {:induction false} SetEachOrderEarlier<K, V>(key: V -> Option<K>, vs: seq<V>, k1: K, i1: nat, k2: K, i2: nat)
    requires i1 < |vs| - 1 && key(vs[i1]) == Some(k1) && forall j | 0 <= j < i1 :: key(vs[j]) != Some(k1)
    requires i2 < |vs| - 1 && key(vs[i2]) == Some(k2) && forall j | 0 <= j < i2 :: key(vs[j]) != Some(k2)
    ensures SetEach(key, vs).Has(k1) && SetEach(key, vs).Has(k2)
    ensures SetEach(key, vs).IndexOf(k1) < SetEach(key, vs).IndexOf(k2) <==> i1 < i2
    decreases |vs|, 0
  {
    var n := |vs| - 1;
    FirstInPrefix(key, vs, n, k1, i1);
    FirstInPrefix(key, vs, n, k2, i2);
    SetEachOrder(key, vs[..n], k1, i1, k2, i2);
    SetEachKeeps(key, vs, k1);
    SetEachKeeps(key, vs, k2);
  }

  // ---------------------------------------------------------------------
  // Counting maps

  /** The count held for `k`, zero when absent. */
  function Count<K(==)>(m: OrderedMap<K, nat>, k: K): nat {
    if k in m.values then m.values[k] else 0
  }

  /** What `AddItem` does to a counting map. */
  function Increment<K(==)>(m: OrderedMap<K, nat>, k: K): (r: OrderedMap<K, nat>)
    requires m.Valid()
    ensures r.Valid()
  {
    m.Set(k, Count(m, k) + 1)
  }

  /** The counting map left by calling `AddItem` once per element of `ks`,
      in order, on an empty map. */
  function Tally<K(==)>(ks: seq<K>): (r: OrderedMap<K, nat>)
    ensures r.Valid()
  {
    if ks == [] then Empty() else Increment(Tally(ks[..|ks| - 1]), ks[|ks| - 1])
  }

  /** Sum of the counts of the listed keys. */
  function SumCounts<K(==)>(keys: seq<K>, values: map<K, nat>): nat
    requires forall i | 0 <= i < |keys| :: keys[i] in values
  {
    if keys == [] then 0 else values[keys[0]] + SumCounts(keys[1..], values)
  }

  /** Sum of all counts of a counting map. */
  function Total<K(==)>(m: OrderedMap<K, nat>): nat
    requires m.Valid()
  {
    SumCounts(m.keys, m.values)
  }

  /** A count of each key equals its number of occurrences, and only keys that
      occur are present. */
  lemma {:induction false} TallyCounts<K>(ks: seq<K>)
    ensures forall k :: Tally(ks).Has(k) <==> k in ks
    ensures forall k :: Count(Tally(ks), k) == multiset(ks)[k]
  {
    if ks != [] {
      var init, last := ks[..|ks| - 1], ks[|ks| - 1];
      assert ks == init + [last];
      TallyCounts(init);
      SetKeepsPosition(Tally(init), last, Count(Tally(init), last) + 1);
    }
  }

  /** Whatever holds of every key tallied holds of every key of the tally. */
  lemma {:induction false} TallyKeys<K>(ks: seq<K>, p: K -> bool)
    requires forall i | 0 <= i < |ks| :: p(ks[i])
    ensures forall k | k in Tally(ks).values :: p(k)
  {
    if ks != [] {
      TallyKeys(ks[..|ks| - 1], p);
      assert p(ks[|ks| - 1]);
    }
  }

  lemma {:induction false} SumCountsAgree<K>(keys: seq<K>, a: map<K, nat>, b: map<K, nat>)
    requires forall i | 0 <= i < |keys| :: keys[i] in a && keys[i] in b && a[keys[i]] == b[keys[i]]
    ensures SumCounts(keys, a) == SumCounts(keys, b)
  {
    if keys != [] {
      SumCountsAgree(keys[1..], a, b);
    }
  }

  lemma {:induction false} SumCountsAppend<K>(keys: seq<K>, values: map<K, nat>, k: K)
    requires forall i | 0 <= i < |keys| :: keys[i] in values
    requires k in values
    ensures SumCounts(keys + [k], values) == SumCounts(keys, values) + values[k]
  {
    if keys == [] {
      assert [k][1..] == [];
    } else {
      assert (keys + [k])[1..] == keys[1..] + [k];
      SumCountsAppend(keys[1..], values, k);
    }
  }

  lemma {:induction false} SumCountsBump<K>(keys: seq<K>, values: map<K, nat>, k: K)
    requires forall i | 0 <= i < |keys| :: keys[i] in values
    requires forall i, j | 0 <= i < j < |keys| :: keys[i] != keys[j]
    requires k in keys && k in values
    ensures SumCounts(keys, values[k := values[k] + 1]) == SumCounts(keys, values) + 1
  {
    var bumped := values[k := values[k] + 1];
    if keys[0] == k {
      assert k !in keys[1..] by {
        forall i | 0 <= i < |keys[1..]| ensures keys[1..][i] != k { assert keys[1 + i] != keys[0]; }
      }
      SumCountsAgree(keys[1..], bumped, values);
    } else {
      SumCountsBump(keys[1..], values, k);
    }
  }

  /** Every call of `AddItem` adds exactly one to the total. */
  lemma IncrementTotal<K>(m: OrderedMap<K, nat>, k: K)
    requires m.Valid()
    ensures Total(Increment(m, k)) == Total(m) + 1
  {
    if k in m.values {
      SumCountsBump(m.keys, m.values, k);
    } else {
      SumCountsAgree(m.keys, m.values[k := 1], m.values);
      SumCountsAppend(m.keys, m.values[k := 1], k);
    }
  }

  /** The counts of a tally add up to the number of keys tallied. */
  lemma {:induction false} TallyTotal<K>(ks: seq<K>)
    ensures Total(Tally(ks)) == |ks|
  {
    if ks != [] {
      TallyTotal(ks[..|ks| - 1]);
      IncrementTotal(Tally(ks[..|ks| - 1]), ks[|ks| - 1]);
    }
  }

  // ---------------------------------------------------------------------
  // The map object

  /** A `Map` (JavaScript) or `dict` (Python) object: a reference whose
      contents its methods update in place. */
  class MapObject<K(==), V> {
    var contents: OrderedMap<K, V>

    /** `new Map()`, `dict()` */
    constructor ()
      ensures contents == Empty()
    {
      contents := Empty();
    }

    /** `map.set(k, v)`, `d[k] = v` */
    method Set(k: K, v: V)
      requires contents.Valid()
      modifies this
      ensures contents == old(contents).Set(k, v)
    {
      contents := contents.Set(k, v);
    }
  }
}
