/** Ranking a counting map by count, as both heap-statistics scripts do
    before printing: JavaScript's `[...map.entries()].sort((a, b) => b[1] - a[1])`
    and Python's `sorted(d.items(), key=lambda x: x[1], reverse=True)`. Both
    sorts are stable, so the ranking is fixed: counts never increase along
    it, and entries with equal counts keep their insertion order. */
module Ranking {
  import opened Text
  import opened OrderedMaps

  /** The entries of a map in iteration order. */
  function Entries<K(==)>(m: OrderedMap<K, nat>): (es: seq<(K, nat)>)
    requires m.Valid()
    ensures |es| == |m.keys|
    ensures forall i | 0 <= i < |es| :: es[i] == (m.keys[i], m.values[m.keys[i]])
  {
    seq(|m.keys|, i requires 0 <= i < |m.keys| => (m.keys[i], m.values[m.keys[i]]))
  }

  /** Counts never increase along `s`. */
  predicate Descending<K>(s: seq<(K, nat)>) {
    forall i, j | 0 <= i < j < |s| :: s[i].1 >= s[j].1
  }

  /** The entries of `s` whose count is `c`, in order. */
  function WithCount<K>(s: seq<(K, nat)>, c: nat): seq<(K, nat)> {
    if s == [] then []
    else WithCount(s[..|s| - 1], c) + (if s[|s| - 1].1 == c then [s[|s| - 1]] else [])
  }

  /** Puts `e` after every entry whose count is at least its own. */
  function Insert<K>(e: (K, nat), s: seq<(K, nat)>): seq<(K, nat)> {
    if s == [] then [e]
    else if s[0].1 >= e.1 then [s[0]] + Insert(e, s[1..])
    else [e] + s
  }

  /** A stable sort by decreasing count: each entry in turn is inserted
      after the entries ranked so far whose count is at least its own. */
  function Rank<K>(s: seq<(K, nat)>): seq<(K, nat)> {
    if s == [] then [] else Insert(s[|s| - 1], Rank(s[..|s| - 1]))
  }

  /** How many entries get printed: `if (++i > 10) break` after each one. */
  const TopCount := 11

  /** The entries printed: the first eleven of the ranking. */
  function Top<K>(s: seq<(K, nat)>): (t: seq<(K, nat)>)
    ensures |t| <= TopCount
  {
    if |s| <= TopCount then s else s[..TopCount]
  }

  // ---------------------------------------------------------------------

  /** No count of `s` exceeds `b`. */
  predicate AtMost<K>(s: seq<(K, nat)>, b: nat) {
    forall i | 0 <= i < |s| :: s[i].1 <= b
  }

  lemma DescendingTail<K>(s: seq<(K, nat)>)
    requires s != [] && Descending(s)
    ensures Descending(s[1..]) && AtMost(s[1..], s[0].1)
  {
    forall i, j | 0 <= i < j < |s[1..]| ensures s[1..][i].1 >= s[1..][j].1 {
      assert s[1..][i] == s[i + 1] && s[1..][j] == s[j + 1];
    }
    forall i | 0 <= i < |s[1..]| ensures s[1..][i].1 <= s[0].1 {
      assert s[1..][i] == s[i + 1];
    }
  }

  lemma DescendingCons<K>(e: (K, nat), s: seq<(K, nat)>)
    requires Descending(s) && AtMost(s, e.1)
    ensures Descending([e] + s)
  {
    forall i, j | 0 <= i < j < |[e] + s| ensures ([e] + s)[i].1 >= ([e] + s)[j].1 {
      assert ([e] + s)[j] == s[j - 1];
      if i > 0 {
        assert ([e] + s)[i] == s[i - 1];
      }
    }
  }

  lemma {:induction false} InsertAtMost<K>(e: (K, nat), s: seq<(K, nat)>, b: nat)
    requires AtMost(s, b) && e.1 <= b
    ensures AtMost(Insert(e, s), b)
  {
    if s != [] && s[0].1 >= e.1 {
      assert AtMost(s[1..], b) by {
        forall i | 0 <= i < |s[1..]| ensures s[1..][i].1 <= b {
          assert s[1..][i] == s[i + 1];
        }
      }
      InsertAtMost(e, s[1..], b);
      var t := Insert(e, s[1..]);
      forall i | 0 <= i < |[s[0]] + t| ensures ([s[0]] + t)[i].1 <= b {
        if i > 0 {
          assert ([s[0]] + t)[i] == t[i - 1];
        }
      }
    }
  }

  lemma {:induction false} InsertDescending<K>(e: (K, nat), s: seq<(K, nat)>)
    requires Descending(s)
    ensures Descending(Insert(e, s))
  {
    if s == [] {
    } else if s[0].1 >= e.1 {
      DescendingTail(s);
      InsertDescending(e, s[1..]);
      InsertAtMost(e, s[1..], s[0].1);
      DescendingCons(s[0], Insert(e, s[1..]));
    } else {
      forall i | 0 <= i < |s| ensures s[i].1 <= e.1 {
        if i > 0 {
          assert s[0].1 >= s[i].1;
        }
      }
      DescendingCons(e, s);
    }
  }

  lemma {:induction false} InsertPermutation<K>(e: (K, nat), s: seq<(K, nat)>)
    ensures multiset(Insert(e, s)) == multiset(s) + multiset{e}
    ensures |Insert(e, s)| == |s| + 1
  {
    if s != [] && s[0].1 >= e.1 {
      InsertPermutation(e, s[1..]);
      assert s == [s[0]] + s[1..];
    }
  }

  lemma {:induction false} WithCountAppend<K>(s: seq<(K, nat)>, t: seq<(K, nat)>, c: nat)
    ensures WithCount(s + t, c) == WithCount(s, c) + WithCount(t, c)
    decreases |t|
  {
    if t == [] {
      assert s + t == s;
    } else {
      var init, last := t[..|t| - 1], t[|t| - 1];
      assert (s + t)[..|s + t| - 1] == s + init;
      WithCountAppend(s, init, c);
    }
  }

  lemma WithCountOne<K>(e: (K, nat), c: nat)
    ensures WithCount([e], c) == if e.1 == c then [e] else []
  {
    assert [e][..0] == [];
  }

  /** Entries whose counts are all above `c` contribute nothing to `c`. */
  lemma {:induction false} WithCountNone<K>(s: seq<(K, nat)>, c: nat)
    requires forall i | 0 <= i < |s| :: s[i].1 != c
    ensures WithCount(s, c) == []
  {
    if s != [] {
      WithCountNone(s[..|s| - 1], c);
    }
  }

  /** Inserting `e` adds it after the entries of its own count. */
  lemma {:induction false} InsertWithCount<K>(e: (K, nat), s: seq<(K, nat)>, c: nat)
    requires Descending(s)
    ensures WithCount(Insert(e, s), c) == WithCount(s, c) + (if e.1 == c then [e] else [])
  {
    if s == [] {
      WithCountOne(e, c);
      assert [] + (if e.1 == c then [e] else []) == (if e.1 == c then [e] else []);
    } else if s[0].1 >= e.1 {
      DescendingTail(s);
      InsertWithCount(e, s[1..], c);
      WithCountAppend([s[0]], Insert(e, s[1..]), c);
      WithCountAppend([s[0]], s[1..], c);
      assert [s[0]] + s[1..] == s;
    } else {
      WithCountAppend([e], s, c);
      WithCountOne(e, c);
      if e.1 == c {
        WithCountNone(s, c);
        assert WithCount(s, c) + [e] == [e];
      }
    }
  }

  /** The ranking is sorted by decreasing count and is a permutation of the
      entries. */
  lemma {:induction false} RankSorted<K>(s: seq<(K, nat)>)
    ensures Descending(Rank(s))
    ensures multiset(Rank(s)) == multiset(s)
    ensures |Rank(s)| == |s|
  {
    if s != [] {
      RankSorted(s[..|s| - 1]);
      InsertDescending(s[|s| - 1], Rank(s[..|s| - 1]));
      InsertPermutation(s[|s| - 1], Rank(s[..|s| - 1]));
      assert s == s[..|s| - 1] + [s[|s| - 1]];
    }
  }

  /** The ranking is stable: the entries of any one count appear in it in
      the order they have in the map. */
  lemma {:induction false} RankStable<K>(s: seq<(K, nat)>, c: nat)
    ensures WithCount(Rank(s), c) == WithCount(s, c)
  {
    if s != [] {
      RankStable(s[..|s| - 1], c);
      RankSorted(s[..|s| - 1]);
      InsertWithCount(s[|s| - 1], Rank(s[..|s| - 1]), c);
    }
  }

  /** Every printed entry has a count at least that of every entry left out. */
  lemma TopAreLargest<K>(s: seq<(K, nat)>)
    ensures forall i, j | 0 <= i < |Top(Rank(s))| <= j < |Rank(s)| :: Rank(s)[i].1 >= Rank(s)[j].1
    ensures |Top(Rank(s))| == if |s| <= TopCount then |s| else TopCount
    ensures Top(Rank(s)) == Rank(s)[..|Top(Rank(s))|]
  {
    RankSorted(s);
  }

  /** The ranking holds the entries of the map and no others, so whatever
      holds of every key holds of every ranked key. */
  lemma RankKeys<K>(s: seq<(K, nat)>, p: K -> bool)
    requires forall i | 0 <= i < |s| :: p(s[i].0)
    ensures forall i | 0 <= i < |Rank(s)| :: p(Rank(s)[i].0)
  {
    RankSorted(s);
    forall i | 0 <= i < |Rank(s)| ensures p(Rank(s)[i].0) {
      assert Rank(s)[i] in multiset(Rank(s));
      assert Rank(s)[i] in s;
    }
  }

  /** The printed entries are entries of `s`, in non-increasing count order,
      and an entry of `s` left out has a count no larger than any printed
      one. */
  lemma TopOfRank<K>(s: seq<(K, nat)>)
    ensures Descending(Top(Rank(s)))
    ensures forall i | 0 <= i < |Top(Rank(s))| :: Top(Rank(s))[i] in s
    ensures forall e, i | e in s && e !in Top(Rank(s)) && 0 <= i < |Top(Rank(s))| :: e.1 <= Top(Rank(s))[i].1
  {
    TopDescending(s);
    TopFromInput(s);
    TopDominates(s);
  }

  lemma TopDescending<K>(s: seq<(K, nat)>)
    ensures Descending(Top(Rank(s)))
  {
    var ranked := Rank(s);
    var t := Top(ranked);
    RankSorted(s);
    TopAreLargest(s);
    forall i, j | 0 <= i < j < |t| ensures t[i].1 >= t[j].1 {
      assert t[i] == ranked[i] && t[j] == ranked[j];
    }
  }

  lemma TopFromInput<K>(s: seq<(K, nat)>)
    ensures forall i | 0 <= i < |Top(Rank(s))| :: Top(Rank(s))[i] in s
  {
    var ranked := Rank(s);
    var t := Top(ranked);
    RankSorted(s);
    TopAreLargest(s);
    forall i | 0 <= i < |t| ensures t[i] in s {
      assert t[i] == ranked[i];
      assert ranked[i] in multiset(ranked);
    }
  }

  lemma TopDominates<K>(s: seq<(K, nat)>)
    ensures forall e, i | e in s && e !in Top(Rank(s)) && 0 <= i < |Top(Rank(s))| :: e.1 <= Top(Rank(s))[i].1
  {
    var ranked := Rank(s);
    var t := Top(ranked);
    RankSorted(s);
    TopAreLargest(s);
    forall e, i | e in s && e !in t && 0 <= i < |t| ensures e.1 <= t[i].1 {
      assert e in multiset(ranked);
      var j :| 0 <= j < |ranked| && ranked[j] == e;
      if j < |t| {
        assert false;
      }
    }
  }

  lemma EntryOf<K>(m: OrderedMap<K, nat>, e: (K, nat))
    requires m.Valid() && e in Entries(m)
    ensures e.0 in m.values && e.1 == m.values[e.0]
  {
    var n :| 0 <= n < |Entries(m)| && Entries(m)[n] == e;
  }

  lemma EntryFor<K>(m: OrderedMap<K, nat>, k: K)
    requires m.Valid() && k in m.values
    ensures (k, m.values[k]) in Entries(m)
  {
    assert Entries(m)[m.IndexOf(k)] == (k, m.values[k]);
  }

  /** What `PrintTopStats` prints of a counting map: at most eleven entries of
      the map, counts never increasing, and no key left out with a larger
      count than a key printed. */
  lemma TopEntries<K>(m: OrderedMap<K, nat>)
    requires m.Valid()
    ensures var t := Top(Rank(Entries(m)));
      && Descending(t) && |t| == (if |m.keys| <= TopCount then |m.keys| else TopCount)
      && (forall i | 0 <= i < |t| :: t[i].0 in m.values && t[i].1 == m.values[t[i].0])
      && (forall k, i | k in m.values && 0 <= i < |t| && (forall j | 0 <= j < |t| :: t[j].0 != k) :: m.values[k] <= t[i].1)
  {
    var es := Entries(m);
    var t := Top(Rank(es));
    TopOfRank(es);
    TopAreLargest(es);
    forall i | 0 <= i < |t| ensures t[i].0 in m.values && t[i].1 == m.values[t[i].0] {
      EntryOf(m, t[i]);
    }
    forall k, i | k in m.values && 0 <= i < |t| && (forall j | 0 <= j < |t| :: t[j].0 != k)
      ensures m.values[k] <= t[i].1
    {
      EntryFor(m, k);
      assert (k, m.values[k]) !in t;
    }
  }

  // ---------------------------------------------------------------------
  // Maps keyed by hex numerals, which both scripts render as text

  /** All keys are hex numerals. */
  ghost predicate HexKeys(m: OrderedMap<string, nat>) {
    forall k | k in m.values :: AllHex(k)
  }

  /** Entries whose keys are hex numerals. */
  predicate HexEntries(es: seq<(string, nat)>) {
    forall i | 0 <= i < |es| :: AllHex(es[i].0)
  }

  lemma TopKeysHex(m: OrderedMap<string, nat>)
    requires m.Valid() && HexKeys(m)
    ensures HexEntries(Rank(Entries(m))) && HexEntries(Top(Rank(Entries(m))))
  {
    RankKeys(Entries(m), AllHex);
  }
}
