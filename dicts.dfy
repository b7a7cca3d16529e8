/** Python's insertion-ordered `dict`: the keys in the order they were first
    inserted, and the key-to-value map. Re-inserting a present key keeps its
    position and replaces its value. */
module Dicts {
  import opened Base

  datatype Dict<K, V> = Dict(keys: seq<K>, entries: map<K, V>)

  /** Keys are listed once each, and exactly the keys of the map are listed. */
  ghost predicate Valid<K(!new), V>(d: Dict<K, V>)
  {
    && (forall i, j :: 0 <= i < j < |d.keys| ==> d.keys[i] != d.keys[j])
    && (forall k :: k in d.entries <==> k in d.keys)
  }

  function Empty<K(==,!new), V>(): (d: Dict<K, V>)
    ensures Valid(d) && d.keys == []
  {
    Dict([], map[])
  }

  /** `d[k] = v`. */
  function Insert<K(==,!new), V>(d: Dict<K, V>, k: K, v: V): (r: Dict<K, V>)
    requires Valid(d)
    ensures Valid(r)
    ensures r.entries == d.entries[k := v]
    ensures k in d.entries ==> r.keys == d.keys
    ensures k !in d.entries ==> r.keys == d.keys + [k]
  {
    if k in d.entries then Dict(d.keys, d.entries[k := v])
    else Dict(d.keys + [k], d.entries[k := v])
  }

  /** `list(d.values())`, in key order. */
  function Values<K(==,!new), V>(d: Dict<K, V>): (r: seq<V>)
    requires Valid(d)
    ensures |r| == |d.keys|
    ensures forall i :: 0 <= i < |r| ==> r[i] == d.entries[d.keys[i]]
  {
    ValuesOf(d.keys, d.entries)
  }

  function ValuesOf<K(==,!new), V>(keys: seq<K>, entries: map<K, V>): (r: seq<V>)
    requires forall k :: k in keys ==> k in entries
    ensures |r| == |keys|
    ensures forall i :: 0 <= i < |r| ==> r[i] == entries[keys[i]]
  {
    if keys == [] then [] else [entries[keys[0]]] + ValuesOf(keys[1..], entries)
  }

  /** `list(d.items())`, in key order. */
  function Items<K(==,!new), V>(d: Dict<K, V>): (r: seq<(K, V)>)
    requires Valid(d)
    ensures |r| == |d.keys|
    ensures forall i :: 0 <= i < |r| ==> r[i] == (d.keys[i], d.entries[d.keys[i]])
  {
    seq(|d.keys|, i requires 0 <= i < |d.keys| => (d.keys[i], d.entries[d.keys[i]]))
  }

  /** Index of the first pair whose key is `k`. */
  function FirstIndex<K(==,!new), V>(ps: seq<(K, V)>, k: K): (i: nat)
    requires exists j :: 0 <= j < |ps| && ps[j].0 == k
    ensures i < |ps| && ps[i].0 == k
    ensures forall j :: 0 <= j < i ==> ps[j].0 != k
  {
    if ps[0].0 == k then 0 else 1 + FirstIndex(ps[1..], k)
  }

  /** Index of the last pair whose key is `k`. */
  function LastIndex<K(==,!new), V>(ps: seq<(K, V)>, k: K): (i: nat)
    requires exists j :: 0 <= j < |ps| && ps[j].0 == k
    ensures i < |ps| && ps[i].0 == k
    ensures forall j :: i < j < |ps| ==> ps[j].0 != k
    decreases |ps|
  {
    if ps[|ps| - 1].0 == k then |ps| - 1
    else
      assert forall j :: 0 <= j < |ps| && ps[j].0 == k ==> ps[..|ps| - 1][j].0 == k;
      LastIndex(ps[..|ps| - 1], k)
  }

  ghost predicate HasKey<K(!new), V>(ps: seq<(K, V)>, k: K)
  {
    exists j :: 0 <= j < |ps| && ps[j].0 == k
  }

  /** `{k: v for k, v in ps}`: inserting the pairs from left to right. */
  function FromPairs<K(==,!new), V>(ps: seq<(K, V)>): (d: Dict<K, V>)
    ensures Valid(d)
    ensures |d.keys| <= |ps|
    decreases |ps|
  {
    if ps == [] then Empty()
    else Insert(FromPairs(ps[..|ps| - 1]), ps[|ps| - 1].0, ps[|ps| - 1].1)
  }

  /** The keys of `FromPairs(ps)` are exactly the keys of the pairs. */
  lemma {:induction false} FromPairsKeys<K(!new), V>(ps: seq<(K, V)>)
    ensures forall k :: k in FromPairs(ps).entries <==> HasKey(ps, k)
    decreases |ps|
  {
    if ps != [] {
      var init, last := ps[..|ps| - 1], ps[|ps| - 1];
      FromPairsKeys(init);
      forall k
        ensures k in FromPairs(ps).entries <==> HasKey(ps, k)
      {
        if HasKey(ps, k) {
          var j :| 0 <= j < |ps| && ps[j].0 == k;
          if j < |init| {
            assert init[j].0 == k;
          }
        }
        if HasKey(init, k) {
          var j :| 0 <= j < |init| && init[j].0 == k;
          assert ps[j].0 == k;
        }
        if k == last.0 {
          assert ps[|init|].0 == k;
        }
      }
    }
  }

  /** FromPairsKeys for one key. */
  lemma FromPairsKey<K(!new), V>(ps: seq<(K, V)>, k: K)
    ensures k in FromPairs(ps).entries <==> HasKey(ps, k)
  {
    FromPairsKeys(ps);
  }

  /** On a duplicate key the value of the last pair with that key wins. */
  lemma {:induction false} FromPairsLastWins<K(!new), V>(ps: seq<(K, V)>, i: nat)
    requires i < |ps|
    requires forall j :: i < j < |ps| ==> ps[j].0 != ps[i].0
    ensures ps[i].0 in FromPairs(ps).entries
    ensures FromPairs(ps).entries[ps[i].0] == ps[i].1
    decreases |ps|
  {
    var init := ps[..|ps| - 1];
    if i < |init| {
      assert ps[|init|].0 != ps[i].0;
      FromPairsLastWins(init, i);
    }
  }

  /** The value under a key is the value of the last pair with that key. */
  lemma FromPairsValue<K(!new), V>(ps: seq<(K, V)>, k: K)
    requires HasKey(ps, k)
    ensures k in FromPairs(ps).entries
    ensures FromPairs(ps).entries[k] == ps[LastIndex(ps, k)].1
  {
    FromPairsLastWins(ps, LastIndex(ps, k));
  }

  /** A key keeps the position of its first occurrence among the pairs. */
  lemma {:induction false} FromPairsOrder<K(!new), V>(ps: seq<(K, V)>, i: nat, j: nat)
    requires i < j < |FromPairs(ps).keys|
    ensures HasKey(ps, FromPairs(ps).keys[i]) && HasKey(ps, FromPairs(ps).keys[j])
    ensures FirstIndex(ps, FromPairs(ps).keys[i]) < FirstIndex(ps, FromPairs(ps).keys[j])
    decreases |ps|
  {
    var init, last := ps[..|ps| - 1], ps[|ps| - 1];
    assert ps == init + [last];
    var prev, d := FromPairs(init), FromPairs(ps);
    FromPairsKeys(init);
    if j < |prev.keys| {
      FromPairsOrder(init, i, j);
      FirstIndexPrefix(init, last, prev.keys[i]);
      FirstIndexPrefix(init, last, prev.keys[j]);
    } else {
      assert last.0 !in prev.entries && d.keys[j] == last.0;
      assert prev.keys[i] in prev.entries;
      FirstIndexPrefix(init, last, prev.keys[i]);
      assert ps[|init|].0 == last.0;
      assert !HasKey(init, last.0);
      assert FirstIndex(ps, last.0) == |init|;
    }
  }

  lemma FirstIndexPrefix<K(!new), V>(init: seq<(K, V)>, last: (K, V), k: K)
    requires HasKey(init, k)
    ensures HasKey(init + [last], k)
    ensures FirstIndex(init + [last], k) == FirstIndex(init, k)
  {
    var ps := init + [last];
    var fi := FirstIndex(init, k);
    assert ps[fi] == init[fi];
  }

  /** The keys of `keys` whose entry satisfies `p`, in order. */
  function FilterKeys<K(==,!new), V>(keys: seq<K>, entries: map<K, V>, p: (K, V) -> bool): (r: seq<K>)
    requires forall k :: k in keys ==> k in entries
    ensures IsSubseq(r, keys)
    ensures forall k :: k in r <==> k in keys && p(k, entries[k])
  {
    if keys == [] then []
    else if p(keys[0], entries[keys[0]]) then [keys[0]] + FilterKeys(keys[1..], entries, p)
    else FilterKeys(keys[1..], entries, p)
  }

  /** `{k: v for k, v in d.items() if p(k, v)}`. */
  function Filter<K(==,!new), V>(d: Dict<K, V>, p: (K, V) -> bool): (r: Dict<K, V>)
    requires Valid(d)
    ensures Valid(r)
    ensures forall k :: k in r.entries <==> k in d.entries && p(k, d.entries[k])
    ensures forall k :: k in r.entries ==> r.entries[k] == d.entries[k]
    ensures IsSubseq(r.keys, d.keys)
  {
    var keys := FilterKeys(d.keys, d.entries, p);
    DistinctSubseq(keys, d.keys);
    Dict(keys, map k | k in d.entries && p(k, d.entries[k]) :: d.entries[k])
  }

  lemma {:induction false} DistinctSubseq<K(!new)>(a: seq<K>, b: seq<K>)
    requires IsSubseq(a, b)
    requires forall i, j :: 0 <= i < j < |b| ==> b[i] != b[j]
    ensures forall i, j :: 0 <= i < j < |a| ==> a[i] != a[j]
    decreases |b|
  {
    if a != [] && b != [] {
      if a[0] == b[0] {
        DistinctSubseq(a[1..], b[1..]);
        SubseqMembers(a[1..], b[1..]);
        forall j | 0 < j < |a| ensures a[0] != a[j] {
          assert a[j] in a[1..];
          assert a[j] in b[1..];
        }
      } else {
        DistinctSubseq(a, b[1..]);
      }
    }
  }

  /** Mapping a subsequence of keys to their values gives a subsequence of the values. */
  lemma {:induction false} ValuesOfSubseq<K(!new), V>(a: seq<K>, b: seq<K>, entries: map<K, V>)
    requires IsSubseq(a, b)
    requires forall k :: k in b ==> k in entries
    ensures forall k :: k in a ==> k in entries
    ensures IsSubseq(ValuesOf(a, entries), ValuesOf(b, entries))
    decreases |b|
  {
    SubseqMembers(a, b);
    if a != [] && b != [] {
      var va, vb := ValuesOf(a, entries), ValuesOf(b, entries);
      assert va[1..] == ValuesOf(a[1..], entries);
      assert vb[1..] == ValuesOf(b[1..], entries);
      if a[0] == b[0] {
        ValuesOfSubseq(a[1..], b[1..], entries);
      } else {
        ValuesOfSubseq(a, b[1..], entries);
        if va[0] == vb[0] {
          // the same value at the heads: skip it in both, then re-extend
          SubseqDropHead(va, vb[1..]);
        }
      }
    }
  }

  /** The values of a filtered dict are a subsequence of the dict's values. */
  lemma FilterValuesSubseq<K(!new), V>(d: Dict<K, V>, p: (K, V) -> bool)
    requires Valid(d)
    ensures IsSubseq(Values(Filter(d, p)), Values(d))
  {
    var r := Filter(d, p);
    ValuesOfSubseq(r.keys, d.keys, d.entries);
    SameValues(r.keys, r.entries, d.entries);
  }

  lemma {:induction false} SameValues<K(!new), V>(keys: seq<K>, e1: map<K, V>, e2: map<K, V>)
    requires forall k :: k in keys ==> k in e1 && k in e2 && e1[k] == e2[k]
    ensures ValuesOf(keys, e1) == ValuesOf(keys, e2)
  {
  }

  /** A value survives a filter exactly when some key holding it passes. */
  lemma FilterValuesMembers<K(!new), V>(d: Dict<K, V>, p: (K, V) -> bool, v: V)
    requires Valid(d)
    ensures v in Values(Filter(d, p)) <==>
            exists k :: k in d.entries && p(k, d.entries[k]) && d.entries[k] == v
  {
    var r := Filter(d, p);
    var vs := Values(r);
    if v in vs {
      var i :| 0 <= i < |vs| && vs[i] == v;
      assert r.keys[i] in r.entries;
    }
    if exists k :: k in d.entries && p(k, d.entries[k]) && d.entries[k] == v {
      var k :| k in d.entries && p(k, d.entries[k]) && d.entries[k] == v;
      assert k in r.keys;
      var i :| 0 <= i < |r.keys| && r.keys[i] == k;
      assert vs[i] == v;
    }
  }

  /** The condition of the one comprehension that does the work of two
      successive ones. */
  function Both<K, V>(p: (K, V) -> bool, q: (K, V) -> bool): (K, V) -> bool
  {
    (k: K, v: V) => p(k, v) && q(k, v)
  }

  /** Filtering the keys by `p` and then by `q` filters them by both. */
  lemma {:induction false} FilterKeysTwice<K(!new), V>(keys: seq<K>, e: map<K, V>, e1: map<K, V>,
                                                       p: (K, V) -> bool, q: (K, V) -> bool)
    requires forall k :: k in keys ==> k in e
    requires forall k :: k in keys && p(k, e[k]) ==> k in e1 && e1[k] == e[k]
    ensures FilterKeys(FilterKeys(keys, e, p), e1, q) == FilterKeys(keys, e, Both(p, q))
  {
    if keys != [] {
      FilterKeysTwice(keys[1..], e, e1, p, q);
    }
  }

  /** Two successive filters keep, in dictionary order, the values of the
      keys that pass both, each as often as one comprehension over both
      conditions keeps it. */
  lemma FilterTwice<K(!new), V>(d: Dict<K, V>, p: (K, V) -> bool, q: (K, V) -> bool)
    requires Valid(d)
    ensures Values(Filter(Filter(d, p), q)) == Values(Filter(d, Both(p, q)))
    ensures IsSubseq(Values(Filter(Filter(d, p), q)), Values(d))
    ensures forall v :: v in Values(Filter(Filter(d, p), q)) <==>
              exists k :: k in d.entries && p(k, d.entries[k]) && q(k, d.entries[k]) && d.entries[k] == v
  {
    var d1 := Filter(d, p);
    var two, one := Filter(d1, q), Filter(d, Both(p, q));
    FilterKeysTwice(d.keys, d.entries, d1.entries, p, q);
    assert two.keys == one.keys;
    assert Values(two) == Values(one) by {
      forall i | 0 <= i < |two.keys|
        ensures Values(two)[i] == Values(one)[i]
      {
        assert two.keys[i] in two.entries;
      }
    }
    FilterValuesSubseq(d, p);
    FilterValuesSubseq(d1, q);
    SubseqTrans(Values(Filter(d1, q)), Values(d1), Values(d));
    forall v
      ensures v in Values(Filter(d1, q)) <==>
              exists k :: k in d.entries && p(k, d.entries[k]) && q(k, d.entries[k]) && d.entries[k] == v
    {
      FilterValuesMembers(d1, q, v);
    }
  }

  /** The values of the keys that pass `first` and then `second`, in
      dictionary order: two successive dict comprehensions, then `values()`. */
  function FilteredValues<K(==,!new), V(!new)>(d: Dict<K, V>, first: (K, V) -> bool, second: (K, V) -> bool): (r: seq<V>)
    requires Valid(d)
    ensures r == Values(Filter(d, Both(first, second)))
    ensures IsSubseq(r, Values(d))
    ensures forall v :: v in r <==>
              exists k :: k in d.entries && first(k, d.entries[k]) && second(k, d.entries[k]) && d.entries[k] == v
  {
    FilterTwice(d, first, second);
    Values(Filter(Filter(d, first), second))
  }
}
