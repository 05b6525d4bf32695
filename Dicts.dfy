/**
  Python's `dict`, as the pipeline uses it: an association list that keeps
  insertion order and never holds the same key twice.
*/
module Dicts {
  import opened Wrappers

  predicate DistinctKeys<K(==), V>(d: seq<(K, V)>) {
    forall i, j :: 0 <= i < j < |d| ==> d[i].0 != d[j].0
  }

  type Dict<K(==), V> = d: seq<(K, V)> | DistinctKeys(d) witness []

  function KeySet<K(==), V>(d: seq<(K, V)>): set<K> {
    set i | 0 <= i < |d| :: d[i].0
  }

  /** The keys in insertion order (`list(d)`). */
  function Keys<K, V>(d: seq<(K, V)>): (ks: seq<K>)
    ensures |ks| == |d| && forall i :: 0 <= i < |d| ==> ks[i] == d[i].0
  {
    seq(|d|, i requires 0 <= i < |d| => d[i].0)
  }

  /** Two mappings listing the same keys in the same order have the same key set. */
  lemma SameKeysSameKeySet<K, V1, V2>(a: seq<(K, V1)>, b: seq<(K, V2)>)
    requires Keys(a) == Keys(b)
    ensures KeySet(a) == KeySet(b)
  {
    assert forall i :: 0 <= i < |a| ==> a[i].0 == Keys(a)[i] == b[i].0;
  }

  /** The key at position i does not occur before it. */
  lemma PrefixKeyFresh<K, V>(d: Dict<K, V>, i: nat)
    requires i < |d|
    ensures d[i].0 !in KeySet(d[..i])
  {
  }

  /** `d[k]`, or None when k is missing. */
  function Get<K(==), V>(d: Dict<K, V>, k: K): (r: Option<V>)
    ensures r.Some? <==> k in KeySet(d)
    ensures forall i :: 0 <= i < |d| && d[i].0 == k ==> r == Some(d[i].1)
    decreases |d|
  {
    if |d| == 0 then None
    else if d[|d| - 1].0 == k then Some(d[|d| - 1].1)
    else Get(d[..|d| - 1], k)
  }

  /** A key that is found sits at some position of the mapping. */
  lemma GetIndex<K, V>(d: Dict<K, V>, k: K) returns (i: nat)
    requires Get(d, k).Some?
    ensures i < |d| && d[i] == (k, Get(d, k).value)
  {
    assert k in KeySet(d);
    i :| 0 <= i < |d| && d[i].0 == k;
  }

  /** `d[k] = v` for a key not yet present: the new entry goes last. */
  function Put<K(==), V>(d: Dict<K, V>, k: K, v: V): (r: Dict<K, V>)
    requires k !in KeySet(d)
    ensures |r| == |d| + 1 && r[..|d|] == d && r[|d|] == (k, v)
    ensures KeySet(r) == KeySet(d) + {k}
  {
    d + [(k, v)]
  }

  /** `d[k] = v` for a key already present: the entry keeps its position. */
  function Update<K(==), V>(d: Dict<K, V>, k: K, v: V): (r: Dict<K, V>)
    requires k in KeySet(d)
    ensures |r| == |d| && KeySet(r) == KeySet(d)
    ensures forall i :: 0 <= i < |d| ==> r[i] == if d[i].0 == k then (k, v) else d[i]
  {
    var r := seq(|d|, i requires 0 <= i < |d| => if d[i].0 == k then (k, v) else d[i]);
    assert forall i :: 0 <= i < |d| ==> r[i].0 == d[i].0;
    r
  }

  /**
    The mapping after `del d[k]` for every k in ks: exactly the entries whose
    key is not in ks remain, in their original order.
  */
  function Without<K(==), V>(d: Dict<K, V>, ks: set<K>): (r: Dict<K, V>)
    ensures forall i :: 0 <= i < |r| ==> r[i] in d && r[i].0 !in ks
    ensures forall i :: 0 <= i < |d| && d[i].0 !in ks ==> d[i] in r
    ensures KeySet(r) == KeySet(d) - ks
    decreases |d|
  {
    if |d| == 0 then []
    else
      var rest := Without(d[..|d| - 1], ks);
      PrefixKeyFresh(d, |d| - 1);
      if d[|d| - 1].0 in ks then rest else Put(rest, d[|d| - 1].0, d[|d| - 1].1)
  }

  /** Deleting no present key changes nothing. */
  lemma {:induction false} WithoutNothing<K, V>(d: Dict<K, V>, ks: set<K>)
    requires KeySet(d) !! ks
    ensures Without(d, ks) == d
    decreases |d|
  {
    if |d| > 0 {
      var init := d[..|d| - 1];
      assert KeySet(init) <= KeySet(d);
      WithoutNothing(init, ks);
      assert d[|d| - 1].0 in KeySet(d);
      assert init + [d[|d| - 1]] == d;
    }
  }

  /** Deleting the keys of A and then those of B is deleting the keys of A + B, in whatever order. */
  lemma {:induction false} WithoutWithout<K, V>(d: Dict<K, V>, a: set<K>, b: set<K>)
    ensures Without(Without(d, a), b) == Without(d, a + b)
    decreases |d|
  {
    if |d| > 0 {
      var init := d[..|d| - 1];
      var last := d[|d| - 1];
      WithoutWithout(init, a, b);
      var w := Without(init, a);
      if last.0 !in a {
        PrefixKeyFresh(d, |d| - 1);
        assert Without(d, a) == Put(w, last.0, last.1);
        assert Put(w, last.0, last.1)[..|w|] == w;
      }
    }
  }

  /**
    The keys of the entries whose child mapping is empty (`if not child:
    to_delete.add(key)`).
  */
  function EmptyKeys<K(==), K2(==), V2>(d: Dict<K, Dict<K2, V2>>): (ks: set<K>)
    ensures forall i :: 0 <= i < |d| ==> (d[i].0 in ks <==> |d[i].1| == 0)
    ensures ks <= KeySet(d)
    decreases |d|
  {
    if |d| == 0 then {}
    else
      var init := d[..|d| - 1];
      PrefixKeyFresh(d, |d| - 1);
      EmptyKeys(init) + (if |d[|d| - 1].1| == 0 then {d[|d| - 1].0} else {})
  }

  /** The collect loop of a pruning pass: scan the unmodified mapping, gather the keys with an empty child. */
  method CollectEmpty<K(==), K2(==), V2>(d: Dict<K, Dict<K2, V2>>) returns (doomed: set<K>)
    ensures doomed == EmptyKeys(d)
  {
    doomed := {};
    var i := 0;
    while i < |d|
      invariant 0 <= i <= |d|
      invariant doomed == EmptyKeys(d[..i])
    {
      assert d[..i + 1][..i] == d[..i];
      assert EmptyKeys(d[..i + 1]) == EmptyKeys(d[..i]) + (if |d[i].1| == 0 then {d[i].0} else {});
      if |d[i].1| == 0 {
        doomed := doomed + {d[i].0};
      }
      i := i + 1;
    }
    assert d[..|d|] == d;
  }

  /**
    One turn of the delete loop: the next key is still present, and deleting
    it extends the deletions made so far by that key.
  */
  lemma DeleteStep<K, V>(d: Dict<K, V>, doomed: set<K>, pending: set<K>, k: K)
    requires k in pending && pending <= doomed && doomed <= KeySet(d)
    ensures k in KeySet(Without(d, doomed - pending))
    ensures Without(Without(d, doomed - pending), {k}) == Without(d, doomed - (pending - {k}))
  {
    WithoutWithout(d, doomed - pending, {k});
    assert doomed - pending + {k} == doomed - (pending - {k});
  }

  /**
    The delete loop: `for k in doomed: del d[k]`. The keys are taken from the
    set in an arbitrary order; the result is the same whatever that order is.
    `del` fails on a missing key, so every collected key must be present, and
    each one still is when its turn comes.
  */
  method DeleteKeys<K(==), V>(d: Dict<K, V>, doomed: set<K>) returns (r: Dict<K, V>)
    requires doomed <= KeySet(d)
    ensures r == Without(d, doomed)
  {
    WithoutNothing(d, {});
    r := d;
    var pending := doomed;
    assert doomed - pending == {};
    while pending != {}
      invariant pending <= doomed
      invariant r == Without(d, doomed - pending)
      decreases pending
    {
      var k :| k in pending;
      DeleteStep(d, doomed, pending, k);
      assert k in KeySet(r);
      r := Without(r, {k});
      pending := pending - {k};
    }
    assert doomed - {} == doomed;
  }
}
