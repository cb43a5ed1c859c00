/** Python dicts whose values are sizes, as the cookie monitoring middleware
    builds them. A dict is the sequence of its items in insertion order, which
    is also the order in which Python iterates over it. */
module OrderedDict {

  datatype Item<K> = Item(key: K, size: nat)

  /** No key occurs twice: every dict Python builds has this shape. */
  ghost predicate Distinct<K>(d: seq<Item<K>>) {
    forall i, j :: 0 <= i < j < |d| ==> d[i].key != d[j].key
  }

  function Keys<K(==)>(d: seq<Item<K>>): set<K> {
    if |d| == 0 then {} else {d[0].key} + Keys(d[1..])
  }

  /** A key is in the dict exactly when some item carries it. */
  lemma {:induction false} KeysHoldExactlyItemKeys<K>(d: seq<Item<K>>, k: K)
    ensures k in Keys(d) <==> exists i :: 0 <= i < |d| && d[i].key == k
  {
    if |d| > 0 {
      KeysHoldExactlyItemKeys(d[1..], k);
      if k in Keys(d[1..]) {
        var i :| 0 <= i < |d[1..]| && d[1..][i].key == k;
        assert d[i + 1].key == k;
      }
    }
  }

  /** `d.get(k, 0)`: the size stored under `k`, or 0 when `k` is absent. */
  function Get<K(==)>(d: seq<Item<K>>, k: K): (v: nat)
    ensures k !in Keys(d) ==> v == 0
  {
    if |d| == 0 then 0
    else if d[0].key == k then d[0].size
    else Get(d[1..], k)
  }

  /** For a present key, `d.get(k, 0)` is the size of an item carrying it. */
  lemma {:induction false} GetFindsItem<K>(d: seq<Item<K>>, k: K)
    requires k in Keys(d)
    ensures exists i :: 0 <= i < |d| && d[i] == Item(k, Get(d, k))
  {
    if d[0].key != k {
      GetFindsItem(d[1..], k);
      var i :| 0 <= i < |d[1..]| && d[1..][i] == Item(k, Get(d[1..], k));
      assert d[i + 1] == Item(k, Get(d, k));
    }
  }

  /** `d[k] = v`: a key already present keeps its place, a new key goes last,
      and looking `k` up afterwards finds `v`. */
  function Put<K(==)>(d: seq<Item<K>>, k: K, v: nat): (r: seq<Item<K>>)
    ensures Keys(r) == Keys(d) + {k}
    ensures k !in Keys(d) ==> r == d + [Item(k, v)]
    ensures k in Keys(d) ==> |r| == |d| && forall i :: 0 <= i < |d| ==> r[i].key == d[i].key
    ensures Get(r, k) == v
  {
    if |d| == 0 then [Item(k, v)]
    else if d[0].key == k then [Item(k, v)] + d[1..]
    else
      var rest := Put(d[1..], k, v);
      var r := [d[0]] + rest;
      assert r[1..] == rest;
      r
  }

  /** Assigning to `k` leaves every other key's value as it was. */
  lemma {:induction false} PutKeepsOthers<K>(d: seq<Item<K>>, k: K, v: nat, other: K)
    requires other != k
    ensures Get(Put(d, k, v), other) == Get(d, other)
  {
    if |d| > 0 && d[0].key != k {
      PutKeepsOthers(d[1..], k, v, other);
      assert Put(d, k, v)[1..] == Put(d[1..], k, v);
    }
  }

  /** Assigning into a dict never creates a duplicate key. */
  lemma PutKeepsDistinct<K>(d: seq<Item<K>>, k: K, v: nat)
    requires Distinct(d)
    ensures Distinct(Put(d, k, v))
  {
    KeysHoldExactlyItemKeys(d, k);
  }

  /** In a dict without repeated keys, looking up an item's key finds that
      item's size. */
  lemma GetAt<K>(d: seq<Item<K>>, i: nat)
    requires Distinct(d)
    requires i < |d|
    ensures Get(d, d[i].key) == d[i].size
  {
    KeysHoldExactlyItemKeys(d, d[i].key);
    GetFindsItem(d, d[i].key);
  }

  /** `sum(d.values())`. */
  function Sum<K>(d: seq<Item<K>>): nat {
    if |d| == 0 then 0 else d[0].size + Sum(d[1..])
  }

  /** Storing `v` under `k` replaces exactly the size `k` had before. */
  lemma {:induction false} PutSum<K>(d: seq<Item<K>>, k: K, v: nat)
    ensures Sum(Put(d, k, v)) + Get(d, k) == Sum(d) + v
  {
    if |d| == 0 {
    } else if d[0].key == k {
      assert Put(d, k, v)[1..] == d[1..];
    } else {
      PutSum(d[1..], k, v);
      assert Put(d, k, v)[1..] == Put(d[1..], k, v);
    }
  }

  /** No single value exceeds the sum of all values. */
  lemma {:induction false} SizeAtMostSum<K>(d: seq<Item<K>>, i: nat)
    requires i < |d|
    ensures d[i].size <= Sum(d)
  {
    if i > 0 {
      SizeAtMostSum(d[1..], i - 1);
    }
  }

  /** Whatever `d.get(k, 0)` returns is at most the sum of all values. */
  lemma GetAtMostSum<K>(d: seq<Item<K>>, k: K)
    ensures Get(d, k) <= Sum(d)
  {
    if k in Keys(d) {
      GetFindsItem(d, k);
      var i :| 0 <= i < |d| && d[i] == Item(k, Get(d, k));
      SizeAtMostSum(d, i);
    }
  }

  /** Item `i` is the first of greatest size, the one Python's `max` picks. */
  ghost predicate FirstLargest<K>(d: seq<Item<K>>, i: int) {
    && 0 <= i < |d|
    && (forall j :: 0 <= j < |d| ==> d[j].size <= d[i].size)
    && (forall j :: 0 <= j < i ==> d[j].size < d[i].size)
  }

  /** `max(d, key=lambda k: d[k])` as a position: Python keeps the first
      item of greatest size, replacing its candidate only on a strictly
      larger one. */
  function ArgMax<K>(d: seq<Item<K>>): (i: nat)
    requires |d| > 0
    ensures FirstLargest(d, i)
  {
    if |d| == 1 then 0
    else
      var best := ArgMax(d[..|d| - 1]);
      if d[|d| - 1].size > d[best].size then |d| - 1 else best
  }
}
