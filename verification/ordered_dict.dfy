/**
 * A Python `defaultdict(list)` as the pipeline uses it: keys kept in first-insertion
 * order, each mapped to the list of values appended under it, read back through
 * `.values()` in that order. Modelled as an association list with distinct keys.
 */
module OrderedDict {

  datatype Bucket<K, V> = Bucket(key: K, items: seq<V>)

  type Dict<K, V> = seq<Bucket<K, V>>

  /** No list in the dictionary is empty: a key only appears together with a value. */
  predicate NoEmptyList<K, V>(d: Dict<K, V>)
  {
    forall i :: 0 <= i < |d| ==> d[i].items != []
  }

  predicate DistinctKeys<K(==), V>(d: Dict<K, V>)
  {
    forall i, j :: 0 <= i < j < |d| ==> d[i].key != d[j].key
  }

  /** Position of key `k`, or -1 when `k` was never inserted. */
  function Find<K(==), V>(d: Dict<K, V>, k: K): (i: int)
    ensures -1 <= i < |d|
    ensures i >= 0 ==> d[i].key == k
    ensures i < 0 ==> forall j :: 0 <= j < |d| ==> d[j].key != k
    decreases |d|
  {
    if d == [] then -1
    else if d[|d| - 1].key == k then |d| - 1
    else Find(d[..|d| - 1], k)
  }

  /** `d[k]` on a defaultdict that is only read: the list under `k`, empty if there is none. */
  function Lookup<K(==), V>(d: Dict<K, V>, k: K): seq<V>
  {
    var i := Find(d, k);
    if i < 0 then [] else d[i].items
  }

  lemma LookupAt<K, V>(d: Dict<K, V>, i: nat)
    requires DistinctKeys(d) && i < |d|
    ensures Lookup(d, d[i].key) == d[i].items
  {
  }

  /**
   * `d[k].append(v)`: an existing key keeps its place and its list grows by `v`;
   * a new key goes after all existing ones with the list `[v]`.
   */
  function Append<K(==), V>(d: Dict<K, V>, k: K, v: V): (r: Dict<K, V>)
    requires DistinctKeys(d)
    ensures DistinctKeys(r)
    ensures NoEmptyList(d) ==> NoEmptyList(r)
    ensures |r| == (if Find(d, k) >= 0 then |d| else |d| + 1)
  {
    var i := Find(d, k);
    if i >= 0 then d[i := Bucket(k, d[i].items + [v])] else d + [Bucket(k, [v])]
  }

  /** `d[k].append(v)` keeps every existing key in its place and puts a new key last. */
  lemma AppendKeys<K, V>(d: Dict<K, V>, k: K, v: V)
    requires DistinctKeys(d)
    ensures forall i :: 0 <= i < |d| ==> Append(d, k, v)[i].key == d[i].key
    ensures Find(d, k) < 0 ==> Append(d, k, v)[|d|].key == k
  {
  }

  /** After `d[k].append(v)` the list under `k` has grown by `v` and every other list is unchanged. */
  lemma AppendLookup<K, V>(d: Dict<K, V>, k: K, v: V, k': K)
    requires DistinctKeys(d)
    ensures Lookup(Append(d, k, v), k') == if k' == k then Lookup(d, k) + [v] else Lookup(d, k')
  {
    var r := Append(d, k, v);
    var i := Find(d, k);
    if k' == k {
      if i >= 0 { LookupAt(r, i); } else { LookupAt(r, |d|); }
    } else {
      var j := Find(d, k');
      if j >= 0 {
        LookupAt(r, j);
      } else {
        assert forall t :: 0 <= t < |r| ==> r[t].key != k';
      }
    }
  }

  /** The values stored under key `k` by a sequence of insertions, in insertion order. */
  function Members<K(==), V>(entries: seq<(K, V)>, k: K): seq<V>
    decreases |entries|
  {
    if entries == [] then []
    else
      var n := |entries| - 1;
      Members(entries[..n], k) + (if entries[n].0 == k then [entries[n].1] else [])
  }

  lemma MembersSnoc<K, V>(entries: seq<(K, V)>, e: (K, V), k: K)
    ensures Members(entries + [e], k) == Members(entries, k) + (if e.0 == k then [e.1] else [])
  {
    assert (entries + [e])[..|entries|] == entries;
  }

  /** Position of the first entry inserted under `k`, or -1 when there is none. */
  function FirstIndex<K(==), V>(entries: seq<(K, V)>, k: K): (r: int)
    ensures -1 <= r < |entries|
    ensures r >= 0 ==> entries[r].0 == k && forall j :: 0 <= j < r ==> entries[j].0 != k
    ensures r < 0 ==> forall j :: 0 <= j < |entries| ==> entries[j].0 != k
    decreases |entries|
  {
    if entries == [] then -1
    else
      var n := |entries| - 1;
      var f := FirstIndex(entries[..n], k);
      if f >= 0 then f else if entries[n].0 == k then n else -1
  }

  /** The dictionary built by `d[key].append(value)` for each entry in turn. */
  function GroupBy<K(==), V>(entries: seq<(K, V)>): (d: Dict<K, V>)
    ensures DistinctKeys(d) && NoEmptyList(d)
    ensures |d| <= |entries|
    decreases |entries|
  {
    if entries == [] then []
    else
      var n := |entries| - 1;
      Append(GroupBy(entries[..n]), entries[n].0, entries[n].1)
  }

  lemma GroupBySnoc<K, V>(entries: seq<(K, V)>, e: (K, V))
    ensures GroupBy(entries + [e]) == Append(GroupBy(entries), e.0, e.1)
  {
    assert (entries + [e])[..|entries|] == entries;
  }

  /** The list under any key is exactly the values inserted under that key, in insertion order. */
  lemma {:induction false} GroupByLookup<K, V>(entries: seq<(K, V)>, k: K)
    ensures Lookup(GroupBy(entries), k) == Members(entries, k)
    decreases |entries|
  {
    if entries != [] {
      var n := |entries| - 1;
      GroupByLookup(entries[..n], k);
      AppendLookup(GroupBy(entries[..n]), entries[n].0, entries[n].1, k);
    }
  }

  /** A key has a list exactly when some entry was inserted under it. */
  lemma GroupByHasKey<K, V>(entries: seq<(K, V)>, k: K)
    ensures Find(GroupBy(entries), k) >= 0 <==> Members(entries, k) != []
  {
    GroupByLookup(entries, k);
  }

  /**
   * `.values()` order: every inserted key has a bucket, and bucket `i` comes before
   * bucket `j` exactly when the key of `i` was first inserted before the key of `j`.
   */
  lemma {:induction false} GroupByOrder<K, V>(entries: seq<(K, V)>)
    ensures forall k :: FirstIndex(entries, k) >= 0 ==> Find(GroupBy(entries), k) >= 0
    ensures forall i :: 0 <= i < |GroupBy(entries)| ==> FirstIndex(entries, GroupBy(entries)[i].key) >= 0
    ensures forall i, j :: 0 <= i < |GroupBy(entries)| && 0 <= j < |GroupBy(entries)| ==>
      (i < j <==> FirstIndex(entries, GroupBy(entries)[i].key) < FirstIndex(entries, GroupBy(entries)[j].key))
    decreases |entries|
  {
    if entries != [] {
      var n := |entries| - 1;
      var pre, e := entries[..n], entries[n];
      GroupByOrder(pre);
      assert pre + [e] == entries;
      GroupBySnoc(pre, e);
      FirstIndexSnoc(pre, e);
      OrderKeysStep(pre, e);
      OrderStep(pre, e);
    }
  }

  /** One more entry leaves every earlier first position where it was. */
  lemma FirstIndexSnoc<K, V>(pre: seq<(K, V)>, e: (K, V))
    ensures forall k :: FirstIndex(pre, k) >= 0 ==> FirstIndex(pre + [e], k) == FirstIndex(pre, k)
    ensures FirstIndex(pre, e.0) < 0 ==> FirstIndex(pre + [e], e.0) == |pre|
  {
    assert (pre + [e])[..|pre|] == pre;
  }

  /** One more entry keeps every inserted key in the dictionary. */
  lemma OrderKeysStep<K, V>(pre: seq<(K, V)>, e: (K, V))
    requires forall k :: FirstIndex(pre, k) >= 0 ==> Find(GroupBy(pre), k) >= 0
    ensures forall k :: FirstIndex(pre + [e], k) >= 0 ==> Find(GroupBy(pre + [e]), k) >= 0
  {
    GroupBySnoc(pre, e);
    FirstIndexSnoc(pre, e);
    AppendKeys(GroupBy(pre), e.0, e.1);
    var d0, d := GroupBy(pre), GroupBy(pre + [e]);
    forall k | FirstIndex(pre + [e], k) >= 0
      ensures Find(d, k) >= 0
    {
      if FirstIndex(pre, k) >= 0 {
        assert d[Find(d0, k)].key == k;
      } else {
        assert k == e.0;
        if Find(d0, k) >= 0 {
          assert d[Find(d0, k)].key == k;
        } else {
          assert d[|d0|].key == k;
        }
      }
    }
  }

  /** One more entry keeps the buckets in first-insertion order. */
  lemma OrderStep<K, V>(pre: seq<(K, V)>, e: (K, V))
    requires forall k :: FirstIndex(pre, k) >= 0 ==> Find(GroupBy(pre), k) >= 0
    requires forall i :: 0 <= i < |GroupBy(pre)| ==> FirstIndex(pre, GroupBy(pre)[i].key) >= 0
    requires forall i, j :: 0 <= i < |GroupBy(pre)| && 0 <= j < |GroupBy(pre)| ==>
      (i < j <==> FirstIndex(pre, GroupBy(pre)[i].key) < FirstIndex(pre, GroupBy(pre)[j].key))
    ensures forall i :: 0 <= i < |GroupBy(pre + [e])| ==> FirstIndex(pre + [e], GroupBy(pre + [e])[i].key) >= 0
    ensures forall i, j :: 0 <= i < |GroupBy(pre + [e])| && 0 <= j < |GroupBy(pre + [e])| ==>
      (i < j <==> FirstIndex(pre + [e], GroupBy(pre + [e])[i].key) < FirstIndex(pre + [e], GroupBy(pre + [e])[j].key))
  {
    GroupBySnoc(pre, e);
    FirstIndexSnoc(pre, e);
    AppendKeys(GroupBy(pre), e.0, e.1);
    var d0, d := GroupBy(pre), GroupBy(pre + [e]);
    forall i | 0 <= i < |d0|
      ensures d[i].key == d0[i].key
      ensures FirstIndex(pre + [e], d[i].key) == FirstIndex(pre, d0[i].key) < |pre|
    {
    }
    if Find(d0, e.0) < 0 {
      assert FirstIndex(pre, e.0) < 0;
      assert d[|d0|].key == e.0;
    }
  }

  /** Every list of a grouped dictionary sits under its own key and is not empty. */
  lemma GroupByAt<K, V>(entries: seq<(K, V)>, i: nat)
    requires i < |GroupBy(entries)|
    ensures GroupBy(entries)[i].items == Members(entries, GroupBy(entries)[i].key)
    ensures GroupBy(entries)[i].items != []
  {
    var d := GroupBy(entries);
    LookupAt(d, i);
    GroupByLookup(entries, d[i].key);
    GroupByHasKey(entries, d[i].key);
  }
}
