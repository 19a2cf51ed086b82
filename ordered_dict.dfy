/**
 * A Python dict as the list of its items in insertion order: assigning to an
 * existing key keeps its place, a new key goes at the end.
 */
module OrderedDict {
  import opened Wrappers

  datatype Item<K, V> = Item(key: K, value: V)

  function Keys<K, V>(d: seq<Item<K, V>>): (ks: seq<K>)
    ensures |ks| == |d| && forall i :: 0 <= i < |d| ==> ks[i] == d[i].key
  {
    seq(|d|, i requires 0 <= i < |d| => d[i].key)
  }

  predicate DistinctKeys<K(==), V>(d: seq<Item<K, V>>) {
    forall i, j :: 0 <= i < j < |d| ==> d[i].key != d[j].key
  }

  /** Position of the first item with key `k`, or `|d|` when there is none. */
  function Find<K(==), V>(d: seq<Item<K, V>>, k: K): (i: nat)
    ensures i <= |d|
    ensures i < |d| ==> d[i].key == k
    ensures forall j :: 0 <= j < i ==> d[j].key != k
  {
    if d == [] then 0
    else if d[0].key == k then 0
    else 1 + Find(d[1..], k)
  }

  /** `d.get(k)`. */
  function Get<K(==), V>(d: seq<Item<K, V>>, k: K): (r: Option<V>)
    ensures r.None? <==> k !in Keys(d)
  {
    var i := Find(d, k);
    if i < |d| then Some(d[i].value) else None
  }

  /** With distinct keys, looking up the key of any item yields that item's value. */
  lemma GetAt<K, V>(d: seq<Item<K, V>>, i: int)
    requires DistinctKeys(d) && 0 <= i < |d|
    ensures Get(d, d[i].key) == Some(d[i].value)
  {
    var j := Find(d, d[i].key);
    assert j == i;
  }

  /** `d[k] = v`. */
  function Put<K(==), V>(d: seq<Item<K, V>>, k: K, v: V): (r: seq<Item<K, V>>)
    requires DistinctKeys(d)
    ensures DistinctKeys(r)
    ensures k in Keys(d) ==> Keys(r) == Keys(d)
    ensures k !in Keys(d) ==> Keys(r) == Keys(d) + [k]
  {
    var i := Find(d, k);
    if i < |d| then
      var r := d[i := Item(k, v)];
      assert Keys(r) == Keys(d);
      r
    else
      var r := d + [Item(k, v)];
      assert Keys(r) == Keys(d) + [k];
      r
  }

  /** After `d[k] = v`, `k` holds `v` and every other key keeps its value. */
  lemma PutGet<K, V>(d: seq<Item<K, V>>, k: K, v: V, k': K)
    requires DistinctKeys(d)
    ensures Get(Put(d, k, v), k') == if k' == k then Some(v) else Get(d, k')
  {
    var r := Put(d, k, v);
    var i := Find(d, k);
    if k' == k {
      if i < |d| { GetAt(r, i); } else { GetAt(r, |d|); }
    } else if k' in Keys(d) {
      var j := Find(d, k');
      assert r[j] == d[j];
      GetAt(d, j);
      GetAt(r, j);
    } else {
      assert k' !in Keys(r);
    }
  }

  /** The value the last item for `k` in `items` carries, if any. */
  function LastValue<K(==), V>(items: seq<Item<K, V>>, k: K): Option<V>
  {
    if items == [] then None
    else if items[|items| - 1].key == k then Some(items[|items| - 1].value)
    else LastValue(items[..|items| - 1], k)
  }

  /** `for item in items: d[item.key] = item.value`. */
  function PutAll<K(==), V>(d: seq<Item<K, V>>, items: seq<Item<K, V>>): (r: seq<Item<K, V>>)
    requires DistinctKeys(d)
    ensures DistinctKeys(r)
  {
    if items == [] then d
    else
      var last := items[|items| - 1];
      Put(PutAll(d, items[..|items| - 1]), last.key, last.value)
  }

  /** One more item assigns one more key. */
  lemma PutAllStep<K, V>(d: seq<Item<K, V>>, items: seq<Item<K, V>>, i: nat)
    requires DistinctKeys(d) && i < |items|
    ensures PutAll(d, items[..i + 1]) == Put(PutAll(d, items[..i]), items[i].key, items[i].value)
  {
    assert items[..i + 1][..i] == items[..i];
  }

  lemma {:induction false} PutAllKeys<K(!new), V>(d: seq<Item<K, V>>, items: seq<Item<K, V>>, k: K)
    requires DistinctKeys(d)
    ensures |d| <= |PutAll(d, items)| && Keys(PutAll(d, items))[..|d|] == Keys(d)
    ensures k in Keys(PutAll(d, items)) <==> k in Keys(d) || k in Keys(items)
  {
    if items != [] {
      var init := items[..|items| - 1];
      var last := items[|items| - 1];
      PutAllKeys(d, init, k);
      assert Keys(items) == Keys(init) + [last.key];
    }
  }

  lemma {:induction false} PutAllGet<K(!new), V>(d: seq<Item<K, V>>, items: seq<Item<K, V>>, k: K)
    requires DistinctKeys(d)
    ensures Get(PutAll(d, items), k) == if LastValue(items, k).Some? then LastValue(items, k) else Get(d, k)
  {
    if items != [] {
      var init := items[..|items| - 1];
      var last := items[|items| - 1];
      PutAllGet(d, init, k);
      PutGet(PutAll(d, init), last.key, last.value, k);
    }
  }

  /**
   * Assigning a batch of items keeps every earlier key in its place (new keys
   * follow them), holds exactly the old keys and the assigned ones, and maps
   * each assigned key to the last value assigned to it and every other key to
   * its old value.
   */
  lemma PutAllMeaning<K(!new), V>(d: seq<Item<K, V>>, items: seq<Item<K, V>>, k: K)
    requires DistinctKeys(d)
    ensures |d| <= |PutAll(d, items)| && Keys(PutAll(d, items))[..|d|] == Keys(d)
    ensures k in Keys(PutAll(d, items)) <==> k in Keys(d) || k in Keys(items)
    ensures Get(PutAll(d, items), k) == if LastValue(items, k).Some? then LastValue(items, k) else Get(d, k)
  {
    PutAllKeys(d, items, k);
    PutAllGet(d, items, k);
  }

  /** Assigning keys that are all new, and distinct, to an empty dict lists them in assignment order. */
  lemma {:induction false} PutAllFresh<K, V>(items: seq<Item<K, V>>)
    requires DistinctKeys(items)
    ensures PutAll([], items) == items
  {
    if items != [] {
      var init := items[..|items| - 1];
      var last := items[|items| - 1];
      PutAllFresh(init);
      assert last.key !in Keys(init);
      assert init + [last] == items;
    }
  }

  /** Assigning to keys the values they already hold leaves the dict as it was. */
  lemma {:induction false} PutAllUnchanged<K, V>(d: seq<Item<K, V>>, items: seq<Item<K, V>>)
    requires DistinctKeys(d)
    requires forall j :: 0 <= j < |items| ==> Get(d, items[j].key) == Some(items[j].value)
    ensures PutAll(d, items) == d
  {
    if items != [] {
      var last := items[|items| - 1];
      PutAllUnchanged(d, items[..|items| - 1]);
      var i := Find(d, last.key);
      assert d[i] == Item(last.key, last.value);
      assert d[i := Item(last.key, last.value)] == d;
    }
  }

  /** Assigning a dict's own items to it leaves it as it was. */
  lemma PutAllSelf<K, V>(d: seq<Item<K, V>>)
    requires DistinctKeys(d)
    ensures PutAll(d, d) == d
  {
    forall j | 0 <= j < |d|
      ensures Get(d, d[j].key) == Some(d[j].value)
    {
      GetAt(d, j);
    }
    PutAllUnchanged(d, d);
  }
}
