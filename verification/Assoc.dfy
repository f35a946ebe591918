/** Insertion-ordered dictionaries: Python's `dict` as a sequence of entries with distinct keys. */
module Assoc {
  import opened Prelude

  datatype Entry<+V> = Entry(key: string, value: V)

  function IndexOfKey<V>(d: seq<Entry<V>>, k: string): (i: nat)
    ensures i <= |d|
    ensures forall j :: 0 <= j < i ==> d[j].key != k
    ensures i < |d| ==> d[i].key == k
  {
    if d == [] || d[0].key == k then 0 else 1 + IndexOfKey(d[1..], k)
  }

  predicate Has<V>(d: seq<Entry<V>>, k: string) {
    IndexOfKey(d, k) < |d|
  }

  function Get<V>(d: seq<Entry<V>>, k: string): Option<V> {
    var i := IndexOfKey(d, k);
    if i == |d| then None else Some(d[i].value)
  }

  /** Assignment: an existing key keeps its place, a new one goes last. */
  function Put<V>(d: seq<Entry<V>>, k: string, v: V): seq<Entry<V>> {
    var i := IndexOfKey(d, k);
    if i == |d| then d + [Entry(k, v)] else d[i := Entry(k, v)]
  }

  ghost predicate DistinctKeys<V>(d: seq<Entry<V>>) {
    forall i, j :: 0 <= i < j < |d| ==> d[i].key != d[j].key
  }

  /** The keys in order. */
  function Keys<V>(d: seq<Entry<V>>): (r: seq<string>)
    ensures |r| == |d|
    ensures forall i :: 0 <= i < |d| ==> r[i] == d[i].key
  {
    seq(|d|, i requires 0 <= i < |d| => d[i].key)
  }

  /** A dictionary is its keys in order and what it holds for each. */
  lemma SameDictionary<V>(a: seq<Entry<V>>, b: seq<Entry<V>>)
    requires DistinctKeys(a) && Keys(a) == Keys(b) && forall k :: Get(a, k) == Get(b, k)
    ensures a == b
  {
    assert |a| == |Keys(a)| == |Keys(b)| == |b|;
    forall i | 0 <= i < |a|
      ensures a[i] == b[i]
    {
      assert b[i].key == Keys(b)[i] == Keys(a)[i] == a[i].key;
      assert forall j :: 0 <= j < i ==> b[j].key == Keys(b)[j] == Keys(a)[j] == a[j].key;
      IndexIs(a, a[i].key, i);
      IndexIs(b, a[i].key, i);
      assert Get(a, a[i].key) == Get(b, a[i].key);
    }
  }

  /** The index is the only position that can hold the key, when the keys before it differ. */
  lemma IndexIs<V>(d: seq<Entry<V>>, k: string, i: nat)
    requires i <= |d|
    requires forall j :: 0 <= j < i ==> d[j].key != k
    requires i < |d| ==> d[i].key == k
    ensures IndexOfKey(d, k) == i
  {
  }

  lemma PutProperties<V>(d: seq<Entry<V>>, k: string, v: V)
    ensures Get(Put(d, k, v), k) == Some(v)
    ensures forall x :: x != k ==> Get(Put(d, k, v), x) == Get(d, x)
    ensures DistinctKeys(d) ==> DistinctKeys(Put(d, k, v))
  {
    var i := IndexOfKey(d, k);
    var p := Put(d, k, v);
    IndexIs(p, k, i);
    forall x | x != k
      ensures Get(p, x) == Get(d, x)
    {
      var j := IndexOfKey(d, x);
      IndexIs(p, x, if j < |d| then j else |p|);
    }
  }

  lemma TailLookup<V>(d: seq<Entry<V>>, k: string)
    requires d != [] && d[0].key != k
    ensures Has(d, k) == Has(d[1..], k) && Get(d, k) == Get(d[1..], k)
  {
  }

  lemma PutKeys<V>(d: seq<Entry<V>>, k: string, v: V)
    ensures Keys(Put(d, k, v)) == if Has(d, k) then Keys(d) else Keys(d) + [k]
  {
  }

  /** `del`: the other entries close up. */
  function Remove<V>(d: seq<Entry<V>>, k: string): seq<Entry<V>>
    requires Has(d, k)
  {
    d[..IndexOfKey(d, k)] + d[IndexOfKey(d, k) + 1..]
  }

  lemma RemoveShape<V>(d: seq<Entry<V>>, k: string)
    requires Has(d, k)
    ensures |Remove(d, k)| == |d| - 1
    ensures forall j :: 0 <= j < |d| - 1 ==> Remove(d, k)[j] == if j < IndexOfKey(d, k) then d[j] else d[j + 1]
  {
  }

  lemma RemoveKeys<V>(d: seq<Entry<V>>, k: string)
    requires Has(d, k)
    ensures Keys(Remove(d, k)) == Keys(d)[..IndexOfKey(d, k)] + Keys(d)[IndexOfKey(d, k) + 1..]
  {
    RemoveShape(d, k);
    hide Remove, IndexOfKey, Keys;
  }

  lemma RemoveLookup<V>(d: seq<Entry<V>>, k: string, x: string)
    requires DistinctKeys(d) && Has(d, k)
    ensures Get(Remove(d, k), x) == if x == k then None else Get(d, x)
  {
    RemoveShape(d, k);
    hide Remove, Keys;
    var i, j, r := IndexOfKey(d, k), IndexOfKey(d, x), Remove(d, k);
    var m := if x == k || j == |d| then |r| else if j < i then j else j - 1;
    assert d[i].key == k && (j < |d| ==> d[j].key == x) && |r| == |d| - 1 && m <= |r|;
    forall q | 0 <= q < m
      ensures r[q].key != x
    {
      if q < i {
        assert r[q] == d[q];
      } else {
        assert r[q] == d[q + 1];
      }
    }
    IndexIs(r, x, m);
  }

  lemma RemoveProperties<V>(d: seq<Entry<V>>, k: string)
    requires DistinctKeys(d) && Has(d, k)
    ensures DistinctKeys(Remove(d, k)) && Get(Remove(d, k), k) == None
    ensures forall x :: x != k ==> Get(Remove(d, k), x) == Get(d, x)
    ensures Keys(Remove(d, k)) == Keys(d)[..IndexOfKey(d, k)] + Keys(d)[IndexOfKey(d, k) + 1..]
  {
    RemoveKeys(d, k);
    RemoveShape(d, k);
    hide Remove, Get, Keys, IndexOfKey;
    forall x
      ensures Get(Remove(d, k), x) == if x == k then None else Get(d, x)
    {
      RemoveLookup(d, k, x);
    }
  }
}
