/** An insertion-ordered dictionary, as Python's `dict` behaves: assigning to a
    new key appends it at the end, assigning to an existing key keeps its
    position, and deleting a key drops it from the order. The order is
    observable in the task scheduler (it breaks ties in the ready list and
    seeds the topological sort's queue), so it is modelled, not abstracted. */
module PyDict {
  import opened Seqs
  import opened Outcomes

  datatype Entries<V> = Entries(keys: seq<string>, values: map<string, V>)

  /** The key order lists every key of the map exactly once. */
  ghost predicate WellFormed<V>(e: Entries<V>)
  {
    && Distinct(e.keys)
    && forall k :: k in e.values <==> k in e.keys
  }

  type Dict<V> = e: Entries<V> | WellFormed(e) witness Entries([], map[])

  function Empty<V>(): (d: Dict<V>)
    ensures d.values == map[] && d.keys == []
  {
    Entries([], map[])
  }

  /** `d.get(k)`. */
  function Get<V>(d: Dict<V>, k: string): (r: Option<V>)
    ensures r.Some? <==> k in d.values
    ensures r.Some? ==> r.value == d.values[k]
  {
    if k in d.values then Some(d.values[k]) else None
  }

  /** `d[k] = v`: a new key goes last, an existing key keeps its place. */
  function Put<V>(d: Dict<V>, k: string, v: V): (r: Dict<V>)
    ensures r.values == d.values[k := v]
    ensures k in d.values ==> r.keys == d.keys
    ensures k !in d.values ==> r.keys == d.keys + [k]
  {
    if k in d.values then Entries(d.keys, d.values[k := v])
    else
      var r := Entries(d.keys + [k], d.values[k := v]);
      assert Distinct(r.keys);
      r
  }

  /** `del d[k]` (a no-op here when `k` is absent; callers test first). */
  function Delete<V>(d: Dict<V>, k: string): (r: Dict<V>)
    ensures r.values == d.values - {k}
    ensures forall x :: x in r.keys <==> x in d.keys && x != k
    ensures k !in d.values ==> r == d
  {
    if k !in d.values then d
    else
      var i := FirstIndex(d.keys, k);
      var keys := d.keys[..i] + d.keys[i + 1..];
      DistinctCut(d.keys, i);
      Entries(keys, d.values - {k})
  }

  /** Deleting keeps the relative order of the surviving keys. */
  lemma DeleteKeepsOrder<V>(d: Dict<V>, k: string)
    requires k in d.values
    ensures exists i :: 0 <= i < |d.keys| && d.keys[i] == k && Delete(d, k).keys == d.keys[..i] + d.keys[i + 1..]
  {
    var i := FirstIndex(d.keys, k);
    var r := Delete(d, k);
    assert r.keys == d.keys[..i] + d.keys[i + 1..];
    assert 0 <= i < |d.keys| && d.keys[i] == k;
  }

  /** The key order is exactly as long as the map is large. */
  lemma SizeMatches<V>(d: Dict<V>)
    ensures |d.keys| == |d.values|
  {
    DistinctCover(d.keys, d.values.Keys);
  }
}
