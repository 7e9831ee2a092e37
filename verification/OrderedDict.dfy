/** Dictionaries that remember the order in which their keys were inserted, as
    Python's `dict` and `OrderedDict` do. */
module OrderedDict {

  datatype Entry<K, V> = Entry(key: K, value: V)

  type Dict<K, V> = seq<Entry<K, V>>

  predicate Distinct<K(==), V>(d: Dict<K, V>) {
    forall i, j | 0 <= i < j < |d| :: d[i].key != d[j].key
  }

  function IndexOf<K(==), V>(d: Dict<K, V>, k: K): (i: nat)
    ensures i <= |d|
    ensures forall j | 0 <= j < i :: d[j].key != k
    ensures i < |d| ==> d[i].key == k
  {
    if d == [] || d[0].key == k then 0 else 1 + IndexOf(d[1..], k)
  }

  predicate Has<K(==), V>(d: Dict<K, V>, k: K) {
    IndexOf(d, k) < |d|
  }

  function Get<K(==), V>(d: Dict<K, V>, k: K): V
    requires Has(d, k)
  {
    d[IndexOf(d, k)].value
  }

  /** `d[k] = v`: a key that is there keeps its place. */
  function Put<K(==), V>(d: Dict<K, V>, k: K, v: V): Dict<K, V> {
    var i := IndexOf(d, k);
    if i < |d| then d[i := Entry(k, v)] else d + [Entry(k, v)]
  }

  /** `del d[k]` */
  function Remove<K(==), V>(d: Dict<K, V>, k: K): Dict<K, V>
    requires Has(d, k)
  {
    var i := IndexOf(d, k);
    d[..i] + d[i + 1..]
  }

  /** `d.move_to_end(k)` */
  function MoveToEnd<K(==), V>(d: Dict<K, V>, k: K): Dict<K, V>
    requires Has(d, k)
  {
    Remove(d, k) + [Entry(k, Get(d, k))]
  }

  /** The key at place `i` is found there. */
  lemma AtIndex<K, V>(d: Dict<K, V>, i: nat)
    requires Distinct(d) && i < |d|
    ensures IndexOf(d, d[i].key) == i
  {}

  lemma PutEffect<K, V>(d: Dict<K, V>, k: K, v: V, j: K)
    ensures Distinct(d) ==> Distinct(Put(d, k, v))
    ensures Has(Put(d, k, v), j) <==> j == k || Has(d, j)
    ensures Has(Put(d, k, v), j) && Distinct(d) ==> Get(Put(d, k, v), j) == if j == k then v else Get(d, j)
    ensures |Put(d, k, v)| == |d| + if Has(d, k) then 0 else 1
  {
    var e, i := Put(d, k, v), IndexOf(d, k);
    if Has(d, j) && j != k {
      assert e[IndexOf(d, j)] == d[IndexOf(d, j)];
    }
    assert e[i] == Entry(k, v);
  }

  lemma RemoveEffect<K, V>(d: Dict<K, V>, k: K, j: K)
    requires Distinct(d) && Has(d, k)
    ensures Distinct(Remove(d, k)) && |Remove(d, k)| == |d| - 1
    ensures Has(Remove(d, k), j) <==> Has(d, j) && j != k
    ensures Has(Remove(d, k), j) ==> Get(Remove(d, k), j) == Get(d, j)
  {
    var e, i := Remove(d, k), IndexOf(d, k);
    assert forall n | 0 <= n < |e| :: e[n] == if n < i then d[n] else d[n + 1];
    if Has(d, j) && j != k {
      var n := IndexOf(d, j);
      assert if n < i then e[n] == d[n] else e[n - 1] == d[n];
    }
    if Has(e, j) {
      var n := IndexOf(e, j);
      AtIndex(d, if n < i then n else n + 1);
    }
  }

  lemma MoveEffect<K, V>(d: Dict<K, V>, k: K, j: K)
    requires Distinct(d) && Has(d, k)
    ensures Distinct(MoveToEnd(d, k)) && |MoveToEnd(d, k)| == |d|
    ensures Has(MoveToEnd(d, k), j) <==> Has(d, j)
    ensures Has(MoveToEnd(d, k), j) ==> Get(MoveToEnd(d, k), j) == Get(d, j)
  {
    RemoveEffect(d, k, j);
    RemoveEffect(d, k, k);
    var rest, v := Remove(d, k), Get(d, k);
    PutEffect(rest, k, v, j);
    assert Put(rest, k, v) == MoveToEnd(d, k);
  }

  /** The first entry is popped. */
  lemma PopEffect<K, V>(d: Dict<K, V>, j: K)
    requires Distinct(d) && d != []
    ensures Distinct(d[1..])
    ensures Has(d[1..], j) <==> Has(d, j) && j != d[0].key
    ensures Has(d[1..], j) ==> Get(d[1..], j) == Get(d, j)
  {
    AtIndex(d, 0);
    RemoveEffect(d, d[0].key, j);
    assert Remove(d, d[0].key) == d[1..];
  }
}
