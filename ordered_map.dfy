/**
 * The JavaScript `Map<string, V>` the source builds its groupings in, as an
 * association list in insertion order. `set` on a present key overwrites the
 * value in place (the key keeps its position); `set` on a new key appends.
 */
module OrderedMap {

  import opened Wrappers

  datatype Entry<V> = Entry(key: string, value: V)

  /** `Array.from(map.keys())`. */
  function Keys<V>(m: seq<Entry<V>>): (r: seq<string>)
    ensures |r| == |m|
    ensures forall i :: 0 <= i < |m| ==> r[i] == m[i].key
  {
    seq(|m|, i requires 0 <= i < |m| => m[i].key)
  }

  /** Every key occurs once, as in a JavaScript `Map`. */
  predicate DistinctKeys<V>(m: seq<Entry<V>>)
  {
    forall i, j :: 0 <= i < j < |m| ==> m[i].key != m[j].key
  }

  /** The position of the entry with key `k`, or `|m|` when there is none. */
  function IndexOf<V>(m: seq<Entry<V>>, k: string): (r: nat)
    ensures r <= |m|
    ensures r < |m| ==> m[r].key == k
    ensures forall j :: 0 <= j < r ==> m[j].key != k
  {
    if m == [] then 0
    else if m[0].key == k then 0
    else 1 + IndexOf(m[1..], k)
  }

  /** `map.get(k)`. */
  function Get<V>(m: seq<Entry<V>>, k: string): Option<V>
  {
    var i := IndexOf(m, k);
    if i < |m| then Some(m[i].value) else None
  }

  /** `map.set(k, v)`: overwrite the entry of `k` where it stands, or append a new one. */
  function Set<V>(m: seq<Entry<V>>, k: string, v: V): seq<Entry<V>>
  {
    var i := IndexOf(m, k);
    if i < |m| then m[i := Entry(k, v)] else m + [Entry(k, v)]
  }

  /** In a map with distinct keys, an entry's key finds that entry. */
  lemma IndexOfDistinct<V>(m: seq<Entry<V>>, i: nat)
    requires DistinctKeys(m) && i < |m|
    ensures IndexOf(m, m[i].key) == i
  {
  }

  /** `set` keeps the keys distinct and keeps them in first-insertion order. */
  lemma SetKeys<V>(m: seq<Entry<V>>, k: string, v: V)
    requires DistinctKeys(m)
    ensures DistinctKeys(Set(m, k, v))
    ensures Keys(Set(m, k, v)) == if k in Keys(m) then Keys(m) else Keys(m) + [k]
  {
    var i := IndexOf(m, k);
    if i < |m| {
      assert Keys(Set(m, k, v)) == Keys(m);
    } else {
      assert k !in Keys(m);
      assert Keys(Set(m, k, v)) == Keys(m) + [k];
    }
  }

  /** The map laws: after `set(k, v)`, `get(k)` is `v` and every other key reads as before. */
  lemma GetSet<V>(m: seq<Entry<V>>, k: string, v: V, k': string)
    requires DistinctKeys(m)
    ensures Get(Set(m, k, v), k') == if k' == k then Some(v) else Get(m, k')
  {
    if k' == k {
      GetSetSame(m, k, v);
    } else {
      GetSetOther(m, k, v, k');
    }
  }

  lemma GetSetSame<V>(m: seq<Entry<V>>, k: string, v: V)
    requires DistinctKeys(m)
    ensures Get(Set(m, k, v), k) == Some(v)
  {
    SetKeys(m, k, v);
    var i := IndexOf(m, k);
    if i == |m| {
      IndexOfDistinct(Set(m, k, v), |m|);
    } else {
      IndexOfDistinct(Set(m, k, v), i);
    }
  }

  lemma GetSetOther<V>(m: seq<Entry<V>>, k: string, v: V, k': string)
    requires DistinctKeys(m) && k' != k
    ensures Get(Set(m, k, v), k') == Get(m, k')
  {
    var r := Set(m, k, v);
    SetKeys(m, k, v);
    var l := IndexOf(m, k');
    if l < |m| {
      IndexOfDistinct(r, l);
    } else {
      assert forall j :: 0 <= j < |r| ==> r[j].key != k';
    }
  }

  /** Every value transformed by `f`, keys and order kept. */
  function MapValues<V, W>(m: seq<Entry<V>>, f: V -> W): (r: seq<Entry<W>>)
    ensures |r| == |m|
    ensures forall i :: 0 <= i < |m| ==> r[i] == Entry(m[i].key, f(m[i].value))
  {
    seq(|m|, i requires 0 <= i < |m| => Entry(m[i].key, f(m[i].value)))
  }

  lemma {:induction false} IndexOfMapValues<V, W>(m: seq<Entry<V>>, f: V -> W, k: string)
    ensures IndexOf(MapValues(m, f), k) == IndexOf(m, k)
  {
    if m != [] && m[0].key != k {
      IndexOfMapValues(m[1..], f, k);
      assert MapValues(m, f)[1..] == MapValues(m[1..], f);
    }
  }

  /** Transforming the values commutes with `get` and with `set`. */
  lemma MapValuesGetSet<V, W>(m: seq<Entry<V>>, f: V -> W, k: string, v: V)
    ensures Get(MapValues(m, f), k) == if Get(m, k).Some? then Some(f(Get(m, k).value)) else None
    ensures MapValues(Set(m, k, v), f) == Set(MapValues(m, f), k, f(v))
  {
    IndexOfMapValues(m, f, k);
    var i := IndexOf(m, k);
    if i < |m| {
      assert MapValues(Set(m, k, v), f) == MapValues(m, f)[i := Entry(k, f(v))];
    } else {
      assert MapValues(Set(m, k, v), f) == MapValues(m, f) + [Entry(k, f(v))];
    }
  }
}
