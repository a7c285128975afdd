/** Python's insertion-ordered `dict` keyed by strings, as a sequence of
    (key, value) entries with distinct keys. */
module Dicts {
  import opened Wrappers

  type Table<V> = seq<(string, V)>

  /** A dictionary from strings to strings. */
  type Dict = Table<string>

  /** Where `key` sits, or -1. */
  function IndexOf<V>(d: Table<V>, key: string): (j: int)
    ensures -1 <= j < |d|
    ensures j >= 0 ==> d[j].0 == key
    ensures j >= 0 ==> forall i :: 0 <= i < j ==> d[i].0 != key
    ensures j < 0 <==> forall i :: 0 <= i < |d| ==> d[i].0 != key
  {
    if d == [] then -1
    else if d[0].0 == key then 0
    else
      var j := IndexOf(d[1..], key);
      if j < 0 then -1 else j + 1
  }

  predicate DistinctKeys<V>(d: Table<V>) {
    forall i, j :: 0 <= i < j < |d| ==> d[i].0 != d[j].0
  }

  /** `d.get(key)`. */
  function Get<V>(d: Table<V>, key: string): (v: Option<V>)
    ensures v.Some? <==> exists i :: 0 <= i < |d| && d[i].0 == key
    ensures v.Some? ==> (key, v.value) in d
  {
    var j := IndexOf(d, key);
    if j < 0 then None else Some(d[j].1)
  }

  /** `d[key] = value`: a new key goes to the end, an existing key keeps its
      place and takes the new value. */
  function Put<V>(d: Table<V>, key: string, value: V): (r: Table<V>)
    requires DistinctKeys(d)
    ensures DistinctKeys(r)
    ensures IndexOf(d, key) < 0 ==> r == d + [(key, value)]
    ensures IndexOf(d, key) >= 0 ==> r == d[IndexOf(d, key) := (key, value)]
  {
    var j := IndexOf(d, key);
    if j < 0 then d + [(key, value)] else d[j := (key, value)]
  }

  /** `d.update(e)`: the entries of `e` put one by one, in order. */
  function Update<V>(d: Table<V>, e: Table<V>): (r: Table<V>)
    requires DistinctKeys(d)
    ensures DistinctKeys(r)
    decreases |e|
  {
    if e == [] then d else Update(Put(d, e[0].0, e[0].1), e[1..])
  }

  lemma IndexOfIs<V>(d: Table<V>, key: string, j: nat)
    requires j < |d| && d[j].0 == key
    requires forall i :: 0 <= i < j ==> d[i].0 != key
    ensures IndexOf(d, key) == j
  {
  }

  /** After `d[key] = value`, `key` reads `value` and every other key reads what
      it read before. */
  lemma GetPut<V>(d: Table<V>, key: string, value: V, k: string)
    requires DistinctKeys(d)
    ensures Get(Put(d, key, value), k) == if k == key then Some(value) else Get(d, k)
  {
    var j := IndexOf(d, key);
    var r := Put(d, key, value);
    if k == key {
      if j < 0 {
        IndexOfIs(r, k, |d|);
      } else {
        IndexOfIs(r, k, j);
      }
    } else {
      var i := IndexOf(d, k);
      if i >= 0 {
        IndexOfIs(r, k, i);
      } else {
        assert forall n :: 0 <= n < |r| ==> r[n].0 != k by {
          forall n | 0 <= n < |r| ensures r[n].0 != k {
            if n < |d| && n != j {
              assert r[n] == d[n];
            }
          }
        }
      }
    }
  }

  /** After `d.update(e)` a key reads its value in `e` when `e` has it, and its
      old value otherwise. */
  lemma {:induction false} GetUpdate<V>(d: Table<V>, e: Table<V>, k: string)
    requires DistinctKeys(d) && DistinctKeys(e)
    ensures Get(Update(d, e), k) == if Get(e, k).Some? then Get(e, k) else Get(d, k)
    decreases |e|
  {
    if e != [] {
      var d' := Put(d, e[0].0, e[0].1);
      GetUpdate(d', e[1..], k);
      GetPut(d, e[0].0, e[0].1, k);
      if k == e[0].0 {
        IndexOfIs(e, k, 0);
        assert forall i :: 0 <= i < |e[1..]| ==> e[1..][i].0 != k by {
          forall i | 0 <= i < |e[1..]| ensures e[1..][i].0 != k {
            assert e[1..][i] == e[i + 1];
          }
        }
      } else {
        assert Get(e, k) == Get(e[1..], k) by {
          var j := IndexOf(e, k);
          if j >= 0 {
            IndexOfIs(e[1..], k, j - 1);
          } else {
            assert forall i :: 0 <= i < |e[1..]| ==> e[1..][i].0 != k by {
              forall i | 0 <= i < |e[1..]| ensures e[1..][i].0 != k {
                assert e[1..][i] == e[i + 1];
              }
            }
          }
        }
      }
    }
  }
}
