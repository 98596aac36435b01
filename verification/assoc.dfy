/**
 Insertion-ordered association lists, standing in for Python dictionaries.

 A Python `dict` remembers the order in which keys were first inserted, and
 assigning to an existing key keeps that key's position. `Put` below does the
 same: it overwrites in place when the key is present and appends otherwise.
 */
module Assoc {
  import opened Seqs

  datatype Option<+T> = None | Some(value: T)

  type Assoc<K, V> = seq<(K, V)>

  /** `d.keys()`, in insertion order. */
  function Keys<K, V>(m: Assoc<K, V>): (r: seq<K>)
    ensures |r| == |m|
    ensures forall i :: 0 <= i < |m| ==> r[i] == m[i].0
  {
    seq(|m|, i requires 0 <= i < |m| => m[i].0)
  }

  /** The invariant every Python dictionary keeps: no key twice. */
  predicate UniqueKeys<K(==), V>(m: Assoc<K, V>) {
    NoDup(Keys(m))
  }

  /** `d.get(k)`: the value stored under `k`, if any. */
  function Get<K(==), V>(m: Assoc<K, V>, k: K): (r: Option<V>)
    ensures r.Some? <==> k in Keys(m)
    ensures r.Some? ==> (k, r.value) in m
  {
    if k in Keys(m) then
      var i := FirstIndex(Keys(m), k);
      Some(m[i].1)
    else None
  }

  /** `d.get(k, default)`. */
  function GetOr<K(==), V>(m: Assoc<K, V>, k: K, default: V): (r: V)
    ensures k !in Keys(m) ==> r == default
    ensures k in Keys(m) ==> Get(m, k) == Some(r)
  {
    match Get(m, k)
    case Some(v) => v
    case None => default
  }

  /** `d[k] = v`: overwrites in place when `k` is present, appends otherwise. */
  function Put<K(==,!new), V>(m: Assoc<K, V>, k: K, v: V): (r: Assoc<K, V>)
    ensures Keys(r) == AppendUnique(Keys(m), k)
    ensures Get(r, k) == Some(v)
    ensures forall k' :: k' != k ==> Get(r, k') == Get(m, k')
    ensures UniqueKeys(m) ==> UniqueKeys(r)
  {
    if k in Keys(m) then
      var i := FirstIndex(Keys(m), k);
      var r := m[i := (k, v)];
      assert Keys(r) == Keys(m);
      forall k' | k' != k && k' in Keys(m)
        ensures Get(r, k') == Get(m, k')
      {
        var j := FirstIndex(Keys(m), k');
        assert j != i;
      }
      r
    else
      var r := m + [(k, v)];
      assert Keys(r) == Keys(m) + [k];
      forall k' | k' in Keys(m)
        ensures Get(r, k') == Get(m, k')
      {
        FirstIndexAppend(Keys(m), k, k');
      }
      FirstIndexUnique(Keys(r), k, |m|);
      r
  }

  /** With unique keys, looking up a key finds exactly the pair stored for it. */
  lemma GetIffPair<K, V>(m: Assoc<K, V>, k: K, v: V)
    requires UniqueKeys(m)
    ensures Get(m, k) == Some(v) <==> (k, v) in m
  {
    if (k, v) in m {
      var i :| 0 <= i < |m| && m[i] == (k, v);
      assert Keys(m)[i] == k;
      var f := FirstIndex(Keys(m), k);
      assert Keys(m)[f] == Keys(m)[i];
    }
  }

  /** Looking a key up, with a default, after `d[k] = v`. */
  lemma GetOrPut<K(!new), V>(m: Assoc<K, V>, k: K, v: V, k': K, default: V)
    ensures GetOr(Put(m, k, v), k', default) == if k' == k then v else GetOr(m, k', default)
  {
    var r := Put(m, k, v);
    if k' != k {
      assert Get(r, k') == Get(m, k');
    }
  }

  /** Looking a key up after a new pair has been appended. */
  lemma GetAppend<K, V>(m: Assoc<K, V>, k: K, v: V, k': K)
    ensures Get(m + [(k, v)], k') ==
              if k' in Keys(m) then Get(m, k') else if k' == k then Some(v) else None
  {
    var r := m + [(k, v)];
    assert Keys(r) == Keys(m) + [k];
    if k' in Keys(m) {
      FirstIndexAppend(Keys(m), k, k');
    } else if k' == k {
      FirstIndexUnique(Keys(r), k, |m|);
    }
  }

  /** Overwriting the value of the most recently appended key. */
  lemma PutLast<K(!new), V>(m: Assoc<K, V>, k: K, v: V, v': V)
    requires k !in Keys(m)
    ensures Put(m + [(k, v)], k, v') == m + [(k, v')]
  {
    var r := m + [(k, v)];
    assert Keys(r) == Keys(m) + [k];
    FirstIndexUnique(Keys(r), k, |m|);
  }

  /** Dropping the last pair keeps the keys unique, and the last key is new. */
  lemma UniqueKeysLast<K, V>(m: Assoc<K, V>)
    requires m != [] && UniqueKeys(m)
    ensures UniqueKeys(m[..|m| - 1])
    ensures m[|m| - 1].0 !in Keys(m[..|m| - 1])
  {
    var m' := m[..|m| - 1];
    assert Keys(m) == Keys(m') + [m[|m| - 1].0];
  }
}
