/** Python dictionaries, which keep their keys in insertion order: assigning
    to an existing key replaces its value in place, a new key goes last. */
module Dicts {
  import opened Lists
  import opened Strings

  type Dict<K, V> = seq<(K, V)>

  /** `list(d.keys())`. */
  function Keys<K, V>(d: Dict<K, V>): seq<K> {
    seq(|d|, i requires 0 <= i < |d| => d[i].0)
  }

  /** `d.get(k)`. */
  function Get<K(==), V>(d: Dict<K, V>, k: K): Option<V> {
    if k in Keys(d) then Some(d[FirstIndex(Keys(d), k)].1) else None
  }

  /** `d[k] = v`, or `d.update({k: v})`. */
  function Put<K(==), V>(d: Dict<K, V>, k: K, v: V): Dict<K, V> {
    if k in Keys(d) then d[FirstIndex(Keys(d), k) := (k, v)] else d + [(k, v)]
  }

  /** A dictionary never holds a key twice. */
  ghost predicate Unique<K, V>(d: Dict<K, V>) {
    NoDup(Keys(d))
  }

  /** What `Put` answers for each key. */
  lemma PutGet<K(!new), V>(d: Dict<K, V>, k: K, v: V)
    ensures Get(Put(d, k, v), k) == Some(v)
    ensures forall j :: j != k ==> Get(Put(d, k, v), j) == Get(d, j)
  {
    PutSpec(d, k, v);
  }

  /** An assignment keeps the key order, adding a new key at the end, and
      changes what only that key maps to. */
  lemma PutSpec<K(!new), V>(d: Dict<K, V>, k: K, v: V)
    ensures Keys(Put(d, k, v)) == if k in Keys(d) then Keys(d) else Keys(d) + [k]
    ensures Get(Put(d, k, v), k) == Some(v)
    ensures forall j :: j != k ==> Get(Put(d, k, v), j) == Get(d, j)
  {
    var r := Put(d, k, v);
    if k in Keys(d) {
      var i := FirstIndex(Keys(d), k);
      assert Keys(r) == Keys(d);
    } else {
      assert Keys(r) == Keys(d) + [k];
    }
    forall j | j != k ensures Get(r, j) == Get(d, j) {
      if j in Keys(d) {
        FirstIndexPrefix(Keys(d), Keys(r), j);
      }
    }
  }

  /** The first occurrence of `x` in `s` is also its first occurrence in any
      list that agrees with `s` up to and including it. */
  lemma FirstIndexPrefix<T>(s: seq<T>, t: seq<T>, x: T)
    requires x in s && |s| <= |t|
    requires forall i :: 0 <= i < |s| && s[i] != x ==> t[i] != x
    requires t[FirstIndex(s, x)] == x
    ensures x in t && FirstIndex(t, x) == FirstIndex(s, x)
  {
  }

  /** An assignment adds no entry but the one assigned. */
  lemma PutEntries<K, V>(d: Dict<K, V>, k: K, v: V)
    ensures forall e :: e in Put(d, k, v) ==> e in d || e == (k, v)
  {
    if k in Keys(d) {
      var i := FirstIndex(Keys(d), k);
      forall e | e in Put(d, k, v) ensures e in d || e == (k, v) {
        var j :| 0 <= j < |d| && Put(d, k, v)[j] == e;
        if j != i {
          assert d[j] == e;
        }
      }
    }
  }

  lemma PutUnique<K(!new), V>(d: Dict<K, V>, k: K, v: V)
    requires Unique(d)
    ensures Unique(Put(d, k, v))
  {
    PutSpec(d, k, v);
    if k !in Keys(d) {
      NoDupConcat(Keys(d), [k]);
    }
  }

  /** In a dictionary without repeated keys, the value stored with a key is
      what `Get` finds. */
  lemma GetAt<K(!new), V>(d: Dict<K, V>, i: nat)
    requires Unique(d) && i < |d|
    ensures Get(d, d[i].0) == Some(d[i].1)
  {
    var ks := Keys(d);
    assert ks[i] == d[i].0;
    var j := FirstIndex(ks, d[i].0);
    assert j == i;
  }
}
