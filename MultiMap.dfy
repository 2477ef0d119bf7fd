/**
 * The multi-valued index the tree uses twice (`crate::multimap::MultiMap`):
 * a map from a key to a bucket of values. Its source is not part of this model;
 * it is modelled by the contract the tree relies on: `insert` adds a value to the
 * key's bucket unless it is already there, `remove` takes the value out of the
 * bucket (dropping a bucket that becomes empty), `get` returns the bucket or the
 * empty slice. Bucket order is not specified beyond what these functions do.
 */
module MultiMap {
  import opened Seqs

  /** Every stored bucket is non-empty and holds each value once. */
  ghost predicate Valid<K, V>(m: map<K, seq<V>>)
  {
    forall k :: k in m ==> m[k] != [] && NoDup(m[k])
  }

  /** `get`: the bucket of `k`, or the empty bucket. */
  function Get<K(==), V>(m: map<K, seq<V>>, k: K): seq<V>
  {
    if k in m then m[k] else []
  }

  /** `insert`: add `v` to the bucket of `k` if it is not already there. */
  function Insert<K(==,!new), V(==,!new)>(m: map<K, seq<V>>, k: K, v: V): (r: map<K, seq<V>>)
    ensures forall k', x :: x in Get(r, k') <==> x in Get(m, k') || (k' == k && x == v)
    ensures Valid(m) ==> Valid(r)
  {
    var bucket := Get(m, k);
    if v in bucket then m else m[k := bucket + [v]]
  }

  /** `remove`: take `v` out of the bucket of `k`; an emptied bucket is dropped. */
  function Remove<K(==,!new), V(==,!new)>(m: map<K, seq<V>>, k: K, v: V): (r: map<K, seq<V>>)
    ensures forall k', x :: x in Get(r, k') <==> x in Get(m, k') && !(k' == k && x == v)
    ensures Valid(m) ==> Valid(r)
  {
    if k !in m then m
    else
      var bucket := Without(m[k], v);
      if bucket == [] then m - {k} else m[k := bucket]
  }

  /** In a valid multimap a bucket is exactly `[x]` iff `x` is its one and only member. */
  lemma SingletonBucket<K, V>(m: map<K, seq<V>>, k: K, x: V)
    requires Valid(m)
    ensures Get(m, k) == [x] <==> (x in Get(m, k) && forall y :: y in Get(m, k) ==> y == x)
  {
    var b := Get(m, k);
    assert b != [] ==> b[0] in b;
    assert 1 < |b| ==> b[0] != b[1] && b[1] in b;
  }
}
