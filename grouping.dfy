/**
 * Grouping a list into buckets by a key, as the planner does with a `Map` from key to
 * array: the first element with a new key opens a bucket at the end, later elements with
 * that key are pushed onto it. The buckets therefore come in first-seen key order and
 * each keeps the input order.
 */
module Grouping {
  import opened Wrappers
  import opened Seqs

  /** Index of the bucket with key `k`, if there is one. */
  function BucketIndex<K(==), T>(g: seq<(K, seq<T>)>, k: K): (r: Option<nat>)
    ensures r.Some? ==> r.value < |g| && g[r.value].0 == k
    ensures r.None? ==> forall i :: 0 <= i < |g| ==> g[i].0 != k
  {
    FindIndex(g, IsBucket(k))
  }

  /** The test `map.has(k)` applies to each bucket. */
  function IsBucket<K(==), T>(k: K): ((K, seq<T>)) -> bool {
    (e: (K, seq<T>)) => e.0 == k
  }

  /** The buckets a `Map`-based `forEach` grouping produces, in the `Map`'s insertion order. */
  function Group<K(==), T>(xs: seq<T>, key: T -> K): seq<(K, seq<T>)> {
    if xs == [] then [] else Push(Group(xs[..|xs| - 1], key), key(xs[|xs| - 1]), xs[|xs| - 1])
  }

  /** `map.get(k).push(x)` after `map.set(k, [])` if `k` was absent. */
  function Push<K(==), T>(g: seq<(K, seq<T>)>, k: K, x: T): seq<(K, seq<T>)> {
    match BucketIndex(g, k)
    case Some(i) => g[i := (g[i].0, g[i].1 + [x])]
    case None => g + [(k, [x])]
  }

  /** One more element: pushed onto its key's bucket, or opening a new bucket at the end. */
  lemma GroupSnoc<K, T>(xs: seq<T>, x: T, key: T -> K)
    ensures Group(xs + [x], key) == Push(Group(xs, key), key(x), x)
  {
    assert (xs + [x])[..|xs|] == xs;
  }

  /** The test for elements with key `k`. */
  function HasKey<K(==), T>(key: T -> K, k: K): T -> bool {
    (y: T) => key(y) == k
  }

  predicate DistinctKeys<K(==), T>(g: seq<(K, seq<T>)>) {
    forall i, j :: 0 <= i < j < |g| ==> g[i].0 != g[j].0
  }

  /** A key has a bucket exactly when some element has that key, and no key has two. */
  lemma {:induction false} GroupKeys<K(!new), T(!new)>(xs: seq<T>, key: T -> K)
    ensures DistinctKeys(Group(xs, key))
    ensures forall k :: BucketIndex(Group(xs, key), k).Some? <==> exists y :: y in xs && key(y) == k
    decreases |xs|
  {
    if xs != [] {
      var init, x := xs[..|xs| - 1], xs[|xs| - 1];
      assert xs == init + [x];
      GroupKeys(init, key);
      var g0 := Group(init, key);
      var g := Group(xs, key);
      assert |g| >= |g0|;
      assert forall i :: 0 <= i < |g0| ==> g[i].0 == g0[i].0;
      forall k ensures BucketIndex(g, k).Some? <==> exists y :: y in xs && key(y) == k {
        if BucketIndex(g0, k).Some? {
          var i := BucketIndex(g0, k).value;
          assert g[i].0 == k;
          var y :| y in init && key(y) == k;
          assert y in xs;
        }
        if exists y :: y in xs && key(y) == k {
          var y :| y in xs && key(y) == k;
          if y == x {
            match BucketIndex(g0, key(x))
            case Some(i) => assert g[i].0 == key(x);
            case None => assert g[|g0|].0 == key(x);
          } else {
            assert y in init;
            var i := BucketIndex(g0, k).value;
            assert g[i].0 == k;
          }
        }
      }
    }
  }

  /**
   * Every bucket holds exactly the elements with its key, in input order, and is not
   * empty; with `GroupKeys`, every element lies in exactly one bucket.
   */
  lemma {:induction false} GroupBuckets<K(!new), T(!new)>(xs: seq<T>, key: T -> K)
    ensures forall i :: 0 <= i < |Group(xs, key)| ==>
      Group(xs, key)[i].1 == Filter(xs, HasKey(key, Group(xs, key)[i].0))
    ensures forall i :: 0 <= i < |Group(xs, key)| ==> Group(xs, key)[i].1 != []
    decreases |xs|
  {
    if xs != [] {
      var init, x := xs[..|xs| - 1], xs[|xs| - 1];
      assert xs == init + [x];
      GroupBuckets(init, key);
      GroupKeys(init, key);
      var g0 := Group(init, key);
      var g := Group(xs, key);
      forall i | 0 <= i < |g| ensures g[i].1 == Filter(xs, HasKey(key, g[i].0)) {
        var k := g[i].0;
        FilterSnoc(init, x, HasKey(key, k));
        if i == |g0| {
          assert BucketIndex(g0, k).None?;
          FilterNone(init, HasKey(key, k));
        }
      }
    }
  }
}
