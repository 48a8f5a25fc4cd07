/**
 * Eviction in an order of age: candidates go one by one, the oldest first,
 * until enough are gone.
 */
module Eviction {
  /** A strict total order on some keys. */
  ghost predicate Orders<K(!new)>(older: (K, K) -> bool, keys: set<K>) {
    && (forall a, b :: a in keys && b in keys && a != b ==> (older(a, b) <==> !older(b, a)))
    && (forall a, b, c :: a in keys && b in keys && c in keys && older(a, b) && older(b, c) ==> older(a, c))
  }

  predicate IsOldest<K(==, !new)>(older: (K, K) -> bool, keys: set<K>, k: K) {
    k in keys && forall other :: other in keys && other != k ==> older(k, other)
  }

  lemma {:induction false} FindOldest<K(!new)>(older: (K, K) -> bool, keys: set<K>) returns (k: K)
    requires keys != {} && Orders(older, keys)
    ensures IsOldest(older, keys, k)
  {
    k :| k in keys;
    if keys != {k} {
      var j := FindOldest(older, keys - {k});
      if !older(k, j) { k := j; }
    }
  }

  lemma OldestExists<K(!new)>(older: (K, K) -> bool, keys: set<K>)
    requires keys != {} && Orders(older, keys)
    ensures exists k :: IsOldest(older, keys, k)
  {
    var k := FindOldest(older, keys);
  }

  lemma OldestUnique<K(!new)>(older: (K, K) -> bool, keys: set<K>, a: K, b: K)
    requires Orders(older, keys) && IsOldest(older, keys, a) && IsOldest(older, keys, b)
    ensures a == b
  {}

  ghost function Oldest<K(!new)>(older: (K, K) -> bool, keys: set<K>): (k: K)
    requires keys != {} && Orders(older, keys)
    ensures IsOldest(older, keys, k)
  {
    OldestExists(older, keys);
    var k :| IsOldest(older, keys, k);
    k
  }

  /** What is gone once enough is gone, or everything; `gone` left before. */
  ghost function Evicted<K(
      !new)>(older: (K, K) -> bool, candidates: set<K>, gone: set<K>, enough: set<K> -> bool): set<K>
    requires Orders(older, candidates)
    decreases candidates
  {
    if enough(gone) || candidates == {} then gone
    else
      var k := Oldest(older, candidates);
      Evicted(older, candidates - {k}, gone + {k}, enough)
  }

  /** A set of candidates with nothing older left behind. */
  ghost predicate OldestFirst<K(!new)>(older: (K, K) -> bool, evicted: set<K>, candidates: set<K>) {
    evicted <= candidates && forall a, b :: a in evicted && b in candidates - evicted ==> older(a, b)
  }

  /** No smaller oldest-first set would have been enough. */
  ghost predicate Shortest<K(!new)>(
      older: (K, K) -> bool, evicted: set<K>, candidates: set<K>, enough: set<K> -> bool)
  {
    forall fewer :: fewer < evicted && OldestFirst(older, fewer, candidates) ==> !enough(fewer)
  }

  lemma EvictedStep<K(!new)>(
      older: (K, K) -> bool, candidates: set<K>, gone: set<K>, enough: set<K> -> bool, k: K)
    requires Orders(older, candidates) && !enough(gone) && IsOldest(older, candidates, k)
    ensures Orders(older, candidates - {k})
    ensures Evicted(older, candidates, gone, enough) == Evicted(older, candidates - {k}, gone + {k}, enough)
  {
    OldestUnique(older, candidates, k, Oldest(older, candidates));
  }

  /** An oldest-first set that is not part of another contains it. */
  lemma OldestFirstNested<K(!new)>(older: (K, K) -> bool, one: set<K>, two: set<K>, candidates: set<K>)
    requires Orders(older, candidates) && OldestFirst(older, one, candidates) && OldestFirst(older, two, candidates)
    ensures one <= two || two <= one
  {
    if a :| a in one && a !in two {
      forall b | b in two ensures b in one { NotBoth(older, candidates, a, b); }
    }
  }

  lemma NotBoth<K(!new)>(older: (K, K) -> bool, keys: set<K>, a: K, b: K)
    requires Orders(older, keys) && a in keys && b in keys && a != b
    ensures !(older(a, b) && older(b, a))
  {}

  /**
   * What is evicted is oldest first; it is enough, or it is everything; and
   * no smaller oldest-first set would have been enough.
   */
  lemma {:induction false} EvictedPrefix<K(!new)>(
      older: (K, K) -> bool, all: set<K>, gone: set<K>, enough: set<K> -> bool)
    requires Orders(older, all) && OldestFirst(older, gone, all) && Orders(older, all - gone)
    requires Shortest(older, gone, all, enough)
    ensures
      var evicted := Evicted(older, all - gone, gone, enough);
      && gone <= evicted && OldestFirst(older, evicted, all) && (enough(evicted) || evicted == all)
      && Shortest(older, evicted, all, enough)
    decreases all - gone
  {
    hide Orders;
    var left := all - gone;
    if enough(gone) {
    } else if left == {} {
      assert all == gone + left;
    } else {
      var k := Oldest(older, left);
      var gone' := gone + {k};
      assert left - {k} == all - gone';
      OneMore(older, all, gone, k);
      ShortestGrows(older, all, gone, enough, k);
      EvictedStep(older, left, gone, enough, k);
      EvictedPrefix(older, all, gone', enough);
    }
  }

  lemma OneMore<K(!new)>(older: (K, K) -> bool, all: set<K>, gone: set<K>, k: K)
    requires Orders(older, all) && OldestFirst(older, gone, all) && IsOldest(older, all - gone, k)
    ensures OldestFirst(older, gone + {k}, all)
  {}

  lemma ShortestGrows<K(!new)>(older: (K, K) -> bool, all: set<K>, gone: set<K>, enough: set<K> -> bool, k: K)
    requires Orders(older, all) && OldestFirst(older, gone, all) && k !in gone
    requires Shortest(older, gone, all, enough) && !enough(gone)
    ensures Shortest(older, gone + {k}, all, enough)
  {
    hide Orders, OldestFirst;
    forall fewer | fewer < gone + {k} && OldestFirst(older, fewer, all) ensures !enough(fewer) {
      OldestFirstNested(older, fewer, gone, all);
      if gone <= fewer { Between(gone, fewer, k); }
    }
  }

  /** Some evicted key is the last to go. */
  lemma {:induction false} FindNewest<K(!new)>(older: (K, K) -> bool, keys: set<K>) returns (k: K)
    requires keys != {} && Orders(older, keys)
    ensures k in keys && forall other :: other in keys && other != k ==> older(other, k)
  {
    k :| k in keys;
    if keys != {k} {
      var j := FindNewest(older, keys - {k});
      if !older(j, k) { k := j; }
    }
  }

  /** Without its newest key, a shortest set would not be enough. */
  lemma WithoutNewest<K(!new)>(
      older: (K, K) -> bool, evicted: set<K>, candidates: set<K>, enough: set<K> -> bool) returns (k: K)
    requires Orders(older, candidates) && OldestFirst(older, evicted, candidates) && evicted != {}
    requires Shortest(older, evicted, candidates, enough)
    ensures k in evicted && !enough(evicted - {k})
  {
    k := FindNewest(older, evicted);
    assert evicted - {k} < evicted && OldestFirst(older, evicted - {k}, candidates);
  }

  lemma Between<K>(gone: set<K>, fewer: set<K>, k: K)
    requires gone <= fewer < gone + {k}
    ensures fewer == gone
  {
    assert k in fewer ==> gone + {k} <= fewer;
  }
}
