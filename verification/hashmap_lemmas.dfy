/**
 * Properties of whole sequences of hash-map operations: lookups after many
 * inserts, bucket-count growth, the load-factor bound that the resize
 * trigger maintains, and the source's insert/get/remove scenario.
 */
module HashMapLemmas {
  import opened Wrappers
  import opened HashMaps

  /** The value of the last pair in `ps` whose key is `k`. */
  function LastValue<K(==), V>(ps: seq<(K, V)>, k: K): Option<V>
  {
    if |ps| == 0 then None
    else if ps[|ps| - 1].0 == k then Some(ps[|ps| - 1].1)
    else LastValue(ps[..|ps| - 1], k)
  }

  /** Keys of `ps` are pairwise different. */
  predicate DistinctKeys<K(==), V>(ps: seq<(K, V)>)
  {
    forall a, b :: 0 <= a < b < |ps| ==> ps[a].0 != ps[b].0
  }

  /** `insert` every pair of `ps`, first to last. */
  function InsertAll<K(==,!new), V(!new)>(hash: K -> nat, m: HashMap<K, V>, ps: seq<(K, V)>): (r: HashMap<K, V>)
    requires Valid(hash, m)
    ensures Valid(hash, r)
    ensures forall k :: Lookup(r, k) == if LastValue(ps, k).Some? then LastValue(ps, k) else Lookup(m, k)
    decreases |ps|
  {
    if |ps| == 0 then m
    else Insert(hash, InsertAll(hash, m, ps[..|ps| - 1]), ps[|ps| - 1].0, ps[|ps| - 1].1).0
  }

  lemma {:induction false} LastValueOfDistinct<K, V>(ps: seq<(K, V)>, j: nat)
    requires DistinctKeys(ps) && j < |ps|
    ensures LastValue(ps, ps[j].0) == Some(ps[j].1)
    decreases |ps|
  {
    if j < |ps| - 1 {
      LastValueOfDistinct(ps[..|ps| - 1], j);
    }
  }

  lemma {:induction false} LastValueAbsent<K, V>(ps: seq<(K, V)>, k: K)
    requires forall j :: 0 <= j < |ps| ==> ps[j].0 != k
    ensures LastValue(ps, k) == None
    decreases |ps|
  {
    if |ps| > 0 {
      LastValueAbsent(ps[..|ps| - 1], k);
    }
  }

  /** Every inserted key maps to the value inserted last for it, across any
    * number of resizes. */
  lemma InsertAllRetrievable<K(!new), V(!new)>(hash: K -> nat, ps: seq<(K, V)>)
    ensures var m := InsertAll(hash, New(), ps);
            forall j :: 0 <= j < |ps| ==> Lookup(m, ps[j].0) == LastValue(ps, ps[j].0) != None
  {
    NewValid<K, V>(hash);
    forall j | 0 <= j < |ps|
      ensures LastValue(ps, ps[j].0) != None
    {
      LastValueFound(ps, j);
    }
  }

  lemma {:induction false} LastValueFound<K, V>(ps: seq<(K, V)>, j: nat)
    requires j < |ps|
    ensures LastValue(ps, ps[j].0) != None
    decreases |ps|
  {
    if j < |ps| - 1 && ps[|ps| - 1].0 != ps[j].0 {
      LastValueFound(ps[..|ps| - 1], j);
    }
  }

  /** Bucket count of a new map after `j` inserts of keys it does not hold. */
  function BucketsAfterFreshInserts(j: nat): nat
  {
    if j == 0 then 0
    else
      var n := BucketsAfterFreshInserts(j - 1);
      if n == 0 || j - 1 > 3 * n / 4 then GrownCount(n) else n
  }

  lemma DistinctFront<K, V>(ps: seq<(K, V)>)
    requires |ps| > 0 && DistinctKeys(ps)
    ensures DistinctKeys(ps[..|ps| - 1])
    ensures LastValue(ps[..|ps| - 1], ps[|ps| - 1].0) == None
  {
    LastValueAbsent(ps[..|ps| - 1], ps[|ps| - 1].0);
  }

  /** The last insert of `ps` adds an item when its key is new, and resizes
    * exactly when the trigger fires. */
  lemma FreshInsertStep<K(!new), V(!new)>(hash: K -> nat, ps: seq<(K, V)>)
    requires |ps| > 0 && LastValue(ps[..|ps| - 1], ps[|ps| - 1].0) == None
    ensures var m0 := InsertAll(hash, New(), ps[..|ps| - 1]);
            var m := InsertAll(hash, New(), ps);
            && m.items == m0.items + 1
            && |m.buckets| == if NeedsResize(m0) then GrownCount(|m0.buckets|) else |m0.buckets|
  {
    NewValid<K, V>(hash);
  }

  /** Inserting distinct keys into a new map counts each of them once, and
    * the bucket count follows the integer load-factor trigger. */
  lemma {:induction false} FreshInsertsGrowth<K(!new), V(!new)>(hash: K -> nat, ps: seq<(K, V)>)
    requires DistinctKeys(ps)
    ensures var m := InsertAll(hash, New(), ps);
            m.items == |ps| && |m.buckets| == BucketsAfterFreshInserts(|ps|)
    decreases |ps|
  {
    NewValid<K, V>(hash);
    if |ps| > 0 {
      DistinctFront(ps);
      FreshInsertsGrowth(hash, ps[..|ps| - 1]);
      FreshInsertStep(hash, ps);
    }
  }

  /** Ten distinct keys into a new map end with ten items in sixteen buckets
    * (0, 4, 8, 16), every key retrievable. */
  lemma TenInsertsSixteenBuckets<K(!new), V(!new)>(hash: K -> nat, ps: seq<(K, V)>)
    requires |ps| == 10 && DistinctKeys(ps)
    ensures var m := InsertAll(hash, New(), ps);
            && Len(m) == 10
            && |m.buckets| == 16
            && forall j :: 0 <= j < 10 ==> Get(hash, m, ps[j].0) == Some(ps[j].1)
  {
    FreshInsertsGrowth(hash, ps);
    GrowthToTen();
    DistinctRetrievable(hash, ps);
  }

  /** Bucket counts along ten fresh inserts: 4 from the first, 8 from the
    * fifth, 16 from the eighth. */
  lemma GrowthToTen()
    ensures BucketsAfterFreshInserts(1) == 4
    ensures BucketsAfterFreshInserts(5) == 8
    ensures BucketsAfterFreshInserts(10) == 16
  {
    assert BucketsAfterFreshInserts(4) == 4;
    assert BucketsAfterFreshInserts(7) == 8;
    assert BucketsAfterFreshInserts(8) == 16;
  }

  /** After inserting distinct keys into a new map, `get` finds each of them. */
  lemma DistinctRetrievable<K(!new), V(!new)>(hash: K -> nat, ps: seq<(K, V)>)
    requires |ps| > 0 && DistinctKeys(ps)
    ensures var m := InsertAll(hash, New(), ps);
            && |m.buckets| > 0
            && forall j :: 0 <= j < |ps| ==> Get(hash, m, ps[j].0) == Some(ps[j].1)
  {
    NewValid<K, V>(hash);
    var m := InsertAll(hash, New(), ps);
    forall j | 0 <= j < |ps|
      ensures Lookup(m, ps[j].0) == Some(ps[j].1)
    {
      LastValueOfDistinct(ps, j);
    }
    assert Lookup(m, ps[0].0) != None;
  }

  /** The sizes the resize trigger keeps: no buckets only while empty, at
    * least `InitBuckets` otherwise, and at most one item above three quarters. */
  ghost predicate LoadBounded<K(!new), V(!new)>(m: HashMap<K, V>)
  {
    && (|m.buckets| == 0 ==> m.items == 0)
    && (|m.buckets| > 0 ==> |m.buckets| >= InitBuckets && m.items <= 3 * |m.buckets| / 4 + 1)
  }

  /** `insert` keeps the load bound, so no map ever holds more items than buckets. */
  lemma InsertKeepsLoadBound<K(!new), V(!new)>(hash: K -> nat, m: HashMap<K, V>, k: K, v: V)
    requires Valid(hash, m) && LoadBounded(m)
    ensures var r := Insert(hash, m, k, v).0;
            LoadBounded(r) && 0 < r.items <= |r.buckets|
  {
  }

  /** The source's `insert` test: one book in, looked up, removed, gone. */
  lemma InsertGetRemoveScenario<V(!new)>(hash: int -> nat, title: V)
    ensures
            var m1 := Insert(hash, New(), 5, title).0;
            && Len(m1) == 1
            && Get(hash, m1, 5) == Some(title)
            && var (m2, removed) := Remove(hash, m1, 5);
            && removed == Some(title)
            && Len(m2) == 0
            && Get(hash, m2, 5) == None
  {
    NewValid<int, V>(hash);
  }

  /** The four reviews of the source's documentation example. */
  function Reviews(): seq<(string, string)>
  {
    [ ("Adventures of Huckleberry Finn", "My favorite book."),
      ("Grimms' Fairy Tales", "Masterpiece."),
      ("Pride and Prejudice", "Very enjoyable."),
      ("The Adventures of Sherlock Holmes", "Eye lyked it alot.") ]
  }

  /** The documentation example over any four pairs with distinct keys and
    * two keys among none of them: after the inserts the map has four items
    * and does not contain the first absent key; removing the fourth key
    * returns its value and leaves three items, the third key is still found
    * and the second absent key is not. */
  lemma FourInsertsThenQueries<K(!new), V(!new)>(hash: K -> nat, ps: seq<(K, V)>, missing: K, unreviewed: K)
    requires |ps| == 4 && DistinctKeys(ps)
    requires forall j :: 0 <= j < 4 ==> ps[j].0 != missing && ps[j].0 != unreviewed
    ensures var m := InsertAll(hash, New(), ps);
            && Len(m) == 4
            && !ContainsKey(hash, m, missing)
            && var (m2, removed) := Remove(hash, m, ps[3].0);
            && removed == Some(ps[3].1)
            && Len(m2) == 3
            && Get(hash, m2, ps[2].0) == Some(ps[2].1)
            && Get(hash, m2, unreviewed) == None
  {
    NewValid<K, V>(hash);
    FreshInsertsGrowth(hash, ps);
    LastValueOfDistinct(ps, 2);
    LastValueOfDistinct(ps, 3);
    LastValueAbsent(ps, missing);
    LastValueAbsent(ps, unreviewed);
  }

  /** The source's documentation example with its own titles and reviews. */
  lemma BookReviewsScenario(hash: string -> nat)
    ensures var m := InsertAll(hash, New(), Reviews());
            && Len(m) == 4
            && !ContainsKey(hash, m, "Les Misérables")
            && var (m2, removed) := Remove(hash, m, "The Adventures of Sherlock Holmes");
            && removed == Some("Eye lyked it alot.")
            && Len(m2) == 3
            && Get(hash, m2, "Pride and Prejudice") == Some("Very enjoyable.")
            && Get(hash, m2, "Alice's Adventure in Wonderland") == None
  {
    var ps := Reviews();
    assert DistinctKeys(ps);
    FourInsertsThenQueries(hash, ps, "Les Misérables", "Alice's Adventure in Wonderland");
  }
}
