/**
 * The hash map's iterators: borrowed iteration over pairs, keys and values
 * (one shared cursor of bucket and in-bucket offset), and owned iteration,
 * which pops pairs off the back of each bucket in turn.
 *
 * Each iterator state has a reference sequence of what it has still to
 * yield (`Remaining`, `IntoRemaining`); every `next` is specified as taking
 * the head of that sequence.
 */
module HashMapIter {
  import opened Wrappers
  import opened HashMaps
  import Seqs

  /*************************************************************************
   * Borrowed iteration: `Pairs`, `Keys`, `Values`
   *************************************************************************/

  /** The state shared by `Pairs`, `Keys` and `Values`. */
  datatype Cursor<K, V> = Cursor(owner: HashMap<K, V>, bucket: nat, pair: nat)

  /** Pairs of `b` from offset `i` on; nothing when `i` is past the end. */
  function Tail<T>(b: seq<T>, i: nat): seq<T>
  {
    if i <= |b| then b[i..] else []
  }

  /** What the cursor has still to yield, in order. */
  function Remaining<K(!new), V(!new)>(c: Cursor<K, V>): seq<(K, V)>
  {
    var bs := c.owner.buckets;
    if c.bucket < |bs| then Tail(bs[c.bucket], c.pair) + Flatten(bs[c.bucket + 1..]) else []
  }

  /** `into_iter` on `&HashMap`, `keys` and `values`: a cursor at the first slot
    * of the first bucket, which yields every pair in bucket order. */
  function Start<K(!new), V(!new)>(m: HashMap<K, V>): (r: Cursor<K, V>)
    ensures r.owner == m
    ensures Remaining(r) == Flatten(m.buckets)
  {
    assert |m.buckets| > 0 ==> Tail(m.buckets[0], 0) == m.buckets[0];
    Cursor(m, 0, 0)
  }

  /** An exhausted bucket contributes nothing: moving to the next bucket's
    * first slot leaves the same pairs to yield. */
  lemma SkipBucket<K(!new), V(!new)>(c: Cursor<K, V>)
    requires c.bucket < |c.owner.buckets| && c.pair >= |c.owner.buckets[c.bucket]|
    ensures Remaining(c.(bucket := c.bucket + 1, pair := 0)) == Remaining(c)
  {
    var bs := c.owner.buckets;
    var b := c.bucket;
    assert Tail(bs[b], c.pair) == [];
    if b + 1 < |bs| {
      assert bs[b + 1..][1..] == bs[b + 2..];
      assert Tail(bs[b + 1], 0) == bs[b + 1];
    }
  }

  /** Yielding the pair under the cursor removes exactly the head. */
  lemma TakePair<K(!new), V(!new)>(c: Cursor<K, V>)
    requires c.bucket < |c.owner.buckets| && c.pair < |c.owner.buckets[c.bucket]|
    ensures Remaining(c) == [c.owner.buckets[c.bucket][c.pair]] + Remaining(c.(pair := c.pair + 1))
  {
    var bs := c.owner.buckets;
    var b := bs[c.bucket];
    var later := Flatten(bs[c.bucket + 1..]);
    assert Tail(b, c.pair) == [b[c.pair]] + Tail(b, c.pair + 1);
    Seqs.Associative([b[c.pair]], Tail(b, c.pair + 1), later);
  }

  /** `Pairs::next`: skip exhausted buckets, then yield the pair under the
    * cursor and step past it. */
  function PairsNext<K(!new), V(!new)>(c: Cursor<K, V>): (r: (Cursor<K, V>, Option<(K, V)>))
    ensures r.0.owner == c.owner
    ensures r.1.None? <==> Remaining(c) == []
    ensures r.1.Some? ==> Remaining(c) == [r.1.value] + Remaining(r.0)
    ensures r.1.None? ==> r.0.bucket >= |c.owner.buckets|
    ensures r.1.Some? ==> r.0.bucket > c.bucket || (r.0.bucket == c.bucket && r.0.pair > c.pair)
    decreases |c.owner.buckets| - c.bucket
  {
    var bs := c.owner.buckets;
    if c.bucket >= |bs| then (c, None)
    else if c.pair < |bs[c.bucket]| then
      TakePair(c);
      (c.(pair := c.pair + 1), Some(bs[c.bucket][c.pair]))
    else
      SkipBucket(c);
      PairsNext(c.(bucket := c.bucket + 1, pair := 0))
  }

  /** `Keys::next`: the key of the pair `Pairs::next` would yield. */
  function KeysNext<K(!new), V(!new)>(c: Cursor<K, V>): (r: (Cursor<K, V>, Option<K>))
    ensures r.1.None? <==> Remaining(c) == []
    ensures r.1.Some? ==> Remaining(c) != [] && r.1.value == Remaining(c)[0].0 && Remaining(r.0) == Remaining(c)[1..]
  {
    var (c', p) := PairsNext(c);
    match p
    case None => (c', None)
    case Some(kv) => (c', Some(kv.0))
  }

  /** `Values::next`: the value of the pair `Pairs::next` would yield. */
  function ValuesNext<K(!new), V(!new)>(c: Cursor<K, V>): (r: (Cursor<K, V>, Option<V>))
    ensures r.1.None? <==> Remaining(c) == []
    ensures r.1.Some? ==> Remaining(c) != [] && r.1.value == Remaining(c)[0].1 && Remaining(r.0) == Remaining(c)[1..]
  {
    var (c', p) := PairsNext(c);
    match p
    case None => (c', None)
    case Some(kv) => (c', Some(kv.1))
  }

  /** A `for (k, v) in &map` loop: call `Pairs::next` until it yields `None`. */
  method CollectPairs<K(!new), V(!new)>(c: Cursor<K, V>) returns (r: seq<(K, V)>)
    ensures r == Remaining(c)
  {
    var cur := c;
    r := [];
    while true
      invariant r + Remaining(cur) == Remaining(c)
      decreases |Remaining(cur)|
    {
      var (next, p) := PairsNext(cur);
      if p.None? {
        return;
      }
      Seqs.Associative(r, [p.value], Remaining(next));
      r, cur := r + [p.value], next;
    }
  }

  /** The keys of `ps`, in order. */
  function KeysOf<A, B>(ps: seq<(A, B)>): (r: seq<A>)
    ensures |r| == |ps| && forall j :: 0 <= j < |ps| ==> r[j] == ps[j].0
  {
    if |ps| == 0 then [] else [ps[0].0] + KeysOf(ps[1..])
  }

  /** The values of `ps`, in order. */
  function ValuesOf<A, B>(ps: seq<(A, B)>): (r: seq<B>)
    ensures |r| == |ps| && forall j :: 0 <= j < |ps| ==> r[j] == ps[j].1
  {
    if |ps| == 0 then [] else [ps[0].1] + ValuesOf(ps[1..])
  }

  /** A `for k in map.keys()` loop. */
  method CollectKeys<K(!new), V(!new)>(c: Cursor<K, V>) returns (r: seq<K>)
    ensures |r| == |Remaining(c)|
    ensures forall j :: 0 <= j < |r| ==> r[j] == Remaining(c)[j].0
  {
    var cur := c;
    r := [];
    while true
      invariant r + KeysOf(Remaining(cur)) == KeysOf(Remaining(c))
      decreases |Remaining(cur)|
    {
      var (next, k) := KeysNext(cur);
      if k.None? {
        return;
      }
      Seqs.Associative(r, [k.value], KeysOf(Remaining(next)));
      r, cur := r + [k.value], next;
    }
  }

  /** A `for v in map.values()` loop. */
  method CollectValues<K(!new), V(!new)>(c: Cursor<K, V>) returns (r: seq<V>)
    ensures |r| == |Remaining(c)|
    ensures forall j :: 0 <= j < |r| ==> r[j] == Remaining(c)[j].1
  {
    var cur := c;
    r := [];
    while true
      invariant r + ValuesOf(Remaining(cur)) == ValuesOf(Remaining(c))
      decreases |Remaining(cur)|
    {
      var (next, v) := ValuesNext(cur);
      if v.None? {
        return;
      }
      Seqs.Associative(r, [v.value], ValuesOf(Remaining(next)));
      r, cur := r + [v.value], next;
    }
  }

  /*************************************************************************
   * What iteration over a valid map yields
   *************************************************************************/

  /** A pair occurring at two different offsets occurs twice in the multiset. */
  lemma TwiceCounted<T>(s: seq<T>, i: nat, j: nat)
    requires i < j < |s| && s[i] == s[j]
    ensures multiset(s)[s[j]] >= 2
  {
    assert s == s[..j] + [s[j]] + s[j + 1..];
    assert s[i] in s[..j];
  }

  /** Iterating a valid map yields each of its entries exactly once: the pairs
    * are exactly the mapped ones, no key repeats, and there are `len` of them. */
  lemma IterationYieldsEntries<K(!new), V(!new)>(hash: K -> nat, m: HashMap<K, V>)
    requires Valid(hash, m)
    ensures var ps := Remaining(Start(m));
            && |ps| == Len(m)
            && (forall k, v :: (k, v) in ps <==> Lookup(m, k) == Some(v))
            && (forall i, j :: 0 <= i < j < |ps| ==> ps[i].0 != ps[j].0)
  {
    var ps := Flatten(m.buckets);
    forall k, v
      ensures (k, v) in ps <==> Lookup(m, k) == Some(v)
    {
      FindUnique(ps, k, v);
    }
    KeysDistinct(ps);
  }

  /** Pairs whose multiset has unique keys show no key at two offsets. */
  lemma KeysDistinct<K(!new), V(!new)>(ps: seq<(K, V)>)
    requires UniqueKeys(multiset(ps))
    ensures forall i, j :: 0 <= i < j < |ps| ==> ps[i].0 != ps[j].0
  {
    forall i, j | 0 <= i < j < |ps|
      ensures ps[i].0 != ps[j].0
    {
      if ps[i].0 == ps[j].0 {
        assert ps[i] in multiset(ps) && ps[j] in multiset(ps);
        TwiceCounted(ps, i, j);
        assert false;
      }
    }
  }

  /*************************************************************************
   * Owned iteration: `IntoPairs`
   *************************************************************************/

  /** The state of `IntoPairs`: the owned map and the bucket being emptied. */
  datatype IntoPairs<K, V> = IntoPairs(owner: HashMap<K, V>, bucket: nat)

  /** Pairs in the order owned iteration yields them: bucket by bucket, each
    * bucket from its last slot to its first. */
  function Drain<K(!new), V(!new)>(bs: seq<Bucket<K, V>>): seq<(K, V)>
  {
    if |bs| == 0 then [] else Seqs.Reverse(bs[0]) + Drain(bs[1..])
  }

  /** What the owned iterator has still to yield, in order. */
  function IntoRemaining<K(!new), V(!new)>(s: IntoPairs<K, V>): seq<(K, V)>
  {
    if s.bucket < |s.owner.buckets| then Drain(s.owner.buckets[s.bucket..]) else []
  }

  /** `into_iter` on an owned `HashMap`. */
  function IntoIter<K(!new), V(!new)>(m: HashMap<K, V>): (r: IntoPairs<K, V>)
    ensures r.owner == m
    ensures IntoRemaining(r) == Drain(m.buckets)
  {
    assert m.buckets[0..] == m.buckets;
    IntoPairs(m, 0)
  }

  /** The state after `bucket.pop()` on the current, non-empty bucket. */
  function PopBack<K(!new), V(!new)>(s: IntoPairs<K, V>): (r: IntoPairs<K, V>)
    requires s.bucket < |s.owner.buckets| && |s.owner.buckets[s.bucket]| > 0
    ensures r.bucket == s.bucket && r.owner.items == s.owner.items
    ensures |r.owner.buckets| == |s.owner.buckets|
    ensures forall i :: 0 <= i < |s.owner.buckets| && i != s.bucket ==> r.owner.buckets[i] == s.owner.buckets[i]
  {
    var b := s.owner.buckets[s.bucket];
    s.(owner := s.owner.(buckets := s.owner.buckets[s.bucket := b[..|b| - 1]]))
  }

  /** What remains from bucket `i` on: bucket `i` reversed, then the rest. */
  lemma DrainFrom<K(!new), V(!new)>(bs: seq<Bucket<K, V>>, i: nat)
    requires i < |bs|
    ensures Drain(bs[i..]) == Seqs.Reverse(bs[i]) + Drain(bs[i + 1..])
  {
    assert bs[i..][1..] == bs[i + 1..];
  }

  /** Before the pop: the last pair of the current bucket, then the rest of
    * that bucket reversed, then the later buckets. */
  lemma BeforePop<K(!new), V(!new)>(s: IntoPairs<K, V>)
    requires s.bucket < |s.owner.buckets| && |s.owner.buckets[s.bucket]| > 0
    ensures var bs := s.owner.buckets;
            var b := bs[s.bucket];
            IntoRemaining(s) == [b[|b| - 1]] + (Seqs.Reverse(b[..|b| - 1]) + Drain(bs[s.bucket + 1..]))
  {
    var bs := s.owner.buckets;
    var b := bs[s.bucket];
    DrainFrom(bs, s.bucket);
    Seqs.ReverseLast(b);
    Seqs.Associative([b[|b| - 1]], Seqs.Reverse(b[..|b| - 1]), Drain(bs[s.bucket + 1..]));
  }

  /** After the pop: the rest of the current bucket reversed, then the later
    * buckets. */
  lemma AfterPop<K(!new), V(!new)>(s: IntoPairs<K, V>)
    requires s.bucket < |s.owner.buckets| && |s.owner.buckets[s.bucket]| > 0
    ensures var bs := s.owner.buckets;
            var b := bs[s.bucket];
            IntoRemaining(PopBack(s)) == Seqs.Reverse(b[..|b| - 1]) + Drain(bs[s.bucket + 1..])
  {
    var bs := s.owner.buckets;
    var bs' := PopBack(s).owner.buckets;
    DrainFrom(bs', s.bucket);
    assert bs'[s.bucket + 1..] == bs[s.bucket + 1..];
  }

  /** Popping the last pair of the current bucket removes the head of what
    * remains. */
  lemma PopPair<K(!new), V(!new)>(s: IntoPairs<K, V>)
    requires s.bucket < |s.owner.buckets| && |s.owner.buckets[s.bucket]| > 0
    ensures var b := s.owner.buckets[s.bucket];
            IntoRemaining(s) == [b[|b| - 1]] + IntoRemaining(PopBack(s))
  {
    BeforePop(s);
    AfterPop(s);
  }

  /** An emptied bucket contributes nothing to what remains. */
  lemma NextBucket<K(!new), V(!new)>(s: IntoPairs<K, V>)
    requires s.bucket < |s.owner.buckets| && s.owner.buckets[s.bucket] == []
    ensures IntoRemaining(s.(bucket := s.bucket + 1)) == IntoRemaining(s)
  {
    var bs := s.owner.buckets;
    assert Seqs.Reverse(bs[s.bucket]) == [];
    assert bs[s.bucket..][1..] == bs[s.bucket + 1..];
  }

  /** `IntoPairs::next`: pop from the current bucket, moving on while it is
    * empty. The item count is not updated, as in the source. */
  function IntoNext<K(!new), V(!new)>(s: IntoPairs<K, V>): (r: (IntoPairs<K, V>, Option<(K, V)>))
    ensures r.0.owner.items == s.owner.items && |r.0.owner.buckets| == |s.owner.buckets|
    ensures r.1.None? <==> IntoRemaining(s) == []
    ensures r.1.Some? ==> IntoRemaining(s) == [r.1.value] + IntoRemaining(r.0)
    ensures r.1.None? ==> r.0.bucket >= |s.owner.buckets|
    ensures r.0.bucket >= s.bucket
    ensures forall i :: s.bucket <= i < r.0.bucket && i < |s.owner.buckets| ==> s.owner.buckets[i] == []
    ensures forall i :: 0 <= i < |s.owner.buckets| && i != r.0.bucket ==> r.0.owner.buckets[i] == s.owner.buckets[i]
    decreases |s.owner.buckets| - s.bucket
  {
    var bs := s.owner.buckets;
    if s.bucket >= |bs| then (s, None)
    else
      var b := bs[s.bucket];
      if |b| > 0 then
        PopPair(s);
        (PopBack(s), Some(b[|b| - 1]))
      else
        NextBucket(s);
        IntoNext(s.(bucket := s.bucket + 1))
  }

  /** A `for (k, v) in map` loop: call `IntoPairs::next` until `None`. */
  function CollectInto<K(!new), V(!new)>(s: IntoPairs<K, V>): (r: seq<(K, V)>)
    ensures r == IntoRemaining(s)
    decreases |IntoRemaining(s)|
  {
    var (next, p) := IntoNext(s);
    match p
    case None => []
    case Some(x) => [x] + CollectInto(next)
  }

  /** The owned iterator once `IntoPairs::next` has returned `None`: every
    * bucket from the starting one on has been emptied, the earlier ones are
    * as they were, and the stored item count is stale. */
  function Exhaust<K(!new), V(!new)>(s: IntoPairs<K, V>): (r: IntoPairs<K, V>)
    ensures r.owner.items == s.owner.items
    ensures |r.owner.buckets| == |s.owner.buckets| <= r.bucket
    ensures forall i :: s.bucket <= i < |r.owner.buckets| ==> r.owner.buckets[i] == []
    ensures forall i :: 0 <= i < s.bucket && i < |r.owner.buckets| ==> r.owner.buckets[i] == s.owner.buckets[i]
    decreases |IntoRemaining(s)|
  {
    var (next, p) := IntoNext(s);
    var r := if p.None? then next else Exhaust(next);
    EmptiedFrom(s.owner.buckets, next.owner.buckets, r.owner.buckets, s.bucket, next.bucket);
    r
  }

  /** Chains one `next` step (`a` to `b`, skipping empty buckets `lo` to
    * `mid`) with the rest of the drain (`b` to `c`, emptying from `mid`). */
  lemma EmptiedFrom<T>(a: seq<seq<T>>, b: seq<seq<T>>, c: seq<seq<T>>, lo: nat, mid: nat)
    requires |a| == |b| == |c| && lo <= mid
    requires forall i :: lo <= i < mid && i < |a| ==> a[i] == []
    requires forall i :: 0 <= i < |a| && i != mid ==> b[i] == a[i]
    requires forall i :: mid <= i < |c| ==> c[i] == []
    requires forall i :: 0 <= i < mid && i < |c| ==> c[i] == b[i]
    ensures forall i :: lo <= i < |c| ==> c[i] == []
    ensures forall i :: 0 <= i < lo && i < |c| ==> c[i] == a[i]
  {
  }

  /** Consuming a map leaves it with no pairs in any bucket, while its item
    * count still says how many there were. */
  lemma ConsumedMapIsEmpty<K(!new), V(!new)>(m: HashMap<K, V>)
    ensures var r := Exhaust(IntoIter(m));
            && r.owner.items == m.items
            && |r.owner.buckets| == |m.buckets|
            && Flatten(r.owner.buckets) == []
  {
    var r := Exhaust(IntoIter(m));
    FlattenAllEmpty(r.owner.buckets);
  }

  /** Owned iteration yields the same pairs as borrowed iteration, in a
    * different order. */
  lemma {:induction false} DrainPermutesFlatten<K(!new), V(!new)>(bs: seq<Bucket<K, V>>)
    ensures multiset(Drain(bs)) == multiset(Flatten(bs))
    ensures |Drain(bs)| == |Flatten(bs)|
  {
    if |bs| > 0 {
      DrainPermutesFlatten(bs[1..]);
    }
  }

  /** Consuming a valid map yields each entry exactly once. */
  lemma IntoIterationYieldsEntries<K(!new), V(!new)>(hash: K -> nat, m: HashMap<K, V>)
    requires Valid(hash, m)
    ensures var ps := IntoRemaining(IntoIter(m));
            && |ps| == Len(m)
            && (forall k, v :: (k, v) in ps <==> Lookup(m, k) == Some(v))
            && (forall i, j :: 0 <= i < j < |ps| ==> ps[i].0 != ps[j].0)
  {
    var ps := Drain(m.buckets);
    DrainPermutesFlatten(m.buckets);
    IterationYieldsEntries(hash, m);
    forall k, v
      ensures (k, v) in ps <==> (k, v) in Flatten(m.buckets)
    {
      assert (k, v) in ps <==> (k, v) in multiset(ps);
    }
    KeysDistinct(ps);
  }
}
