/**
 * A separate-chaining hash map: a sequence of buckets, each an unordered
 * sequence of (key, value) pairs, plus a count of live items.
 *
 * The hasher is not modelled: every operation that hashes takes the hash
 * function `hash: K -> nat` as a parameter, and a key's bucket is
 * `hash(k) % |buckets|`.
 *
 * The meaning of a map is given by `Lookup`, a linear first-match search over
 * all pairs in bucket order that does not hash at all. Every operation is
 * specified against `Lookup` and the invariant `Valid`.
 */
module HashMaps {
  import opened Wrappers

  /** Bucket count chosen by the first resize. */
  const InitBuckets: nat := 4

  type Bucket<K, V> = seq<(K, V)>

  datatype HashMap<K, V> = HashMap(buckets: seq<Bucket<K, V>>, items: nat)

  /*************************************************************************
   * Bucket layout
   *************************************************************************/

  /** All pairs, bucket 0 first, each bucket in slot order. */
  function Flatten<K(!new), V(!new)>(bs: seq<Bucket<K, V>>): seq<(K, V)>
  {
    if |bs| == 0 then [] else bs[0] + Flatten(bs[1..])
  }

  lemma {:induction false} FlattenMember<K(!new), V(!new)>(bs: seq<Bucket<K, V>>, x: (K, V))
    ensures x in Flatten(bs) <==> exists i :: 0 <= i < |bs| && x in bs[i]
  {
    if |bs| > 0 {
      FlattenMember(bs[1..], x);
      if x in Flatten(bs[1..]) {
        var i :| 0 <= i < |bs[1..]| && x in bs[1..][i];
        assert x in bs[i + 1];
      }
      if exists i :: 0 <= i < |bs| && x in bs[i] {
        var i :| 0 <= i < |bs| && x in bs[i];
        if i > 0 {
          assert x in bs[1..][i - 1];
        }
      }
    }
  }

  /** Replacing one bucket changes the pairs by exactly that bucket's difference. */
  lemma {:induction false} FlattenUpdate<K(!new), V(!new)>(bs: seq<Bucket<K, V>>, i: nat, b: Bucket<K, V>)
    requires i < |bs|
    ensures multiset(bs[i]) <= multiset(Flatten(bs))
    ensures multiset(Flatten(bs[i := b])) == multiset(Flatten(bs)) - multiset(bs[i]) + multiset(b)
    ensures |Flatten(bs[i := b])| == |Flatten(bs)| - |bs[i]| + |b|
  {
    assert |Flatten(bs[i := b])| == |multiset(Flatten(bs[i := b]))|;
    assert |Flatten(bs)| == |multiset(Flatten(bs))|;
    FlattenUpdateMultiset(bs, i, b);
  }

  lemma {:induction false} FlattenUpdateMultiset<K(!new), V(!new)>(bs: seq<Bucket<K, V>>, i: nat, b: Bucket<K, V>)
    requires i < |bs|
    ensures multiset(bs[i]) <= multiset(Flatten(bs))
    ensures multiset(Flatten(bs[i := b])) == multiset(Flatten(bs)) - multiset(bs[i]) + multiset(b)
  {
    var bs' := bs[i := b];
    assert Flatten(bs) == bs[0] + Flatten(bs[1..]);
    assert Flatten(bs') == bs'[0] + Flatten(bs'[1..]);
    if i == 0 {
      assert bs'[1..] == bs[1..];
    } else {
      assert bs'[1..] == bs[1..][i - 1 := b];
      FlattenUpdateMultiset(bs[1..], i - 1, b);
    }
  }

  lemma {:induction false} FlattenAllEmpty<K(!new), V(!new)>(bs: seq<Bucket<K, V>>)
    requires forall i :: 0 <= i < |bs| ==> bs[i] == []
    ensures Flatten(bs) == []
  {
    if |bs| > 0 {
      FlattenAllEmpty(bs[1..]);
    }
  }

  /** `key_to_index`: the bucket a key belongs to among `n` buckets. */
  function KeyToIndex<K>(hash: K -> nat, k: K, n: nat): (r: nat)
    requires n > 0
    ensures r < n
  {
    hash(k) % n
  }

  /** Every pair sits in the bucket its key hashes to. */
  ghost predicate Placed<K(!new), V(!new)>(hash: K -> nat, bs: seq<Bucket<K, V>>)
  {
    forall i, p :: 0 <= i < |bs| && p in bs[i] ==> KeyToIndex(hash, p.0, |bs|) == i
  }

  /** No pair occurs twice and no two pairs share a key. */
  ghost predicate UniqueKeys<K(!new), V(!new)>(s: multiset<(K, V)>)
  {
    && (forall p :: p in s ==> s[p] == 1)
    && (forall p, q :: p in s && q in s && p.0 == q.0 ==> p == q)
  }

  /** The representation invariant every map value keeps. */
  ghost predicate Valid<K(!new), V(!new)>(hash: K -> nat, m: HashMap<K, V>)
  {
    && m.items == |Flatten(m.buckets)|
    && Placed(hash, m.buckets)
    && UniqueKeys(multiset(Flatten(m.buckets)))
  }

  lemma UniqueSub<K(!new), V(!new)>(a: multiset<(K, V)>, b: multiset<(K, V)>)
    requires a <= b && UniqueKeys(b)
    ensures UniqueKeys(a)
  {
  }

  /*************************************************************************
   * Searching a bucket
   *************************************************************************/

  /** Offset of the first pair whose key is `k` (`Iterator::position`). */
  function Position<K(==,!new), V(!new)>(b: Bucket<K, V>, k: K): (r: Option<nat>)
    ensures r.None? <==> forall j :: 0 <= j < |b| ==> b[j].0 != k
    ensures r.Some? ==> r.value < |b| && b[r.value].0 == k
    ensures r.Some? ==> forall j :: 0 <= j < r.value ==> b[j].0 != k
  {
    if |b| == 0 then None
    else if b[0].0 == k then Some(0)
    else match Position(b[1..], k)
      case None => None
      case Some(j) => Some(j + 1)
  }

  /** Value of the first pair whose key is `k` (`Iterator::find`). */
  function Find<K(==,!new), V(!new)>(b: Bucket<K, V>, k: K): (r: Option<V>)
    ensures r.None? <==> forall v :: (k, v) !in b
    ensures r.Some? ==> (k, r.value) in b
  {
    match Position(b, k)
    case None => None
    case Some(j) => Some(b[j].1)
  }

  /** With unique keys, the search finds exactly the pairs that are present. */
  lemma FindUnique<K(!new), V(!new)>(ps: seq<(K, V)>, k: K, v: V)
    requires UniqueKeys(multiset(ps))
    ensures Find(ps, k) == Some(v) <==> (k, v) in ps
  {
    if (k, v) in ps {
      var w := Find(ps, k).value;
      assert (k, w) in multiset(ps) && (k, v) in multiset(ps);
    }
  }

  /** Two key-unique sequences holding the same pairs for `k` agree on `k`. */
  lemma FindAgree<K(!new), V(!new)>(ps: seq<(K, V)>, qs: seq<(K, V)>, k: K)
    requires UniqueKeys(multiset(ps)) && UniqueKeys(multiset(qs))
    requires forall u :: (k, u) in ps <==> (k, u) in qs
    ensures Find(ps, k) == Find(qs, k)
  {
    var a, b := Find(ps, k), Find(qs, k);
    if a.Some? {
      FindUnique(ps, k, a.value);
      FindUnique(qs, k, a.value);
    } else if b.Some? {
      FindUnique(qs, k, b.value);
      FindUnique(ps, k, b.value);
    }
  }

  /** Reference meaning of a map: the first pair with key `k` over all buckets. */
  function Lookup<K(==,!new), V(!new)>(m: HashMap<K, V>, k: K): Option<V>
  {
    Find(Flatten(m.buckets), k)
  }

  lemma KeyInOwnBucket<K(!new), V(!new)>(hash: K -> nat, bs: seq<Bucket<K, V>>, k: K, v: V)
    requires |bs| > 0 && Placed(hash, bs)
    ensures (k, v) in Flatten(bs) <==> (k, v) in bs[KeyToIndex(hash, k, |bs|)]
  {
    FlattenMember(bs, (k, v));
  }

  /** Searching a key's own bucket is the same as searching the whole map. */
  lemma BucketLookup<K(!new), V(!new)>(hash: K -> nat, m: HashMap<K, V>, k: K)
    requires Valid(hash, m) && |m.buckets| > 0
    ensures Find(m.buckets[KeyToIndex(hash, k, |m.buckets|)], k) == Lookup(m, k)
  {
    var bs := m.buckets;
    var i := KeyToIndex(hash, k, |bs|);
    FlattenUpdate(bs, i, bs[i]);
    UniqueSub(multiset(bs[i]), multiset(Flatten(bs)));
    forall u
      ensures (k, u) in bs[i] <==> (k, u) in Flatten(bs)
    {
      KeyInOwnBucket(hash, bs, k, u);
    }
    FindAgree(bs[i], Flatten(bs), k);
  }

  /*************************************************************************
   * Construction and size
   *************************************************************************/

  /** `HashMap::new`: no buckets are allocated and nothing is stored. */
  function New<K(==,!new), V(!new)>(): (r: HashMap<K, V>)
    ensures |r.buckets| == 0 && r.items == 0
    ensures forall k :: Lookup(r, k) == None
  {
    HashMap([], 0)
  }

  /** A new map satisfies the invariant whatever the hash function. */
  lemma NewValid<K(!new), V(!new)>(hash: K -> nat)
    ensures Valid(hash, New<K, V>())
  {
  }

  function Len<K(!new), V(!new)>(m: HashMap<K, V>): nat
  {
    m.items
  }

  function IsEmpty<K(!new), V(!new)>(m: HashMap<K, V>): bool
  {
    m.items == 0
  }

  /** `is_empty` holds exactly when no key is mapped. */
  lemma IsEmptyIffNoKeys<K(!new), V(!new)>(hash: K -> nat, m: HashMap<K, V>)
    requires Valid(hash, m)
    ensures IsEmpty(m) <==> Len(m) == 0
    ensures IsEmpty(m) <==> forall k :: Lookup(m, k) == None
  {
    var ps := Flatten(m.buckets);
    if !IsEmpty(m) {
      assert ps[0] in ps;
      assert (ps[0].0, ps[0].1) in ps;
      assert Lookup(m, ps[0].0) != None;
    }
  }

  /** The keys that have a pair in `ps`. */
  ghost function KeysIn<K(!new), V(!new)>(ps: seq<(K, V)>): set<K>
  {
    set p | p in ps :: p.0
  }

  /** With unique keys, there are as many keys as pairs. */
  lemma {:induction false} KeysInCount<K(!new), V(!new)>(ps: seq<(K, V)>)
    requires UniqueKeys(multiset(ps))
    ensures |KeysIn(ps)| == |ps|
  {
    if |ps| > 0 {
      var t := ps[1..];
      assert ps == [ps[0]] + t;
      UniqueSub(multiset(t), multiset(ps));
      KeysInCount(t);
      assert KeysIn(ps) == {ps[0].0} + KeysIn(t);
      assert ps[0].0 !in KeysIn(t);
    }
  }

  /** `len` is the number of keys the map holds. */
  lemma LenCountsKeys<K(!new), V(!new)>(hash: K -> nat, m: HashMap<K, V>)
    requires Valid(hash, m)
    ensures forall k :: k in KeysIn(Flatten(m.buckets)) <==> Lookup(m, k).Some?
    ensures Len(m) == |KeysIn(Flatten(m.buckets))|
  {
    KeysInCount(Flatten(m.buckets));
  }

  /*************************************************************************
   * Resize
   *************************************************************************/

  /** New bucket count: `InitBuckets` from zero, otherwise double. */
  function GrownCount(n: nat): (r: nat)
    ensures r > n
  {
    if n == 0 then InitBuckets else 2 * n
  }

  /** One step of the rehash loop: push `p` onto its bucket. */
  lemma PushPair<K(!new), V(!new)>(hash: K -> nat, nb: seq<Bucket<K, V>>, p: (K, V))
    requires |nb| > 0 && Placed(hash, nb)
    ensures var i := KeyToIndex(hash, p.0, |nb|);
            && Placed(hash, nb[i := nb[i] + [p]])
            && multiset(Flatten(nb[i := nb[i] + [p]])) == multiset(Flatten(nb)) + multiset{p}
  {
    var i := KeyToIndex(hash, p.0, |nb|);
    FlattenUpdate(nb, i, nb[i] + [p]);
    PlacedUpdate(hash, nb, i, nb[i] + [p]);
  }

  /** Pushes each pair of `ps`, in order, onto bucket `hash(key) % n` of `n`
    * initially empty buckets. */
  function Distribute<K(!new), V(!new)>(hash: K -> nat, ps: seq<(K, V)>, n: nat): (r: seq<Bucket<K, V>>)
    requires n > 0
    ensures |r| == n
    ensures Placed(hash, r)
    ensures multiset(Flatten(r)) == multiset(ps)
    decreases |ps|
  {
    if |ps| == 0 then
      var empty := seq(n, _ => []);
      FlattenAllEmpty(empty);
      empty
    else
      var nb := Distribute(hash, ps[..|ps| - 1], n);
      var p := ps[|ps| - 1];
      var i := KeyToIndex(hash, p.0, n);
      PushPair(hash, nb, p);
      assert ps == ps[..|ps| - 1] + [p];
      nb[i := nb[i] + [p]]
  }

  /** `resize`: grow the bucket array and rehash every pair into it. */
  function Resize<K(!new), V(!new)>(hash: K -> nat, m: HashMap<K, V>): (r: HashMap<K, V>)
    ensures |r.buckets| == GrownCount(|m.buckets|)
    ensures r.items == m.items
    ensures multiset(Flatten(r.buckets)) == multiset(Flatten(m.buckets))
    ensures Placed(hash, r.buckets)
    ensures Valid(hash, m) ==> Valid(hash, r)
  {
    HashMap(Distribute(hash, Flatten(m.buckets), GrownCount(|m.buckets|)), m.items)
  }

  /** Rehashing changes no key's value. */
  lemma ResizeKeepsLookup<K(!new), V(!new)>(hash: K -> nat, m: HashMap<K, V>)
    requires Valid(hash, m)
    ensures forall k :: Lookup(Resize(hash, m), k) == Lookup(m, k)
  {
    var r := Resize(hash, m);
    forall k
      ensures Lookup(r, k) == Lookup(m, k)
    {
      forall u
        ensures (k, u) in Flatten(r.buckets) <==> (k, u) in Flatten(m.buckets)
      {
        assert (k, u) in Flatten(r.buckets) <==> (k, u) in multiset(Flatten(r.buckets));
        assert (k, u) in Flatten(m.buckets) <==> (k, u) in multiset(Flatten(m.buckets));
      }
      FindAgree(Flatten(r.buckets), Flatten(m.buckets), k);
    }
  }

  /*************************************************************************
   * Edits of a single bucket
   *************************************************************************/

  /** Replacing a bucket by one whose pairs all belong there keeps placement. */
  lemma PlacedUpdate<K(!new), V(!new)>(hash: K -> nat, bs: seq<Bucket<K, V>>, i: nat, b: Bucket<K, V>)
    requires Placed(hash, bs) && i < |bs|
    requires forall p :: p in b ==> KeyToIndex(hash, p.0, |bs|) == i
    ensures Placed(hash, bs[i := b])
  {
  }

  /** Two key-unique sequences that hold the same pairs for every key other
    * than `k` agree on every key other than `k`. */
  lemma EditLookups<K(!new), V(!new)>(ps: seq<(K, V)>, qs: seq<(K, V)>, k: K)
    requires UniqueKeys(multiset(ps)) && UniqueKeys(multiset(qs))
    requires forall p: (K, V) :: p.0 != k ==> (p in multiset(ps) <==> p in multiset(qs))
    ensures forall k' :: k' != k ==> Find(ps, k') == Find(qs, k')
  {
    forall k' | k' != k
      ensures Find(ps, k') == Find(qs, k')
    {
      forall u
        ensures (k', u) in ps <==> (k', u) in qs
      {
        assert (k', u) in ps <==> (k', u) in multiset(ps);
        assert (k', u) in qs <==> (k', u) in multiset(qs);
      }
      FindAgree(ps, qs, k');
    }
  }

  /** Changing the value stored under `k` keeps keys unique. */
  lemma UniqueReplace<K(!new), V(!new)>(M: multiset<(K, V)>, k: K, w: V, v: V)
    requires UniqueKeys(M) && (k, w) in M
    ensures var M' := M - multiset{(k, w)} + multiset{(k, v)};
            && UniqueKeys(M')
            && (k, v) in M'
            && forall p: (K, V) :: p.0 != k ==> (p in M' <==> p in M)
  {
    var M' := M - multiset{(k, w)} + multiset{(k, v)};
    if v != w {
      assert (k, v) !in M;
      assert M'[(k, w)] == 0;
    }
  }

  /** Adding a pair for an absent key keeps keys unique. */
  lemma UniqueAdd<K(!new), V(!new)>(M: multiset<(K, V)>, k: K, v: V)
    requires UniqueKeys(M) && forall u :: (k, u) !in M
    ensures var M' := M + multiset{(k, v)};
            && UniqueKeys(M')
            && (k, v) in M'
            && forall p: (K, V) :: p.0 != k ==> (p in M' <==> p in M)
  {
  }

  /** Removing the pair stored under `k` leaves no pair with key `k`. */
  lemma UniqueRemove<K(!new), V(!new)>(M: multiset<(K, V)>, k: K, w: V)
    requires UniqueKeys(M) && (k, w) in M
    ensures var M' := M - multiset{(k, w)};
            && UniqueKeys(M')
            && (forall u :: (k, u) !in M')
            && forall p: (K, V) :: p.0 != k ==> (p in M' <==> p in M)
  {
    UniqueSub(M - multiset{(k, w)}, M);
  }

  lemma MultisetSetAt<T>(b: seq<T>, pos: nat, x: T)
    requires pos < |b|
    ensures multiset(b[pos := x]) == multiset(b) - multiset{b[pos]} + multiset{x}
  {
    assert b == b[..pos] + [b[pos]] + b[pos + 1..];
    assert b[pos := x] == b[..pos] + [x] + b[pos + 1..];
  }

  /** The pairs and placement after overwriting the value at `pos` in `k`'s bucket. */
  lemma ReplaceValueLayout<K(!new), V(!new)>(hash: K -> nat, bs: seq<Bucket<K, V>>, k: K, pos: nat, v: V)
    requires |bs| > 0 && Placed(hash, bs)
    requires pos < |bs[KeyToIndex(hash, k, |bs|)]|
    requires bs[KeyToIndex(hash, k, |bs|)][pos].0 == k
    ensures var i := KeyToIndex(hash, k, |bs|);
            var w := bs[i][pos].1;
            var bs' := bs[i := bs[i][pos := (k, v)]];
            && Placed(hash, bs')
            && (k, w) in multiset(Flatten(bs))
            && multiset(Flatten(bs')) == multiset(Flatten(bs)) - multiset{(k, w)} + multiset{(k, v)}
            && |Flatten(bs')| == |Flatten(bs)|
  {
    var i := KeyToIndex(hash, k, |bs|);
    var b' := bs[i][pos := (k, v)];
    ReplaceSlotPairs(bs, i, pos, (k, v));
    forall p | p in b'
      ensures KeyToIndex(hash, p.0, |bs|) == i
    {
      assert p in multiset(b');
    }
    PlacedUpdate(hash, bs, i, b');
  }

  /** Overwriting one slot of one bucket swaps one pair for another among all pairs. */
  lemma ReplaceSlotPairs<K(!new), V(!new)>(bs: seq<Bucket<K, V>>, i: nat, pos: nat, x: (K, V))
    requires i < |bs| && pos < |bs[i]|
    ensures var bs' := bs[i := bs[i][pos := x]];
            && bs[i][pos] in multiset(Flatten(bs))
            && multiset(Flatten(bs')) == multiset(Flatten(bs)) - multiset{bs[i][pos]} + multiset{x}
            && |Flatten(bs')| == |Flatten(bs)|
  {
    var b := bs[i];
    FlattenUpdate(bs, i, b[pos := x]);
    MultisetSetAt(b, pos, x);
    assert b[pos] in multiset(b);
  }

  /** Overwrite the value of the pair at `pos` in `k`'s bucket. */
  lemma ReplaceValue<K(!new), V(!new)>(hash: K -> nat, m: HashMap<K, V>, k: K, pos: nat, v: V)
    requires Valid(hash, m) && |m.buckets| > 0
    requires pos < |m.buckets[KeyToIndex(hash, k, |m.buckets|)]|
    requires m.buckets[KeyToIndex(hash, k, |m.buckets|)][pos].0 == k
    ensures var i := KeyToIndex(hash, k, |m.buckets|);
            var m' := m.(buckets := m.buckets[i := m.buckets[i][pos := (k, v)]]);
            && Valid(hash, m')
            && Lookup(m, k) == Some(m.buckets[i][pos].1)
            && Lookup(m', k) == Some(v)
            && forall k' :: k' != k ==> Lookup(m', k') == Lookup(m, k')
  {
    var bs: seq<Bucket<K, V>> := m.buckets;
    var i := KeyToIndex(hash, k, |bs|);
    var w: V := bs[i][pos].1;
    var bs' := bs[i := bs[i][pos := (k, v)]];
    ReplaceValueLayout(hash, bs, k, pos, v);
    UniqueReplace(multiset(Flatten(bs)), k, w, v);
    FindUnique(Flatten(bs), k, w);
    FindUnique(Flatten(bs'), k, v);
    EditLookups(Flatten(bs'), Flatten(bs), k);
  }

  /** The pairs and placement after appending a pair whose key is absent
    * from its bucket. */
  lemma AppendPairLayout<K(!new), V(!new)>(hash: K -> nat, bs: seq<Bucket<K, V>>, k: K, v: V)
    requires |bs| > 0 && Placed(hash, bs)
    requires forall j :: 0 <= j < |bs[KeyToIndex(hash, k, |bs|)]| ==> bs[KeyToIndex(hash, k, |bs|)][j].0 != k
    ensures var i := KeyToIndex(hash, k, |bs|);
            var bs' := bs[i := bs[i] + [(k, v)]];
            && Placed(hash, bs')
            && multiset(Flatten(bs')) == multiset(Flatten(bs)) + multiset{(k, v)}
            && |Flatten(bs')| == |Flatten(bs)| + 1
            && forall u :: (k, u) !in multiset(Flatten(bs))
  {
    var i := KeyToIndex(hash, k, |bs|);
    var b' := bs[i] + [(k, v)];
    FlattenUpdate(bs, i, b');
    forall u
      ensures (k, u) !in multiset(Flatten(bs))
    {
      KeyInOwnBucket(hash, bs, k, u);
      assert (k, u) in Flatten(bs) <==> (k, u) in multiset(Flatten(bs));
    }
    forall p | p in b'
      ensures KeyToIndex(hash, p.0, |bs|) == i
    {
      if p != (k, v) {
        assert p in bs[i];
      }
    }
    PlacedUpdate(hash, bs, i, b');
  }

  /** Append a pair whose key is absent from its bucket. */
  lemma AppendPair<K(!new), V(!new)>(hash: K -> nat, m: HashMap<K, V>, k: K, v: V)
    requires Valid(hash, m) && |m.buckets| > 0
    requires forall j :: 0 <= j < |m.buckets[KeyToIndex(hash, k, |m.buckets|)]| ==>
               m.buckets[KeyToIndex(hash, k, |m.buckets|)][j].0 != k
    ensures var i := KeyToIndex(hash, k, |m.buckets|);
            var m' := HashMap(m.buckets[i := m.buckets[i] + [(k, v)]], m.items + 1);
            && Valid(hash, m')
            && Lookup(m, k) == None
            && Lookup(m', k) == Some(v)
            && forall k' :: k' != k ==> Lookup(m', k') == Lookup(m, k')
  {
    var bs := m.buckets;
    var i := KeyToIndex(hash, k, |bs|);
    var bs' := bs[i := bs[i] + [(k, v)]];
    AppendPairLayout(hash, bs, k, v);
    UniqueAdd(multiset(Flatten(bs)), k, v);
    FindUnique(Flatten(bs'), k, v);
    EditLookups(Flatten(bs'), Flatten(bs), k);
  }

  lemma DropLastMultiset<T>(b: seq<T>)
    requires |b| > 0
    ensures multiset(b[..|b| - 1]) == multiset(b) - multiset{b[|b| - 1]}
  {
    assert b == b[..|b| - 1] + [b[|b| - 1]];
  }

  lemma SwapLastMultiset<T>(b: seq<T>, pos: nat)
    requires pos < |b| - 1
    ensures multiset(b[pos := b[|b| - 1]][..|b| - 1]) == multiset(b) - multiset{b[pos]}
  {
    var last := |b| - 1;
    assert b == b[..pos] + [b[pos]] + b[pos + 1..last] + [b[last]];
    assert b[pos := b[last]][..last] == b[..pos] + [b[last]] + b[pos + 1..last];
  }

  /** Overwriting slot `pos` with the last element and dropping the last
    * slot: the other slots are kept. */
  lemma SwapLastSlots<T>(b: seq<T>, pos: nat)
    requires pos < |b| - 1
    ensures var r := b[pos := b[|b| - 1]][..|b| - 1];
            && |r| == |b| - 1
            && r[pos] == b[|b| - 1]
            && forall j :: 0 <= j < |r| && j != pos ==> r[j] == b[j]
  {
  }

  /** `Vec::swap_remove`: the last element takes the place of the removed one. */
  function SwapRemove<T>(b: seq<T>, pos: nat): (r: seq<T>)
    requires pos < |b|
    ensures |r| == |b| - 1
    ensures multiset(r) == multiset(b) - multiset{b[pos]}
    ensures forall j :: 0 <= j < |r| && j != pos ==> r[j] == b[j]
    ensures pos < |r| ==> r[pos] == b[|b| - 1]
  {
    if pos == |b| - 1 then
      DropLastMultiset(b);
      b[..|b| - 1]
    else
      SwapLastMultiset(b, pos);
      SwapLastSlots(b, pos);
      b[pos := b[|b| - 1]][..|b| - 1]
  }

  /** The pairs and placement after swap-removing the pair at `pos` in `k`'s bucket. */
  lemma RemoveAtLayout<K(!new), V(!new)>(hash: K -> nat, bs: seq<Bucket<K, V>>, k: K, pos: nat)
    requires |bs| > 0 && Placed(hash, bs)
    requires pos < |bs[KeyToIndex(hash, k, |bs|)]|
    requires bs[KeyToIndex(hash, k, |bs|)][pos].0 == k
    ensures var i := KeyToIndex(hash, k, |bs|);
            var w := bs[i][pos].1;
            var bs' := bs[i := SwapRemove(bs[i], pos)];
            && Placed(hash, bs')
            && (k, w) in multiset(Flatten(bs))
            && multiset(Flatten(bs')) == multiset(Flatten(bs)) - multiset{(k, w)}
            && |Flatten(bs')| == |Flatten(bs)| - 1
  {
    var i := KeyToIndex(hash, k, |bs|);
    var b := bs[i];
    var b' := SwapRemove(b, pos);
    FlattenUpdate(bs, i, b');
    assert b[pos] == (k, b[pos].1);
    assert b[pos] in multiset(b);
    forall p | p in b'
      ensures KeyToIndex(hash, p.0, |bs|) == i
    {
      assert p in multiset(b');
    }
    PlacedUpdate(hash, bs, i, b');
  }

  /** Taking the pair `(k, w)` out of a list of pairs with unique keys:
    * the keys stay unique, `k` goes from `w` to absent, and every other key
    * keeps its value. */
  lemma RemovePairLookups<K(!new), V(!new)>(ps: seq<(K, V)>, qs: seq<(K, V)>, k: K, w: V)
    requires UniqueKeys(multiset(ps)) && (k, w) in multiset(ps)
    requires multiset(qs) == multiset(ps) - multiset{(k, w)}
    ensures UniqueKeys(multiset(qs))
    ensures Find(ps, k) == Some(w) && Find(qs, k) == None
    ensures forall k' :: k' != k ==> Find(qs, k') == Find(ps, k')
  {
    UniqueRemove(multiset(ps), k, w);
    FindUnique(ps, k, w);
    forall u
      ensures (k, u) !in qs
    {
      assert (k, u) !in multiset(qs);
    }
    EditLookups(qs, ps, k);
  }

  /** Swap-remove the pair at `pos` in `k`'s bucket. */
  lemma RemoveAt<K(!new), V(!new)>(hash: K -> nat, m: HashMap<K, V>, k: K, pos: nat)
    requires Valid(hash, m) && |m.buckets| > 0
    requires pos < |m.buckets[KeyToIndex(hash, k, |m.buckets|)]|
    requires m.buckets[KeyToIndex(hash, k, |m.buckets|)][pos].0 == k
    ensures m.items > 0
    ensures var i := KeyToIndex(hash, k, |m.buckets|);
            var m' := HashMap(m.buckets[i := SwapRemove(m.buckets[i], pos)], m.items - 1);
            && Valid(hash, m')
            && Lookup(m, k) == Some(m.buckets[i][pos].1)
            && Lookup(m', k) == None
            && forall k' :: k' != k ==> Lookup(m', k') == Lookup(m, k')
  {
    var bs: seq<Bucket<K, V>> := m.buckets;
    var i := KeyToIndex(hash, k, |bs|);
    var w: V := bs[i][pos].1;
    var bs' := bs[i := SwapRemove(bs[i], pos)];
    RemoveAtLayout(hash, bs, k, pos);
    RemovePairLookups(Flatten(bs), Flatten(bs'), k, w);
  }

  /*************************************************************************
   * Operations
   *************************************************************************/

  /** The outcome of a computation that may stop on a remainder by zero. */
  datatype Checked<T> = Returned(value: T) | RemainderByZero

  /** `get` as the source writes it: the key's bucket index is computed as
    * `hash % buckets.len()` even when there are no buckets yet, which makes
    * Rust stop with a remainder-by-zero panic. */
  function GetAsWritten<K(==,!new), V(!new)>(hash: K -> nat, m: HashMap<K, V>, k: K): (r: Checked<Option<V>>)
    requires Valid(hash, m)
    ensures r.RemainderByZero? <==> |m.buckets| == 0
    ensures r.Returned? ==> r.value == Lookup(m, k)
  {
    if |m.buckets| == 0 then RemainderByZero
    else
      BucketLookup(hash, m, k);
      Returned(Find(m.buckets[KeyToIndex(hash, k, |m.buckets|)], k))
  }

  /** `get`: search the key's own bucket; a map with no buckets holds
    * nothing, so it answers `None` without hashing. */
  function Get<K(==,!new), V(!new)>(hash: K -> nat, m: HashMap<K, V>, k: K): (r: Option<V>)
    requires Valid(hash, m)
    ensures r == Lookup(m, k)
  {
    if |m.buckets| == 0 then None
    else
      BucketLookup(hash, m, k);
      Find(m.buckets[KeyToIndex(hash, k, |m.buckets|)], k)
  }

  /** `get_mut`: the offset, inside the key's own bucket, of the pair whose
    * value the returned `&mut V` designates; `None` when there are no
    * buckets. */
  function GetMut<K(==,!new), V(!new)>(hash: K -> nat, m: HashMap<K, V>, k: K): (r: Option<nat>)
    requires Valid(hash, m)
    ensures r.None? <==> Lookup(m, k).None?
    ensures r.Some? ==>
              && |m.buckets| > 0
              && var b := m.buckets[KeyToIndex(hash, k, |m.buckets|)];
                 r.value < |b| && b[r.value].0 == k && Lookup(m, k) == Some(b[r.value].1)
  {
    if |m.buckets| == 0 then None
    else
      BucketLookup(hash, m, k);
      Position(m.buckets[KeyToIndex(hash, k, |m.buckets|)], k)
  }

  /** A store of `v` through the reference `get_mut` returned. */
  function WriteThrough<K(==,!new), V(!new)>(hash: K -> nat, m: HashMap<K, V>, k: K, pos: nat, v: V): (r: HashMap<K, V>)
    requires Valid(hash, m)
    requires GetMut(hash, m, k) == Some(pos)
    ensures Valid(hash, r)
    ensures Lookup(r, k) == Some(v)
    ensures forall k' :: k' != k ==> Lookup(r, k') == Lookup(m, k')
    ensures r.items == m.items && |r.buckets| == |m.buckets|
  {
    var i := KeyToIndex(hash, k, |m.buckets|);
    var b := m.buckets[i];
    ReplaceValue(hash, m, k, pos, v);
    m.(buckets := m.buckets[i := b[pos := (b[pos].0, v)]])
  }

  /** The load-factor trigger of `insert`, in integer arithmetic. The
    * truncating division loses nothing: the map is resized exactly when it
    * has no buckets or its load factor exceeds three quarters, and a map
    * that is not resized has room for one more item. */
  function NeedsResize<K(!new), V(!new)>(m: HashMap<K, V>): (r: bool)
    ensures r <==> |m.buckets| == 0 || 4 * m.items > 3 * |m.buckets|
    ensures !r ==> m.items < |m.buckets|
  {
    |m.buckets| == 0 || m.items > 3 * |m.buckets| / 4
  }

  /** `insert`: resize first if needed, then overwrite the key's value or
    * append a new pair to its bucket. Returns the previous value. */
  function Insert<K(==,!new), V(!new)>(hash: K -> nat, m: HashMap<K, V>, k: K, v: V): (r: (HashMap<K, V>, Option<V>))
    requires Valid(hash, m)
    ensures Valid(hash, r.0)
    ensures r.1 == Lookup(m, k)
    ensures Lookup(r.0, k) == Some(v)
    ensures forall k' :: k' != k ==> Lookup(r.0, k') == Lookup(m, k')
    ensures r.0.items == if r.1.Some? then m.items else m.items + 1
    ensures |r.0.buckets| == if NeedsResize(m) then GrownCount(|m.buckets|) else |m.buckets|
  {
    var m1 := if NeedsResize(m) then Resize(hash, m) else m;
    ResizeKeepsLookup(hash, m);
    var i := KeyToIndex(hash, k, |m1.buckets|);
    var b := m1.buckets[i];
    match GetMut(hash, m1, k)
    case Some(pos) =>
      (WriteThrough(hash, m1, k, pos, v), Some(b[pos].1))
    case None =>
      AppendPair(hash, m1, k, v);
      (HashMap(m1.buckets[i := b + [(k, v)]], m1.items + 1), None)
  }

  /** `remove`: swap-remove the key's pair from its bucket; a map with no
    * buckets is returned unchanged. */
  function Remove<K(==,!new), V(!new)>(hash: K -> nat, m: HashMap<K, V>, k: K): (r: (HashMap<K, V>, Option<V>))
    requires Valid(hash, m)
    ensures Valid(hash, r.0)
    ensures r.1 == Lookup(m, k)
    ensures Lookup(r.0, k) == None
    ensures forall k' :: k' != k ==> Lookup(r.0, k') == Lookup(m, k')
    ensures r.0.items == if r.1.Some? then m.items - 1 else m.items
    ensures r.1.None? ==> r.0 == m
    ensures |r.0.buckets| == |m.buckets|
  {
    if |m.buckets| == 0 then (m, None)
    else
      var i := KeyToIndex(hash, k, |m.buckets|);
      var b := m.buckets[i];
      match Position(b, k)
      case None =>
        BucketLookup(hash, m, k);
        (m, None)
      case Some(pos) =>
        RemoveAt(hash, m, k, pos);
        (HashMap(m.buckets[i := SwapRemove(b, pos)], m.items - 1), Some(b[pos].1))
  }

  /** `contains_key`; `false` on a map with no buckets. */
  function ContainsKey<K(==,!new), V(!new)>(hash: K -> nat, m: HashMap<K, V>, k: K): (r: bool)
    requires Valid(hash, m)
    ensures r <==> Get(hash, m, k).Some?
    ensures r <==> exists v :: (k, v) in Flatten(m.buckets)
  {
    if |m.buckets| == 0 then false
    else
      BucketLookup(hash, m, k);
      Find(m.buckets[KeyToIndex(hash, k, |m.buckets|)], k).Some?
  }

  /*************************************************************************
   * The lookups as written, on a map with no buckets
   *************************************************************************/

  /** `get_mut` as the source writes it: `% buckets.len()` comes first. */
  function GetMutAsWritten<K(==,!new), V(!new)>(hash: K -> nat, m: HashMap<K, V>, k: K): (r: Checked<Option<nat>>)
    requires Valid(hash, m)
    ensures r.RemainderByZero? <==> |m.buckets| == 0
    ensures r.Returned? ==> r.value == GetMut(hash, m, k)
  {
    if |m.buckets| == 0 then RemainderByZero
    else Returned(Position(m.buckets[KeyToIndex(hash, k, |m.buckets|)], k))
  }

  /** `remove` as the source writes it: `% buckets.len()` comes first. */
  function RemoveAsWritten<K(==,!new), V(!new)>(hash: K -> nat, m: HashMap<K, V>, k: K): (r: Checked<(HashMap<K, V>, Option<V>)>)
    requires Valid(hash, m)
    ensures r.RemainderByZero? <==> |m.buckets| == 0
    ensures r.Returned? ==> r.value == Remove(hash, m, k)
  {
    if |m.buckets| == 0 then RemainderByZero
    else
      var i := KeyToIndex(hash, k, |m.buckets|);
      var b := m.buckets[i];
      match Position(b, k)
      case None => Returned((m, None))
      case Some(pos) =>
        RemoveAt(hash, m, k, pos);
        Returned((HashMap(m.buckets[i := SwapRemove(b, pos)], m.items - 1), Some(b[pos].1)))
  }

  /** `contains_key` as the source writes it: `% buckets.len()` comes first. */
  function ContainsKeyAsWritten<K(==,!new), V(!new)>(hash: K -> nat, m: HashMap<K, V>, k: K): (r: Checked<bool>)
    requires Valid(hash, m)
    ensures r.RemainderByZero? <==> |m.buckets| == 0
    ensures r.Returned? ==> r.value == ContainsKey(hash, m, k)
  {
    if |m.buckets| == 0 then RemainderByZero
    else Returned(Find(m.buckets[KeyToIndex(hash, k, |m.buckets|)], k).Some?)
  }

  /** On a fresh map, which holds no key at all, `get`, `get_mut`, `remove`
    * and `contains_key` as written all panic instead of answering "absent". */
  lemma QueriesOnNewMapPanic<K(!new), V(!new)>(hash: K -> nat, k: K)
    ensures Lookup(New<K, V>(), k) == None
    ensures GetAsWritten(hash, New<K, V>(), k) == RemainderByZero
    ensures GetMutAsWritten(hash, New<K, V>(), k) == RemainderByZero
    ensures RemoveAsWritten(hash, New<K, V>(), k) == RemainderByZero
    ensures ContainsKeyAsWritten(hash, New<K, V>(), k) == RemainderByZero
  {
    NewValid<K, V>(hash);
  }
}
