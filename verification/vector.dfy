/**
 * A growable stack vector: the live elements as a sequence plus the
 * capacity of the allocation behind them. The allocation itself is not
 * modelled; only the capacity policy (0, then 1, then doubling) is.
 */
module Vectors {
  import opened Wrappers
  import Seqs

  datatype Vector<T> = Vector(elems: seq<T>, cap: nat)

  /** The live elements always fit in the allocation. */
  predicate Valid<T>(v: Vector<T>)
  {
    |v.elems| <= v.cap
  }

  /** Capacities the growth policy produces: 1, 2, 4, 8, ... */
  predicate IsPowerOfTwo(n: nat)
    decreases n
  {
    n == 1 || (n > 1 && n % 2 == 0 && IsPowerOfTwo(n / 2))
  }

  /** `Vector::new`: nothing stored, nothing allocated. */
  function New<T>(): (r: Vector<T>)
    ensures |r.elems| == 0 && r.cap == 0
    ensures Valid(r)
  {
    Vector([], 0)
  }

  /** `len`: the number of live elements, never more than the allocation
    * holds. */
  function Len<T>(v: Vector<T>): (r: nat)
    ensures Valid(v) ==> r <= v.cap
    ensures r == 0 <==> v.elems == []
  {
    |v.elems|
  }

  /** `capacity`: room for at least the live elements. */
  function Capacity<T>(v: Vector<T>): (r: nat)
    ensures Valid(v) ==> |v.elems| <= r
  {
    v.cap
  }

  /** `grow`: allocate room for one element the first time, then double.
    * The elements are kept. */
  function Grow<T>(v: Vector<T>): (r: Vector<T>)
    ensures r.elems == v.elems
    ensures v.cap < r.cap <= 2 * v.cap + 1
    ensures v.cap == 0 || IsPowerOfTwo(v.cap) ==> IsPowerOfTwo(r.cap)
  {
    var newCap := if v.cap == 0 then 1 else v.cap * 2;
    assert newCap != 1 ==> newCap / 2 == v.cap;
    Vector(v.elems, newCap)
  }

  /** `push`: grow when full, then store `x` after the last element. */
  function Push<T>(v: Vector<T>, x: T): (r: Vector<T>)
    ensures r.elems == v.elems + [x]
    ensures Valid(v) ==> Valid(r)
    ensures r.cap == if |v.elems| == v.cap then Grow(v).cap else v.cap
  {
    var g := if |v.elems| == v.cap then Grow(v) else v;
    Vector(g.elems + [x], g.cap)
  }

  /** `pop`: `None` on an empty vector; otherwise remove and return the last
    * element. The allocation is never shrunk. */
  function Pop<T>(v: Vector<T>): (r: (Vector<T>, Option<T>))
    ensures r.1.None? <==> |v.elems| == 0
    ensures r.1.None? ==> r.0 == v
    ensures r.1.Some? ==> v.elems == r.0.elems + [r.1.value]
    ensures r.0.cap == v.cap
    ensures Valid(v) ==> Valid(r.0)
  {
    if |v.elems| == 0 then (v, None)
    else
      var n := |v.elems| - 1;
      assert v.elems == v.elems[..n] + [v.elems[n]];
      (v.(elems := v.elems[..n]), Some(v.elems[n]))
  }

  /** `peek`: the element the next `pop` would return, without removing it. */
  function Peek<T>(v: Vector<T>): (r: Option<T>)
    ensures r == Pop(v).1
  {
    if |v.elems| == 0 then None else Some(v.elems[|v.elems| - 1])
  }

  /** Pop after push gives back the pushed element and the old contents. */
  lemma PushPop<T>(v: Vector<T>, x: T)
    ensures Pop(Push(v, x)).1 == Some(x)
    ensures Pop(Push(v, x)).0.elems == v.elems
  {
  }

  /** Push every element of `xs`, first to last. */
  function PushAll<T>(v: Vector<T>, xs: seq<T>): (r: Vector<T>)
    ensures r.elems == v.elems + xs
    ensures Valid(v) ==> Valid(r)
    decreases |xs|
  {
    if |xs| == 0 then v
    else
      assert xs == xs[..|xs| - 1] + [xs[|xs| - 1]];
      Push(PushAll(v, xs[..|xs| - 1]), xs[|xs| - 1])
  }

  /** Pop until `pop` returns `None`; the elements in the order returned. */
  function PopAll<T>(v: Vector<T>): (r: seq<T>)
    ensures r == Seqs.Reverse(v.elems)
    decreases |v.elems|
  {
    match Pop(v)
    case (_, None) => []
    case (rest, Some(x)) =>
      Seqs.ReverseLast(v.elems);
      assert rest.elems == v.elems[..|v.elems| - 1];
      [x] + PopAll(rest)
  }

  /** `pop` applied `n` times. */
  function PopTimes<T>(v: Vector<T>, n: nat): (r: Vector<T>)
    ensures n <= |v.elems| ==> r.elems == v.elems[..|v.elems| - n]
    ensures n >= |v.elems| ==> r.elems == []
    ensures r.cap == v.cap
    decreases n
  {
    if n == 0 then v else PopTimes(Pop(v).0, n - 1)
  }

  /** Pushing `xs` onto a new vector and popping returns `xs` back to front,
    * and a further `pop` (or `peek`) finds nothing. */
  lemma PushThenPopAll<T>(xs: seq<T>)
    ensures var v := PushAll(New(), xs);
            && PopAll(v) == Seqs.Reverse(xs)
            && Pop(PopTimes(v, |xs|)).1 == None
            && Peek(PopTimes(v, |xs|)) == None
  {
  }

  /** Capacity of a new vector after `n` pushes. */
  function CapAfterPushes(n: nat): nat
  {
    if n == 0 then 0
    else
      var c := CapAfterPushes(n - 1);
      if n - 1 == c then (if c == 0 then 1 else 2 * c) else c
  }

  /** The capacity of a new vector depends only on how many elements were
    * pushed. */
  lemma {:induction false} PushAllCapacity<T>(xs: seq<T>)
    ensures PushAll(New(), xs).cap == CapAfterPushes(|xs|)
    decreases |xs|
  {
    if |xs| > 0 {
      PushAllCapacity(xs[..|xs| - 1]);
    }
  }

  /** After `n > 0` pushes into a new vector the capacity is the least power
    * of two that holds `n` elements. */
  lemma {:induction false} CapacityIsLeastPowerOfTwo(n: nat)
    requires n > 0
    ensures IsPowerOfTwo(CapAfterPushes(n))
    ensures n <= CapAfterPushes(n) < 2 * n
    decreases n
  {
    if n > 1 {
      CapacityIsLeastPowerOfTwo(n - 1);
      var c := CapAfterPushes(n - 1);
      if n - 1 == c {
        assert (2 * c) / 2 == c;
      }
    }
  }

  /** The source's tests: one push gives capacity 1; ten pushes give length
    * 10 and capacity 16. */
  lemma PushCapacities<T>(x: T, xs: seq<T>)
    requires |xs| == 10
    ensures Len(Push(New(), x)) == 1 && Capacity(Push(New(), x)) == 1
    ensures Len(PushAll(New(), xs)) == 10 && Capacity(PushAll(New(), xs)) == 16
  {
    PushAllCapacity(xs);
    assert CapAfterPushes(4) == 4;
    assert CapAfterPushes(8) == 8;
  }
}
