/** Sequence helpers shared by the vector, the owning map iterator and the sorts. */
module Seqs {

  /** The sequence read back to front. */
  function Reverse<T>(s: seq<T>): (r: seq<T>)
    ensures |r| == |s|
    ensures multiset(r) == multiset(s)
  {
    if |s| == 0 then []
    else
      assert s == s[..|s| - 1] + [s[|s| - 1]];
      [s[|s| - 1]] + Reverse(s[..|s| - 1])
  }

  /** Reversal moves the last element to the front. */
  lemma ReverseLast<T>(s: seq<T>)
    requires |s| > 0
    ensures Reverse(s) == [s[|s| - 1]] + Reverse(s[..|s| - 1])
  {
  }

  lemma Associative<T>(a: seq<T>, b: seq<T>, c: seq<T>)
    ensures (a + b) + c == a + (b + c)
  {
  }

  /** Ascending order (non-strict). */
  predicate Sorted(s: seq<int>)
  {
    forall i, j :: 0 <= i < j < |s| ==> s[i] <= s[j]
  }

  /** Appending `x` to a sorted sequence whose elements are all at most `x`. */
  lemma AppendSorted(s: seq<int>, x: int)
    requires Sorted(s)
    requires forall k :: 0 <= k < |s| ==> s[k] <= x
    ensures Sorted(s + [x])
  {
  }

  /** Appending a sorted tail whose elements all dominate the sorted front. */
  lemma ConcatSorted(s: seq<int>, t: seq<int>)
    requires Sorted(s) && Sorted(t)
    requires forall a, b :: 0 <= a < |s| && 0 <= b < |t| ==> s[a] <= t[b]
    ensures Sorted(s + t)
  {
  }

  /** An upper bound on every element survives a permutation. */
  lemma AtMostPermuted(s: seq<int>, t: seq<int>, x: int)
    requires multiset(s) == multiset(t)
    requires forall k :: 0 <= k < |t| ==> t[k] <= x
    ensures forall k :: 0 <= k < |s| ==> s[k] <= x
  {
    forall k | 0 <= k < |s|
      ensures s[k] <= x
    {
      assert s[k] in multiset(t);
    }
  }

  /** A strict lower bound on every element survives a permutation. */
  lemma AbovePermuted(s: seq<int>, t: seq<int>, x: int)
    requires multiset(s) == multiset(t)
    requires forall k :: 0 <= k < |t| ==> x < t[k]
    ensures forall k :: 0 <= k < |s| ==> x < s[k]
  {
    forall k | 0 <= k < |s|
      ensures x < s[k]
    {
      assert s[k] in multiset(t);
    }
  }

  /** The first element of a sorted sequence is its least. */
  lemma HeadIsLeast(s: seq<int>, x: int)
    requires Sorted(s) && x in multiset(s)
    ensures |s| > 0 && s[0] <= x
  {
    var k :| 0 <= k < |s| && s[k] == x;
  }

  /** Dropping the first element takes one copy of it out of the multiset. */
  lemma DropFirst(s: seq<int>)
    requires |s| > 0
    ensures multiset(s[1..]) == multiset(s) - multiset{s[0]}
  {
    assert s == [s[0]] + s[1..];
  }

  /** Two non-empty sorted permutations of each other share their first
    * element, and their tails are again sorted permutations of each other. */
  lemma SortedHeads(a: seq<int>, b: seq<int>)
    requires Sorted(a) && Sorted(b)
    requires multiset(a) == multiset(b) && |a| > 0
    ensures |b| > 0 && a[0] == b[0]
    ensures Sorted(a[1..]) && Sorted(b[1..])
    ensures multiset(a[1..]) == multiset(b[1..])
  {
    HeadIsLeast(b, a[0]);
    HeadIsLeast(a, b[0]);
    DropFirst(a);
    DropFirst(b);
  }

  /** A multiset has exactly one ascending arrangement: two sorted
    * permutations of each other are equal. */
  lemma {:induction false} SortedUnique(a: seq<int>, b: seq<int>)
    requires Sorted(a) && Sorted(b)
    requires multiset(a) == multiset(b)
    ensures a == b
    decreases |a|
  {
    if |a| == 0 {
      assert |b| == |multiset(b)| == 0;
    } else {
      SortedHeads(a, b);
      SortedUnique(a[1..], b[1..]);
      assert a == [a[0]] + a[1..];
      assert b == [b[0]] + b[1..];
    }
  }
}
