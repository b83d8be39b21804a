/**
 * Quicksort with the Lomuto partition scheme, on a slice of integers held as
 * a sequence value: each method returns the slice's final contents.
 */
module Quicksort {
  import opened Seqs

  /** `slice.swap(a, b)`: exchange two positions, leave the rest. */
  function Swap(s: seq<int>, a: nat, b: nat): (r: seq<int>)
    requires a < |s| && b < |s|
    ensures |r| == |s|
    ensures r[a] == s[b] && r[b] == s[a]
    ensures forall k :: 0 <= k < |s| && k != a && k != b ==> r[k] == s[k]
    ensures multiset(r) == multiset(s)
  {
    s[a := s[b]][b := s[a]]
  }

  /** The state of the partition loop after `j` comparisons: positions below
    * `i` hold elements at most the pivot, positions `i..j` hold elements
    * above it, and the pivot has not moved from the last position. */
  predicate PartitionInv(s: seq<int>, t: seq<int>, i: nat, j: nat)
  {
    && |s| > 0 && |t| == |s|
    && i <= j <= |t| - 1
    && t[|t| - 1] == s[|s| - 1]
    && (forall k :: 0 <= k < i ==> t[k] <= t[|t| - 1])
    && (forall k :: i <= k < j ==> t[|t| - 1] < t[k])
    && multiset(t) == multiset(s)
  }

  /** One step of the `for` loop keeps the partition state. */
  lemma PartitionStep(s: seq<int>, t: seq<int>, i: nat, j: nat)
    requires PartitionInv(s, t, i, j) && j < |t| - 1
    ensures t[j] <= t[|t| - 1] ==> PartitionInv(s, Swap(t, i, j), i + 1, j + 1)
    ensures !(t[j] <= t[|t| - 1]) ==> PartitionInv(s, t, i, j + 1)
  {
  }

  /** The final swap puts the pivot between the two groups. */
  lemma PlacePivot(s: seq<int>, t: seq<int>, i: nat)
    requires |t| > 0 && PartitionInv(s, t, i, |t| - 1)
    ensures var r := Swap(t, i, |t| - 1);
            && r[i] == s[|s| - 1]
            && (forall k :: 0 <= k < i ==> r[k] <= r[i])
            && (forall k :: i < k < |r| ==> r[i] < r[k])
            && multiset(r) == multiset(s)
  {
  }

  /** `lomuto_partition`: the last element is the pivot; every element at
    * most the pivot is swapped to the front, then the pivot is swapped in
    * right after them and its index returned. The source computes
    * `len - 1` on an unsigned length, so an empty slice is not accepted. */
  method LomutoPartition(s: seq<int>) returns (r: seq<int>, p: nat)
    requires |s| > 0
    ensures |r| == |s| && p < |r|
    ensures r[p] == s[|s| - 1]
    ensures forall k :: 0 <= k < p ==> r[k] <= r[p]
    ensures forall k :: p < k < |r| ==> r[p] < r[k]
    ensures multiset(r) == multiset(s)
  {
    var t := s;
    var i: nat := 0;
    for j := 0 to |s| - 1
      invariant PartitionInv(s, t, i, j)
    {
      PartitionStep(s, t, i, j);
      if t[j] <= t[|t| - 1] {
        t := Swap(t, i, j);
        i := i + 1;
      }
    }
    PlacePivot(s, t, i);
    r := Swap(t, i, |t| - 1);
    p := i;
  }

  /** Gluing the sorted lower part, the pivot and the sorted upper part. */
  lemma Assemble(left: seq<int>, pivot: int, right: seq<int>)
    requires Sorted(left) && Sorted(right)
    requires forall k :: 0 <= k < |left| ==> left[k] <= pivot
    requires forall k :: 0 <= k < |right| ==> pivot < right[k]
    ensures Sorted(left + [pivot] + right)
  {
    AppendSorted(left, pivot);
    ConcatSorted(left + [pivot], right);
  }

  /** `quicksort`: partition, then sort the parts before and after the pivot
    * in place; the pivot itself stays where the partition put it. */
  method Quicksort(s: seq<int>) returns (r: seq<int>)
    ensures Sorted(r)
    ensures multiset(r) == multiset(s)
    ensures |r| == |s|
    ensures |s| < 2 ==> r == s
    decreases |s|
  {
    if |s| < 2 {
      return s;
    }
    var t, p := LomutoPartition(s);
    var left := Quicksort(t[..p]);
    var right := Quicksort(t[p + 1..]);
    AtMostPermuted(left, t[..p], t[p]);
    AbovePermuted(right, t[p + 1..], t[p]);
    Assemble(left, t[p], right);
    assert t == t[..p] + [t[p]] + t[p + 1..];
    r := left + [t[p]] + right;
  }
}
