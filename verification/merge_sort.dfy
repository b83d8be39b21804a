/**
 * Top-down merge sort of a slice of integers. The slice is a sequence value:
 * each method returns the slice's final contents.
 */
module MergeSort {
  import opened Seqs

  /** The state of the merge loop: `result` interleaves `left[..i]` and
    * `right[..j]` in order, and no element of it exceeds a remaining head. */
  predicate MergeInv(left: seq<int>, right: seq<int>, i: nat, j: nat, result: seq<int>)
  {
    && i <= |left| && j <= |right|
    && |result| == i + j
    && Sorted(result)
    && multiset(result) == multiset(left[..i]) + multiset(right[..j])
    && (forall k :: 0 <= k < |result| ==> (i < |left| ==> result[k] <= left[i]) && (j < |right| ==> result[k] <= right[j]))
  }

  /** Taking the left head keeps the loop state. */
  lemma TakeLeft(left: seq<int>, right: seq<int>, i: nat, j: nat, result: seq<int>)
    requires Sorted(left) && MergeInv(left, right, i, j, result) && i < |left| && j < |right| && left[i] < right[j]
    ensures MergeInv(left, right, i + 1, j, result + [left[i]])
  {
    assert left[..i + 1] == left[..i] + [left[i]];
    AppendSorted(result, left[i]);
  }

  /** Taking the right head keeps the loop state. */
  lemma TakeRight(left: seq<int>, right: seq<int>, i: nat, j: nat, result: seq<int>)
    requires Sorted(right) && MergeInv(left, right, i, j, result) && i < |left| && j < |right| && !(left[i] < right[j])
    ensures MergeInv(left, right, i, j + 1, result + [right[j]])
  {
    assert right[..j + 1] == right[..j] + [right[j]];
    AppendSorted(result, right[j]);
  }

  /** Once one run is exhausted, appending the other run's remainder
    * completes a sorted permutation of both runs. */
  lemma AppendRemainder(left: seq<int>, right: seq<int>, i: nat, j: nat, result: seq<int>)
    requires Sorted(left) && Sorted(right)
    requires MergeInv(left, right, i, j, result) && (i == |left| || j == |right|)
    ensures var rest := if i < |left| then left[i..] else right[j..];
            && Sorted(result + rest)
            && multiset(result + rest) == multiset(left + right)
            && |result + rest| == |left| + |right|
  {
    assert left == left[..i] + left[i..];
    assert right == right[..j] + right[j..];
    if i < |left| {
      ConcatSorted(result, left[i..]);
    } else {
      ConcatSorted(result, right[j..]);
    }
  }

  /** The merge loop of `merge_sort`, `slice.copy_from_slice(&result)`
    * included. The slice's sorted halves `slice[..mid]` and `slice[mid..]`
    * are `left` and `right`; the source's index `j` into the slice is
    * `mid + j` here. Ties take the right-hand element, as the strict `<` in
    * the source does. */
  method Merge(left: seq<int>, right: seq<int>) returns (result: seq<int>)
    requires Sorted(left) && Sorted(right)
    ensures |result| == |left| + |right|
    ensures Sorted(result)
    ensures multiset(result) == multiset(left + right)
  {
    var i: nat, j: nat := 0, 0;
    result := [];
    while i < |left| && j < |right|
      invariant MergeInv(left, right, i, j, result)
      decreases (|left| - i) + (|right| - j)
    {
      if left[i] < right[j] {
        TakeLeft(left, right, i, j, result);
        result := result + [left[i]];
        i := i + 1;
      } else {
        TakeRight(left, right, i, j, result);
        result := result + [right[j]];
        j := j + 1;
      }
    }
    // The source's two tail copies: at most one run has elements left.
    var rest := if i < |left| then left[i..] else right[j..];
    AppendRemainder(left, right, i, j, result);
    result := result + rest;
  }

  /** `merge_sort`: sort both halves, then merge them. */
  method MergeSort(s: seq<int>) returns (r: seq<int>)
    ensures Sorted(r)
    ensures multiset(r) == multiset(s)
    ensures |r| == |s|
    ensures |s| < 2 ==> r == s
    decreases |s|
  {
    if |s| < 2 {
      return s;
    }
    var mid := |s| / 2;
    var left := MergeSort(s[..mid]);
    var right := MergeSort(s[mid..]);
    assert s == s[..mid] + s[mid..];
    r := Merge(left, right);
  }
}
