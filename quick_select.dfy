/** Quickselect with a Lomuto partition, working in place on an integer array
    (quickSelect.py).  The random pivot draw is an arbitrary choice in
    `[left, right]`, so every result below holds whichever index is drawn. */
module QuickSelect {
  import opened Outcomes
  import opened SortedSpec

  /** `s[left..right]` (inclusive) is split at `p`: everything before `p` is
      strictly smaller than `s[p]`, everything after it is at least `s[p]`. */
  ghost predicate Partitioned(s: seq<int>, left: int, p: int, right: int)
    requires 0 <= left <= p <= right < |s|
  {
    (forall i :: left <= i < p ==> s[i] < s[p]) &&
    (forall i :: p < i <= right ==> s[p] <= s[i])
  }

  /** After a partition the pivot sits at its own rank of the range: the
      element at `p` is the one at position `p - left` of the sorted range. */
  lemma PartitionedAtRank(s: seq<int>, left: int, p: int, right: int, orig: seq<int>)
    requires 0 <= left <= p <= right < |s|
    requires Partitioned(s, left, p, right)
    requires multiset(s[left..right + 1]) == multiset(orig)
    ensures |SortedOf(orig)| == right + 1 - left
    ensures s[p] == SortedOf(orig)[p - left]
  {
    SelectedIsSortedAt(s, left, p, right, orig);
  }

  /** Selecting inside the part below the pivot of a partitioned range puts
      the selected element in place for the whole range. */
  lemma SelectedBelowPivot(mid: seq<int>, fin: seq<int>, left: int, k: int, p: int, right: int)
    requires 0 <= left <= k < p <= right < |mid| == |fin|
    requires Partitioned(mid, left, p, right)
    requires InPlace(fin, left, k, p - 1)
    requires multiset(fin) == multiset(mid)
    requires SameOutside(fin, mid, left, p - 1)
    ensures InPlace(fin, left, k, right)
  {
    RangeMultiset(fin, mid, left, p - 1);
    assert fin[left..p - 1 + 1] == fin[left..p] && mid[left..p - 1 + 1] == mid[left..p];
    AllAtMost(mid[left..p], fin[left..p], mid[p] - 1);
    assert fin[k] == fin[left..p][k - left];
  }

  /** Selecting inside the part above the pivot of a partitioned range puts
      the selected element in place for the whole range. */
  lemma SelectedAbovePivot(mid: seq<int>, fin: seq<int>, left: int, k: int, p: int, right: int)
    requires 0 <= left <= p < k <= right < |mid| == |fin|
    requires Partitioned(mid, left, p, right)
    requires InPlace(fin, p + 1, k, right)
    requires multiset(fin) == multiset(mid)
    requires SameOutside(fin, mid, p + 1, right)
    ensures InPlace(fin, left, k, right)
  {
    RangeMultiset(fin, mid, p + 1, right);
    AllAtLeast(mid[p + 1..right + 1], fin[p + 1..right + 1], mid[p]);
    assert fin[k] == fin[p + 1..right + 1][k - p - 1];
  }

  /** Exchanges `a[i]` and `a[j]`. */
  method Swap(a: array<int>, i: int, j: int)
    requires 0 <= i < a.Length && 0 <= j < a.Length
    modifies a
    ensures a[i] == old(a[j]) && a[j] == old(a[i])
    ensures forall m :: 0 <= m < a.Length && m != i && m != j ==> a[m] == old(a[m])
    ensures multiset(a[..]) == old(multiset(a[..]))
  {
    a[i], a[j] := a[j], a[i];
  }

  /** Rearranges `a[left..right]` (inclusive) around the element at
      `pivotIndex` and returns the index where that element ends up.
      Smaller elements go before it; equal and larger ones after it. */
  method Partition(a: array<int>, left: int, right: int, pivotIndex: int) returns (r: int)
    requires 0 <= left <= pivotIndex <= right < a.Length
    modifies a
    ensures left <= r <= right
    ensures a[r] == old(a[pivotIndex])
    ensures Partitioned(a[..], left, r, right)
    ensures multiset(a[..]) == old(multiset(a[..]))
    ensures SameOutside(a[..], old(a[..]), left, right)
  {
    // move the pivot out of the way, to the right end
    Swap(a, pivotIndex, right);
    var finalIndex := left;
    for i := left to right
      invariant left <= finalIndex <= i
      invariant a[right] == old(a[pivotIndex])
      invariant forall j :: left <= j < finalIndex ==> a[j] < a[right]
      invariant forall j :: finalIndex <= j < i ==> a[right] <= a[j]
      invariant multiset(a[..]) == old(multiset(a[..]))
      invariant SameOutside(a[..], old(a[..]), left, right)
    {
      if a[i] < a[right] {
        Swap(a, finalIndex, i);
        finalIndex := finalIndex + 1;
      }
    }
    // put the pivot just after the smaller elements
    Swap(a, right, finalIndex);
    r := finalIndex;
  }

  /** Finds the element of rank `k - left` of `a[left..right]` (inclusive),
      narrowing the range around one arbitrarily chosen pivot per step.
      On return that element sits at index `k`, in its sorted place. */
  method PivotSelector(a: array<int>, k: int, left: int, right: int) returns (v: int)
    requires 0 <= left <= k <= right < a.Length
    modifies a
    decreases right - left
    ensures v == a[k]
    ensures v == SortedOf(old(a[left..right + 1]))[k - left]
    ensures InPlace(a[..], left, k, right)
    ensures multiset(a[..]) == old(multiset(a[..]))
    ensures SameOutside(a[..], old(a[..]), left, right)
  {
    if left == right {
      v := a[left];
      SelectedIsSortedAt(a[..], left, k, right, a[left..right + 1]);
      return;
    }
    var pivotIndex :| left <= pivotIndex <= right;
    pivotIndex := Partition(a, left, right, pivotIndex);
    ghost var mid := a[..];
    if k == pivotIndex {
      v := a[k];
      RangeMultiset(a[..], old(a[..]), left, right);
      assert old(a[..])[left..right + 1] == old(a[left..right + 1]);
      PartitionedAtRank(a[..], left, k, right, old(a[left..right + 1]));
      return;
    } else if k < pivotIndex {
      v := PivotSelector(a, k, left, pivotIndex - 1);
      SelectedBelowPivot(mid, a[..], left, k, pivotIndex, right);
      SameOutsideNarrower(a[..], mid, old(a[..]), left, right, left, pivotIndex - 1);
    } else {
      v := PivotSelector(a, k, pivotIndex + 1, right);
      SelectedAbovePivot(mid, a[..], left, k, pivotIndex, right);
      SameOutsideNarrower(a[..], mid, old(a[..]), left, right, pivotIndex + 1, right);
    }
    RangeMultiset(a[..], old(a[..]), left, right);
    assert old(a[..])[left..right + 1] == old(a[left..right + 1]);
    SelectedIsSortedAt(a[..], left, k, right, old(a[left..right + 1]));
  }

  /** Returns the `k`-th smallest element of `a` (zero-based), that is the
      element at position `k` of the sorted list, reordering `a` in place. */
  method QuickSelect(a: array<int>, k: int) returns (r: Result<int>)
    modifies a
    ensures r == if 0 <= k < a.Length then Ok(SortedOf(old(a[..]))[k]) else Err(OutOfRange)
    ensures a.Length == 0 ==> r == Err(OutOfRange)
    ensures r.Err? ==> a[..] == old(a[..])
    ensures r.Ok? ==> r.value == a[k] && InPlace(a[..], 0, k, a.Length - 1)
    ensures multiset(a[..]) == old(multiset(a[..]))
  {
    if k < 0 || k >= a.Length {
      return Err(OutOfRange);
    }
    // the source's separate empty-list check cannot fire here: an empty
    // array has already failed the rank check above
    assert a.Length > 0;
    assert old(a[..]) == old(a[0..a.Length]);
    var v := PivotSelector(a, k, 0, a.Length - 1);
    r := Ok(v);
  }
}
