/** The k-th-largest adapter over quickselect and the paired-comparison
    minimum/maximum scan (order_statistics.py). */
module OrderStatistics {
  import opened Outcomes
  import opened SortedSpec
  import QuickSelect

  /** Returns the `k`-th largest element of `a` (one-based, duplicates
      counted), which is the element at position `n - k` of the sorted list.
      Like the selection it delegates to, it reorders `a` in place. */
  method FindKthLargest(a: array<int>, k: int) returns (r: Result<int>)
    modifies a
    ensures a.Length == 0 ==> r == Err(EmptyInput)
    ensures a.Length > 0 && (k <= 0 || k > a.Length) ==> r == Err(InvalidRank)
    ensures 1 <= k <= a.Length ==> r == Ok(SortedOf(old(a[..]))[a.Length - k])
    ensures r.Ok? ==> r.value == a[a.Length - k]
    ensures r.Err? ==> a[..] == old(a[..])
    ensures multiset(a[..]) == old(multiset(a[..]))
  {
    var n := a.Length;
    if n == 0 {
      return Err(EmptyInput);
    }
    if k <= 0 || k > n {
      return Err(InvalidRank);
    }
    // the k-th largest is the (n - k)-th smallest, counting from zero
    var kthSmallestIndex := n - k;
    r := QuickSelect.QuickSelect(a, kthSmallestIndex);
  }

  /** The number of element comparisons the scan makes on a list of length
      `n`: none to seed from one element (odd `n`) or one to seed from two
      (even `n`), then three for each remaining pair. */
  function MinMaxComparisons(n: nat): nat {
    if n == 0 then 0
    else if n % 2 == 1 then 3 * ((n - 1) / 2)
    else 1 + 3 * ((n - 2) / 2)
  }

  /** The pairwise scan never makes more than the ceiling of 3n/2 comparisons. */
  lemma MinMaxComparisonsBound(n: nat)
    ensures MinMaxComparisons(n) <= (3 * n + 1) / 2
    ensures n >= 2 ==> MinMaxComparisons(n) < 2 * n - 2
  {
  }

  /** Returns the smallest and the largest element of `a`, scanning it once
      in pairs.  `comparisons` counts the element comparisons made. */
  method FindMinMax(a: array<int>) returns (r: Result<(int, int)>, ghost comparisons: nat)
    ensures a.Length == 0 <==> r == Err(EmptyInput)
    ensures a.Length > 0 ==> r.Ok?
    ensures r.Ok? ==> IsMinimum(a[..], r.value.0) && IsMaximum(a[..], r.value.1)
    ensures r.Ok? ==> r.value.0 <= r.value.1
    ensures comparisons == MinMaxComparisons(a.Length)
  {
    var n := a.Length;
    if n == 0 {
      return Err(EmptyInput), 0;
    }
    var minVal, maxVal, startIndex;
    ghost var minAt, maxAt;
    if n % 2 == 1 {
      // odd length: seed both from the first element
      minVal, maxVal := a[0], a[0];
      minAt, maxAt := 0, 0;
      startIndex := 1;
      comparisons := 0;
    } else {
      // even length: order the first two elements (one comparison)
      comparisons := 1;
      if a[0] < a[1] {
        minVal, maxVal := a[0], a[1];
        minAt, maxAt := 0, 1;
      } else {
        minVal, maxVal := a[1], a[0];
        minAt, maxAt := 1, 0;
      }
      startIndex := 2;
    }
    ghost var seeding, pairs := comparisons, 0;
    var i := startIndex;
    while i < n - 1
      invariant startIndex <= i <= n && (n - i) % 2 == 0
      invariant i == startIndex + 2 * pairs
      invariant 0 <= minAt < i && a[minAt] == minVal
      invariant 0 <= maxAt < i && a[maxAt] == maxVal
      invariant forall j :: 0 <= j < i ==> minVal <= a[j] <= maxVal
      invariant comparisons == seeding + 3 * pairs
      decreases n - i
    {
      var currentMin, currentMax;
      ghost var currentMinAt, currentMaxAt;
      // order the pair, then compare its smaller element with the running
      // minimum and its larger element with the running maximum; each
      // comparison is counted just before it is made
      comparisons := comparisons + 1;
      if a[i] < a[i + 1] {
        currentMin, currentMax := a[i], a[i + 1];
        currentMinAt, currentMaxAt := i, i + 1;
      } else {
        currentMin, currentMax := a[i + 1], a[i];
        currentMinAt, currentMaxAt := i + 1, i;
      }
      comparisons := comparisons + 1;
      if currentMin < minVal {
        minVal, minAt := currentMin, currentMinAt;
      }
      comparisons := comparisons + 1;
      if currentMax > maxVal {
        maxVal, maxAt := currentMax, currentMaxAt;
      }
      pairs := pairs + 1;
      i := i + 2;
    }
    assert i == n;
    r := Ok((minVal, maxVal));
    assert IsMinimum(a[..], minVal) by {
      assert a[..][minAt] == minVal;
    }
    assert IsMaximum(a[..], maxVal) by {
      assert a[..][maxAt] == maxVal;
    }
  }
}
