/**
  The three-way partitioning quicksort of `src/sbsqsort.rs` (Sedgewick and
  Bentley, "Quicksort is Optimal"): it sorts a value array in place and
  applies its swaps to a key array as well. Line numbers in the comments
  below refer to that file.

  The comparator is fixed to the natural order on `int`. The Rust `unsafe`
  raw reference to the pivot slot `arr[right]` is modelled by a copy of that slot's
  value taken before the partition loop; the loop invariant `arr[right] == v`
  shows that the slot is never written while the loop runs.

  As in the source, the swap of the two straddling elements inside the
  partition loop moves values only, not keys. The flag `mirrorStraddle`
  selects a variant in which that swap is applied to the keys too; the
  source's entry point `Quicksort` runs with the flag off, and only the variant
  `QuicksortPaired` promises that (value, key) pairs survive the sort.
*/
module Sbsqsort {

  /** The (value, key) pair held at every position of the value array. */
  ghost function Pairs<K>(a: seq<int>, k: seq<K>): (r: seq<(int, K)>)
    requires |a| <= |k|
    ensures |r| == |a|
  {
    seq(|a|, x requires 0 <= x < |a| => (a[x], k[x]))
  }

  /** `a` agrees with `b` at every position outside [lo, hi). */
  ghost predicate SameOutside<T>(a: seq<T>, b: seq<T>, lo: int, hi: int)
  {
    |a| == |b| && forall x :: 0 <= x < |a| && !(lo <= x < hi) ==> a[x] == b[x]
  }

  /** Agreement outside a range survives a second change made inside a range within it. */
  lemma SameOutsideChain<T>(a: seq<T>, b: seq<T>, c: seq<T>, lo: int, hi: int, lo': int, hi': int)
    requires lo <= lo' && hi' <= hi
    requires SameOutside(a, b, lo, hi) && SameOutside(b, c, lo', hi')
    ensures SameOutside(a, c, lo, hi)
  {
  }

  /** `a[lo..hi)` is non-decreasing. */
  ghost predicate SortedRange(a: seq<int>, lo: int, hi: int)
  {
    forall x, y :: lo <= x <= y < hi && 0 <= x && y < |a| ==> a[x] <= a[y]
  }

  /** `Vec::swap` on one array. */
  method Swap<T>(a: array<T>, x: int, y: int)
    requires 0 <= x < a.Length && 0 <= y < a.Length
    modifies a
    ensures a[x] == old(a[y]) && a[y] == old(a[x])
    ensures forall m :: 0 <= m < a.Length && m != x && m != y ==> a[m] == old(a[m])
    ensures multiset(a[..]) == multiset(old(a[..]))
  {
    a[x], a[y] := a[y], a[x];
  }

  /** Swapping the same two positions of both arrays keeps every pair. */
  lemma SwapKeepsPairs<K>(a: seq<int>, k: seq<K>, a': seq<int>, k': seq<K>, x: int, y: int)
    requires |a| <= |k| && |a'| == |a| && |k'| == |k| && 0 <= x < |a| && 0 <= y < |a|
    requires a'[x] == a[y] && a'[y] == a[x] && k'[x] == k[y] && k'[y] == k[x]
    requires forall m :: 0 <= m < |a| && m != x && m != y ==> a'[m] == a[m] && k'[m] == k[m]
    ensures multiset(Pairs(a', k')) == multiset(Pairs(a, k))
  {
    var ps := Pairs(a, k);
    assert Pairs(a', k') == ps[x := ps[y]][y := ps[x]];
  }

  /** `arr.swap(x, y)` immediately followed by `keys.swap(x, y)`. */
  method SwapBoth<K>(arr: array<int>, keys: array<K>, x: int, y: int)
    requires 0 <= x < arr.Length && 0 <= y < arr.Length && arr.Length <= keys.Length
    requires arr as object != keys as object
    modifies arr, keys
    ensures arr[x] == old(arr[y]) && arr[y] == old(arr[x])
    ensures keys[x] == old(keys[y]) && keys[y] == old(keys[x])
    ensures forall m :: 0 <= m < arr.Length && m != x && m != y ==> arr[m] == old(arr[m])
    ensures forall m :: 0 <= m < keys.Length && m != x && m != y ==> keys[m] == old(keys[m])
    ensures multiset(arr[..]) == multiset(old(arr[..]))
    ensures multiset(keys[..]) == multiset(old(keys[..]))
    ensures multiset(Pairs(arr[..], keys[..])) == multiset(Pairs(old(arr[..]), old(keys[..])))
  {
    ghost var a, k := arr[..], keys[..];
    Swap(arr, x, y);
    Swap(keys, x, y);
    SwapKeepsPairs(a, k, arr[..], keys[..], x, y);
  }

  /**
    The straddle swap of line 31 exchanges two values but not their keys:
    when the two positions differ in value and in key, the (value, key) pair
    that was at x is held one time fewer afterwards.
  */
  lemma StraddleSwapSplitsPair<K>(a: seq<int>, k: seq<K>, x: int, y: int)
    requires |a| <= |k| && 0 <= x < |a| && 0 <= y < |a|
    requires a[x] != a[y] && k[x] != k[y]
    ensures multiset(Pairs(a[x := a[y]][y := a[x]], k))[(a[x], k[x])] + 1 ==
            multiset(Pairs(a, k))[(a[x], k[x])]
  {
    var ps := Pairs(a, k);
    var qs := Pairs(a[x := a[y]][y := a[x]], k);
    assert qs == ps[x := (a[y], k[x])][y := (a[x], k[y])];
  }

  /**
    The sort as written on values [2000, 0, 1000] with keys [p0, p1, p2].
    With the pivot 1000, the scans stop at i = 0 and j = 1, and line 31
    swaps the values only. The next scans cross at i = 1, and the pivot swap
    of lines 45-46 moves both arrays. Nothing else moves: both rotation
    loops and both recursive calls are empty. Page p0, scored 2000, ends up
    beside 0, so the pair (2000, p0) is lost.
  */
  method StraddleTrace() returns (values: seq<int>, keys: seq<string>)
    ensures values == [0, 1000, 2000]
    ensures |keys| == 3 && keys[0] == "p0" && keys[1] == "p2" && keys[2] == "p1"
    ensures (2000, "p0") !in Pairs(values, keys)
  {
    var arr := new int[3];
    arr[0], arr[1], arr[2] := 2000, 0, 1000;
    var ks := new string[3];
    ks[0], ks[1], ks[2] := "p0", "p1", "p2";
    Swap(arr, 0, 1);
    assert arr[0] == 0 && arr[1] == 2000 && arr[2] == 1000;
    SwapBoth(arr, ks, 1, 2);
    assert arr[0] == 0 && arr[1] == 1000 && arr[2] == 2000;
    assert ks[0] == "p0" && ks[1] == "p2" && ks[2] == "p1";
    values, keys := arr[..], ks[..];
    TracedPairLost(values, keys);
  }

  /** Before the trace, position 0 holds 2000 beside p0. */
  lemma TracedPairHeld()
    ensures (2000, "p0") in Pairs([2000, 0, 1000], ["p0", "p1", "p2"])
  {
    assert Pairs([2000, 0, 1000], ["p0", "p1", "p2"])[0] == (2000, "p0");
  }

  /** After the trace, no position holds 2000 beside p0. */
  lemma TracedPairLost(values: seq<int>, keys: seq<string>)
    requires |values| == 3 && |keys| == 3
    requires values[0] == 0 && values[1] == 1000 && keys[2] == "p1"
    ensures (2000, "p0") !in Pairs(values, keys)
  {
    var after := Pairs(values, keys);
    assert "p1"[1] != "p0"[1];
    forall x | 0 <= x < |after|
      ensures after[x] != (2000, "p0")
    {
      assert after[x] == (values[x], keys[x]);
    }
  }

  /**
    The low scan `while arr[i] < v { i += 1 }`: the first position from i0 on
    whose value is at least v; a position `stop` holding at least v bounds it.
  */
  method ScanLow(arr: array<int>, i0: int, stop: int, v: int) returns (i: int)
    requires 0 <= i0 <= stop < arr.Length && arr[stop] >= v
    ensures i0 <= i <= stop && arr[i] >= v
    ensures forall x :: i0 <= x < i ==> arr[x] < v
  {
    i := i0;
    while arr[i] < v
      invariant i0 <= i <= stop
      invariant forall x :: i0 <= x < i ==> arr[x] < v
      decreases stop - i
    {
      i := i + 1;
    }
  }

  /**
    The high scan `while v < arr[j] { if j == left { break } j -= 1 }`: moves
    down from j0 past values greater than v, and never below left.
  */
  method ScanHigh(arr: array<int>, left: int, j0: int, v: int) returns (j: int)
    requires 0 <= left <= j0 < arr.Length
    ensures left <= j <= j0
    ensures forall x :: j < x <= j0 ==> arr[x] > v
    ensures arr[j] <= v || j == left
  {
    j := j0;
    while v < arr[j]
      invariant left <= j <= j0
      invariant forall x :: j < x <= j0 ==> arr[x] > v
      decreases j
    {
      if j == left {
        break;
      }
      j := j - 1;
    }
  }

  /**
    Lines 32-36: if arr[i] equals the pivot v, it joins the pivot-equal run
    [left, p] at the left end, which grows by one.
  */
  method AbsorbLow<K>(arr: array<int>, keys: array<K>, left: int, p: int, i: int, v: int)
      returns (p': int)
    requires 0 <= left && left - 1 <= p < i < arr.Length <= keys.Length
    requires arr as object != keys as object
    requires arr[i] <= v
    requires forall x :: left <= x <= p ==> arr[x] == v
    requires forall x :: p < x < i ==> arr[x] < v
    modifies arr, keys
    ensures p' == p || p' == p + 1
    ensures forall x :: left <= x <= p' ==> arr[x] == v
    ensures forall x :: p' < x <= i ==> arr[x] < v
    ensures forall x :: 0 <= x < arr.Length && !(p < x <= i) ==> arr[x] == old(arr[x])
    ensures forall x :: 0 <= x < keys.Length && !(p < x <= i) ==> keys[x] == old(keys[x])
    ensures multiset(arr[..]) == multiset(old(arr[..]))
    ensures multiset(keys[..]) == multiset(old(keys[..]))
    ensures multiset(Pairs(arr[..], keys[..])) == multiset(Pairs(old(arr[..]), old(keys[..])))
  {
    p' := p;
    if arr[i] == v {
      p' := p + 1;
      SwapBoth(arr, keys, p', i);
    }
  }

  /**
    Lines 37-41: if arr[j] equals the pivot v, it joins the pivot-equal run
    [q, right) at the right end, which grows by one.
  */
  method AbsorbHigh<K>(arr: array<int>, keys: array<K>, j: int, q: int, right: int, v: int)
      returns (q': int)
    requires 0 <= j < q <= right < arr.Length <= keys.Length
    requires arr as object != keys as object
    requires arr[j] >= v
    requires forall x :: j < x < q ==> arr[x] > v
    requires forall x :: q <= x < right ==> arr[x] == v
    modifies arr, keys
    ensures q' == q || q' == q - 1
    ensures forall x :: j <= x < q' ==> arr[x] > v
    ensures forall x :: q' <= x < right ==> arr[x] == v
    ensures forall x :: 0 <= x < arr.Length && !(j <= x < q) ==> arr[x] == old(arr[x])
    ensures forall x :: 0 <= x < keys.Length && !(j <= x < q) ==> keys[x] == old(keys[x])
    ensures multiset(arr[..]) == multiset(old(arr[..]))
    ensures multiset(keys[..]) == multiset(old(keys[..]))
    ensures multiset(Pairs(arr[..], keys[..])) == multiset(Pairs(old(arr[..]), old(keys[..])))
  {
    q' := q;
    if v == arr[j] {
      q' := q - 1;
      SwapBoth(arr, keys, j, q');
    }
  }

  /**
    One exchange of the partition loop (lines 31-41), for i < j: swap the
    straddling elements (the keys only when `mirrorStraddle`), then let each
    of them join the pivot-equal run at its end if it equals the pivot v.
  */
  method Exchange<K>(arr: array<int>, keys: array<K>, left: int, right: int,
                     i: int, j: int, p: int, q: int, v: int, mirrorStraddle: bool)
      returns (p': int, q': int)
    requires 0 <= left && left - 1 <= p < i < j < q <= right < arr.Length <= keys.Length
    requires arr as object != keys as object
    requires arr[i] >= v && arr[j] <= v
    requires forall x :: left <= x <= p ==> arr[x] == v
    requires forall x :: p < x < i ==> arr[x] < v
    requires forall x :: j < x < q ==> arr[x] > v
    requires forall x :: q <= x < right ==> arr[x] == v
    modifies arr, keys
    ensures p' == p || p' == p + 1
    ensures q' == q || q' == q - 1
    ensures forall x :: left <= x <= p' ==> arr[x] == v
    ensures forall x :: p' < x <= i ==> arr[x] < v
    ensures forall x :: j <= x < q' ==> arr[x] > v
    ensures forall x :: q' <= x < right ==> arr[x] == v
    ensures forall x :: 0 <= x < arr.Length && !(p < x < q) ==> arr[x] == old(arr[x])
    ensures forall x :: 0 <= x < keys.Length && !(p < x < q) ==> keys[x] == old(keys[x])
    ensures multiset(arr[..]) == multiset(old(arr[..]))
    ensures multiset(keys[..]) == multiset(old(keys[..]))
    ensures mirrorStraddle ==>
      multiset(Pairs(arr[..], keys[..])) == multiset(Pairs(old(arr[..]), old(keys[..])))
  {
    if mirrorStraddle {
      SwapBoth(arr, keys, i, j);
    } else {
      Swap(arr, i, j);
    }
    p' := AbsorbLow(arr, keys, left, p, i, v);
    q' := AbsorbHigh(arr, keys, j, q, right, v);
  }

  /**
    The partition loop (cursors i, j, p, q). On exit, with v the pivot value
    `arr[right]`: [left, p] holds v, (p, i) holds less than v, arr[i] is at
    least v, (i, q) holds more than v and [q, right) holds v.
  */
  method Partition<K>(arr: array<int>, keys: array<K>, left: int, right: int, mirrorStraddle: bool)
      returns (i: int, p: int, q: int)
    requires 0 <= left < right < arr.Length <= keys.Length
    requires arr as object != keys as object
    modifies arr, keys
    ensures arr[right] == old(arr[right])
    ensures left - 1 <= p < i <= q <= right && left < q
    ensures forall x :: left <= x <= p ==> arr[x] == arr[right]
    ensures forall x :: p < x < i ==> arr[x] < arr[right]
    ensures arr[i] >= arr[right]
    ensures forall x :: i < x < q ==> arr[x] > arr[right]
    ensures forall x :: q <= x < right ==> arr[x] == arr[right]
    ensures SameOutside(arr[..], old(arr[..]), left, right)
    ensures SameOutside(keys[..], old(keys[..]), left, right)
    ensures multiset(arr[..]) == multiset(old(arr[..]))
    ensures multiset(keys[..]) == multiset(old(keys[..]))
    ensures mirrorStraddle ==>
      multiset(Pairs(arr[..], keys[..])) == multiset(Pairs(old(arr[..]), old(keys[..])))
  {
    i := left - 1;
    var j := right;
    p, q := i, j;
    var v := arr[right];
    while true
      invariant left - 1 <= p <= i < j <= q <= right && left < j
      invariant arr[right] == v
      invariant forall x :: left <= x <= p ==> arr[x] == v
      invariant forall x :: p < x <= i ==> arr[x] < v
      invariant forall x :: j <= x < q ==> arr[x] > v
      invariant forall x :: q <= x < right ==> arr[x] == v
      invariant forall x :: 0 <= x < arr.Length && !(left <= x < right) ==> arr[x] == old(arr[x])
      invariant forall x :: 0 <= x < keys.Length && !(left <= x < right) ==> keys[x] == old(keys[x])
      invariant multiset(arr[..]) == multiset(old(arr[..]))
      invariant multiset(keys[..]) == multiset(old(keys[..]))
      invariant mirrorStraddle ==>
        multiset(Pairs(arr[..], keys[..])) == multiset(Pairs(old(arr[..]), old(keys[..])))
      decreases j - i
    {
      // position j holds at least v: it is in (i, q), or it is q, or right
      assert arr[j] >= v;
      i := ScanLow(arr, i + 1, j, v);
      // j > left here, so the high scan starts inside [left, right)
      j := ScanHigh(arr, left, j - 1, v);
      if i >= j {
        break;
      }
      p, q := Exchange(arr, keys, left, right, i, j, p, q, v, mirrorStraddle);
    }
  }

  /**
    The first rotation loop (`k < p`): moves all but one element of the
    pivot-equal run at the left end next to the pivot at position i (the
    bound `k < p` stops one element short of the run). Returns the new j,
    the right end of the low sub-range.
  */
  method RotateLow<K>(arr: array<int>, keys: array<K>, left: int, p: int, i: int, ghost v: int)
      returns (j: int)
    requires 0 <= left <= i < arr.Length <= keys.Length && left - 1 <= p < i
    requires arr as object != keys as object
    requires forall x :: left <= x <= p ==> arr[x] == v
    requires forall x :: p < x < i ==> arr[x] < v
    modifies arr, keys
    ensures left - 1 <= j < i
    ensures j == i - 1 - (if p > left then p - left else 0)
    ensures forall x :: left <= x <= j ==> arr[x] <= v
    ensures forall x :: j < x < i ==> arr[x] == v
    ensures SameOutside(arr[..], old(arr[..]), left, i)
    ensures SameOutside(keys[..], old(keys[..]), left, i)
    ensures multiset(arr[..]) == multiset(old(arr[..]))
    ensures multiset(keys[..]) == multiset(old(keys[..]))
    ensures multiset(Pairs(arr[..], keys[..])) == multiset(Pairs(old(arr[..]), old(keys[..])))
  {
    ghost var n := i - 1 - p;  // how many elements are less than v
    j := i - 1;
    var k := left;
    while k < p
      invariant left <= k && (k <= p || k == left)
      invariant j == i - 1 - (k - left)
      invariant k - left <= n ==>
        && (forall x :: left <= x < k ==> arr[x] < v)
        && (forall x :: k <= x <= p ==> arr[x] == v)
        && (forall x :: p < x <= j ==> arr[x] < v)
        && (forall x :: j < x < i ==> arr[x] == v)
      invariant k - left > n ==>
        && (forall x :: left <= x < left + n ==> arr[x] < v)
        && (forall x :: left + n <= x < i ==> arr[x] == v)
      invariant forall x :: left <= x < i ==> arr[x] <= v
      invariant forall x :: 0 <= x < arr.Length && !(left <= x < i) ==> arr[x] == old(arr[x])
      invariant forall x :: 0 <= x < keys.Length && !(left <= x < i) ==> keys[x] == old(keys[x])
      invariant multiset(arr[..]) == multiset(old(arr[..]))
      invariant multiset(keys[..]) == multiset(old(keys[..]))
      invariant multiset(Pairs(arr[..], keys[..])) == multiset(Pairs(old(arr[..]), old(keys[..])))
    {
      SwapBoth(arr, keys, k, j);
      k := k + 1;
      j := j - 1;
      assert k < arr.Length;
    }
  }

  /**
    The second rotation loop (`k > q`): moves all but one element of the
    pivot-equal run at the right end next to the pivot at position i (the
    bound `k > q` stops one element short of the run). Returns the new i,
    the left end of the high sub-range.
  */
  method RotateHigh<K>(arr: array<int>, keys: array<K>, ghost left: int, right: int, q: int, i: int, ghost v: int)
      returns (i': int)
    requires 0 <= left <= i <= q <= right < arr.Length <= keys.Length && left < q
    requires arr as object != keys as object
    requires arr[i] == v && arr[right] >= v
    requires forall x :: i < x < q ==> arr[x] > v
    requires forall x :: q <= x < right ==> arr[x] == v
    modifies arr, keys
    ensures i < i' <= right + 1
    ensures i' == i + 1 + (if q < right - 1 then right - 1 - q else 0)
    ensures forall x :: i < x < i' ==> arr[x] == v
    ensures forall x :: i' <= x <= right ==> arr[x] >= v
    ensures SameOutside(arr[..], old(arr[..]), i + 1, right)
    ensures SameOutside(keys[..], old(keys[..]), i + 1, right)
    ensures multiset(arr[..]) == multiset(old(arr[..]))
    ensures multiset(keys[..]) == multiset(old(keys[..]))
    ensures multiset(Pairs(arr[..], keys[..])) == multiset(Pairs(old(arr[..]), old(keys[..])))
  {
    ghost var g := if q > i then q - 1 - i else 0;  // how many elements are greater than v
    i' := i + 1;
    var k := right - 1;
    while k > q
      invariant k <= right - 1 && (k >= q || k == right - 1)
      invariant i' == i + 1 + (right - 1 - k)
      invariant arr[i] == v
      invariant right - 1 - k <= g ==>
        && (forall x :: k < x < right ==> arr[x] > v)
        && (forall x :: q <= x <= k ==> arr[x] == v)
        && (forall x :: i' <= x < q ==> arr[x] > v)
        && (forall x :: i < x < i' ==> arr[x] == v)
      invariant right - 1 - k > g ==>
        && (forall x :: right - g <= x < right ==> arr[x] > v)
        && (forall x :: i < x < right - g ==> arr[x] == v)
      invariant forall x :: i < x <= right ==> arr[x] >= v
      invariant forall x :: 0 <= x < arr.Length && !(i < x < right) ==> arr[x] == old(arr[x])
      invariant forall x :: 0 <= x < keys.Length && !(i < x < right) ==> keys[x] == old(keys[x])
      invariant multiset(arr[..]) == multiset(old(arr[..]))
      invariant multiset(keys[..]) == multiset(old(keys[..]))
      invariant multiset(Pairs(arr[..], keys[..])) == multiset(Pairs(old(arr[..]), old(keys[..])))
    {
      SwapBoth(arr, keys, i', k);
      k := k - 1;
      i' := i' + 1;
      assert k != 0;
    }
  }

  /**
    Two sequences that agree outside [lo, hi) and have the same multiset also
    have the same multiset on [lo, hi).
  */
  lemma SliceMultiset<T>(a: seq<T>, b: seq<T>, lo: int, hi: int)
    requires 0 <= lo <= hi <= |a|
    requires SameOutside(a, b, lo, hi) && multiset(a) == multiset(b)
    ensures multiset(a[lo..hi]) == multiset(b[lo..hi])
  {
    assert a == a[..lo] + a[lo..hi] + a[hi..];
    assert b == b[..lo] + b[lo..hi] + b[hi..];
    assert a[..lo] == b[..lo];
    assert a[hi..] == b[hi..];
    assert multiset(a) == multiset(a[..lo]) + multiset(a[lo..hi]) + multiset(a[hi..]);
    assert multiset(b) == multiset(a[..lo]) + multiset(b[lo..hi]) + multiset(a[hi..]);
    forall e
      ensures multiset(a[lo..hi])[e] == multiset(b[lo..hi])[e]
    {
      assert multiset(a)[e] == multiset(b)[e];
    }
  }

  /** A bound that holds on [lo, hi) holds on every permutation of that range. */
  lemma PermutedRange(a: seq<int>, b: seq<int>, lo: int, hi: int, v: int)
    requires 0 <= lo <= hi <= |a|
    requires SameOutside(a, b, lo, hi) && multiset(a) == multiset(b)
    ensures (forall x :: lo <= x < hi ==> a[x] <= v) ==> (forall x :: lo <= x < hi ==> b[x] <= v)
    ensures (forall x :: lo <= x < hi ==> a[x] >= v) ==> (forall x :: lo <= x < hi ==> b[x] >= v)
  {
    SliceMultiset(a, b, lo, hi);
    forall x | lo <= x < hi
      ensures exists y :: lo <= y < hi && b[x] == a[y]
    {
      assert b[x] == b[lo..hi][x - lo];
      assert b[x] in multiset(a[lo..hi]);
      var y' :| 0 <= y' < hi - lo && a[lo..hi][y'] == b[x];
      assert a[lo + y'] == b[x];
    }
  }

  /**
    The two recursive calls of `quicksort_helper` finish the sort: a1 is
    partitioned around v at j and i, a2 sorts [left, j] of a1 by permuting it,
    and a3 sorts [i, right] of a2 the same way.
  */
  lemma {:induction false} SortedAfterRecursion(a1: seq<int>, a2: seq<int>, a3: seq<int>,
                                                left: int, j: int, i: int, right: int, v: int)
    requires 0 <= left && left - 1 <= j < i <= right + 1 <= |a1|
    requires forall x :: left <= x <= j ==> a1[x] <= v
    requires forall x :: j < x < i ==> a1[x] == v
    requires forall x :: i <= x <= right ==> a1[x] >= v
    requires SameOutside(a1, a2, left, j + 1) && multiset(a1) == multiset(a2)
    requires SortedRange(a2, left, j + 1)
    requires SameOutside(a2, a3, i, right + 1) && multiset(a2) == multiset(a3)
    requires SortedRange(a3, i, right + 1)
    ensures SortedRange(a3, left, right + 1)
  {
    PermutedRange(a1, a2, left, j + 1, v);
    PermutedRange(a2, a3, i, right + 1, v);
    assert forall x :: left <= x <= j ==> a3[x] == a2[x];
    assert forall x :: j < x < i ==> a3[x] == v;
  }

  /**
    The swap after the partition loop (line 45) puts the pivot at position i
    and the element found there at `right`; the zones around it stay.
  */
  lemma PivotPlaced(a1: seq<int>, a2: seq<int>, left: int, p: int, i: int, q: int, right: int)
    requires 0 <= left && left - 1 <= p < i <= q <= right < |a1| == |a2|
    requires forall x :: left <= x <= p ==> a1[x] == a1[right]
    requires forall x :: p < x < i ==> a1[x] < a1[right]
    requires a1[i] >= a1[right]
    requires forall x :: i < x < q ==> a1[x] > a1[right]
    requires forall x :: q <= x < right ==> a1[x] == a1[right]
    requires a2[i] == a1[right] && a2[right] == a1[i]
    requires forall x :: 0 <= x < |a1| && x != i && x != right ==> a2[x] == a1[x]
    ensures forall x :: left <= x <= p ==> a2[x] == a2[i]
    ensures forall x :: p < x < i ==> a2[x] < a2[i]
    ensures a2[right] >= a2[i]
    ensures forall x :: i < x < q ==> a2[x] > a2[i]
    ensures forall x :: q <= x < right ==> a2[x] == a2[i]
  {
  }

  /** The low rotation leaves the zones right of the pivot alone. */
  lemma HighZonesKept(a2: seq<int>, a3: seq<int>, left: int, m: int, q: int, right: int, v: int)
    requires 0 <= left <= m <= q <= right < |a2|
    requires SameOutside(a3, a2, left, m)
    requires a2[m] == v && a2[right] >= v
    requires forall x :: m < x < q ==> a2[x] > v
    requires forall x :: q <= x < right ==> a2[x] == v
    ensures a3[m] == v && a3[right] >= v
    ensures forall x :: m < x < q ==> a3[x] > v
    ensures forall x :: q <= x < right ==> a3[x] == v
  {
  }

  /**
    The high rotation leaves the zones left of the pivot alone, so the run of
    pivot values now reaches from j + 1 to the new i.
  */
  lemma LowZonesKept(a3: seq<int>, a4: seq<int>, left: int, j: int, m: int, right: int, v: int)
    requires 0 <= left && left - 1 <= j < m <= right < |a3|
    requires SameOutside(a4, a3, m + 1, right)
    requires forall x :: left <= x <= j ==> a3[x] <= v
    requires forall x :: j < x <= m ==> a3[x] == v
    ensures forall x :: left <= x <= j ==> a4[x] <= v
    ensures forall x :: j < x <= m ==> a4[x] == v
  {
  }

  /**
    Lines 45-56 of `quicksort_helper`: the pivot swap and the low rotation.
    Afterwards the pivot value v sits at i, [left, j] holds at most v and
    (j, i) holds v, while the zones right of i are as the partition loop
    left them.
  */
  method PlacePivotLow<K>(arr: array<int>, keys: array<K>, left: int, right: int, i: int, p: int, q: int)
      returns (j: int)
    requires 0 <= left && left - 1 <= p < i <= q <= right < arr.Length <= keys.Length
    requires arr as object != keys as object
    requires forall x :: left <= x <= p ==> arr[x] == arr[right]
    requires forall x :: p < x < i ==> arr[x] < arr[right]
    requires arr[i] >= arr[right]
    requires forall x :: i < x < q ==> arr[x] > arr[right]
    requires forall x :: q <= x < right ==> arr[x] == arr[right]
    modifies arr, keys
    ensures left - 1 <= j < i
    ensures forall x :: left <= x <= j ==> arr[x] <= old(arr[right])
    ensures forall x :: j < x <= i ==> arr[x] == old(arr[right])
    ensures arr[right] >= old(arr[right])
    ensures forall x :: i < x < q ==> arr[x] > old(arr[right])
    ensures forall x :: q <= x < right ==> arr[x] == old(arr[right])
    ensures SameOutside(arr[..], old(arr[..]), left, right + 1)
    ensures SameOutside(keys[..], old(keys[..]), left, right + 1)
    ensures multiset(arr[..]) == multiset(old(arr[..]))
    ensures multiset(keys[..]) == multiset(old(keys[..]))
    ensures multiset(Pairs(arr[..], keys[..])) == multiset(Pairs(old(arr[..]), old(keys[..])))
  {
    ghost var a1, k1 := arr[..], keys[..];
    ghost var v := arr[right];
    SwapBoth(arr, keys, i, right);
    ghost var a2, k2 := arr[..], keys[..];
    PivotPlaced(a1, a2, left, p, i, q, right);
    j := RotateLow(arr, keys, left, p, i, v);
    HighZonesKept(a2, arr[..], left, i, q, right, v);
    SameOutsideChain(a1, a2, arr[..], left, right + 1, left, i);
    SameOutsideChain(k1, k2, keys[..], left, right + 1, left, i);
  }

  /**
    Lines 45-64 of `quicksort_helper`: on a range the partition loop left
    behind, the pivot swap and both rotations. Afterwards [left, j] holds at
    most v, (j, i) holds v and [i, right] holds at least v, where v is the
    pivot value `arr[right]`.
  */
  method PlacePivot<K>(arr: array<int>, keys: array<K>, left: int, right: int, i: int, p: int, q: int)
      returns (j: int, i': int)
    requires 0 <= left && left - 1 <= p < i <= q <= right < arr.Length <= keys.Length && left < q
    requires arr as object != keys as object
    requires forall x :: left <= x <= p ==> arr[x] == arr[right]
    requires forall x :: p < x < i ==> arr[x] < arr[right]
    requires arr[i] >= arr[right]
    requires forall x :: i < x < q ==> arr[x] > arr[right]
    requires forall x :: q <= x < right ==> arr[x] == arr[right]
    modifies arr, keys
    ensures left - 1 <= j < i < i' <= right + 1
    ensures forall x :: left <= x <= j ==> arr[x] <= old(arr[right])
    ensures forall x :: j < x < i' ==> arr[x] == old(arr[right])
    ensures forall x :: i' <= x <= right ==> arr[x] >= old(arr[right])
    ensures SameOutside(arr[..], old(arr[..]), left, right + 1)
    ensures SameOutside(keys[..], old(keys[..]), left, right + 1)
    ensures multiset(arr[..]) == multiset(old(arr[..]))
    ensures multiset(keys[..]) == multiset(old(keys[..]))
    ensures multiset(Pairs(arr[..], keys[..])) == multiset(Pairs(old(arr[..]), old(keys[..])))
  {
    ghost var a1, k1 := arr[..], keys[..];
    ghost var v := arr[right];
    j := PlacePivotLow(arr, keys, left, right, i, p, q);
    ghost var a3, k3 := arr[..], keys[..];
    i' := RotateHigh(arr, keys, left, right, q, i, v);
    LowZonesKept(a3, arr[..], left, j, i, right, v);
    SameOutsideChain(a1, a3, arr[..], left, right + 1, i + 1, right);
    SameOutsideChain(k1, k3, keys[..], left, right + 1, i + 1, right);
  }

  /**
    Lines 10-64 of `quicksort_helper`: the partition loop, then the pivot
    swap and both rotations. Both sub-ranges left for the recursive calls,
    [left, j] and [i, right], are strictly smaller than [left, right].
  */
  method PartitionAndRotate<K>(arr: array<int>, keys: array<K>, left: int, right: int, mirrorStraddle: bool)
      returns (j: int, i: int, ghost v: int)
    requires 0 <= left < right < arr.Length <= keys.Length
    requires arr as object != keys as object
    modifies arr, keys
    ensures v == old(arr[right])
    ensures left - 1 <= j < i - 1 && i <= right + 1
    ensures forall x :: left <= x <= j ==> arr[x] <= v
    ensures forall x :: j < x < i ==> arr[x] == v
    ensures forall x :: i <= x <= right ==> arr[x] >= v
    ensures SameOutside(arr[..], old(arr[..]), left, right + 1)
    ensures SameOutside(keys[..], old(keys[..]), left, right + 1)
    ensures multiset(arr[..]) == multiset(old(arr[..]))
    ensures multiset(keys[..]) == multiset(old(keys[..]))
    ensures mirrorStraddle ==>
      multiset(Pairs(arr[..], keys[..])) == multiset(Pairs(old(arr[..]), old(keys[..])))
  {
    ghost var a0, k0 := arr[..], keys[..];
    var p, q, m;
    m, p, q := Partition(arr, keys, left, right, mirrorStraddle);
    v := arr[right];
    ghost var a1, k1 := arr[..], keys[..];
    j, i := PlacePivot(arr, keys, left, right, m, p, q);
    SameOutsideChain(a0, a1, arr[..], left, right + 1, left, right + 1);
    SameOutsideChain(k0, k1, keys[..], left, right + 1, left, right + 1);
  }

  /**
    `quicksort_helper`: sorts arr[left..right] (inclusive) in place. Only
    positions in [left, right] of either array change, and both arrays keep
    their multisets; with `mirrorStraddle` set, the (value, key) pairs are
    kept as well.
  */
  method QuicksortHelper<K>(arr: array<int>, keys: array<K>, left: int, right: int, mirrorStraddle: bool)
    requires 0 <= left <= right + 1 <= arr.Length <= keys.Length
    requires arr as object != keys as object
    modifies arr, keys
    ensures SortedRange(arr[..], left, right + 1)
    ensures right <= left ==> arr[..] == old(arr[..]) && keys[..] == old(keys[..])
    ensures SameOutside(arr[..], old(arr[..]), left, right + 1)
    ensures SameOutside(keys[..], old(keys[..]), left, right + 1)
    ensures multiset(arr[..]) == multiset(old(arr[..]))
    ensures multiset(keys[..]) == multiset(old(keys[..]))
    ensures mirrorStraddle ==>
      multiset(Pairs(arr[..], keys[..])) == multiset(Pairs(old(arr[..]), old(keys[..])))
    decreases right - left
  {
    if right <= left {
      return;
    }
    ghost var a0, k0 := arr[..], keys[..];
    var j, i, v := PartitionAndRotate(arr, keys, left, right, mirrorStraddle);
    ghost var a1, k1 := arr[..], keys[..];
    QuicksortHelper(arr, keys, left, j, mirrorStraddle);
    ghost var a2, k2 := arr[..], keys[..];
    QuicksortHelper(arr, keys, i, right, mirrorStraddle);
    SortedAfterRecursion(a1, a2, arr[..], left, j, i, right, v);
    SameOutsideChain(a0, a1, a2, left, right + 1, left, j + 1);
    SameOutsideChain(a0, a2, arr[..], left, right + 1, i, right + 1);
    SameOutsideChain(k0, k1, k2, left, right + 1, left, j + 1);
    SameOutsideChain(k0, k2, keys[..], left, right + 1, i, right + 1);
  }

  /**
    `quicksort` (and `quicksort_by` with the natural order): sorts `arr`
    ascending; `keys` receives a permutation of its contents, but not
    necessarily the one applied to `arr`.
  */
  method Quicksort<K>(arr: array<int>, keys: array<K>)
    requires arr.Length <= 1 || arr.Length <= keys.Length
    requires arr as object != keys as object
    modifies arr, keys
    ensures forall x, y :: 0 <= x <= y < arr.Length ==> arr[x] <= arr[y]
    ensures multiset(arr[..]) == multiset(old(arr[..]))
    ensures multiset(keys[..]) == multiset(old(keys[..]))
    ensures arr.Length <= 1 ==> arr[..] == old(arr[..]) && keys[..] == old(keys[..])
    ensures forall x :: arr.Length <= x < keys.Length ==> keys[x] == old(keys[x])
  {
    if arr.Length <= 1 {
      return;
    }
    var len := arr.Length;
    QuicksortHelper(arr, keys, 0, len - 1, false);
  }

  /**
    The variant whose straddle swap is mirrored on `keys`: besides sorting,
    it keeps the multiset of (value, key) pairs.
  */
  method QuicksortPaired<K>(arr: array<int>, keys: array<K>)
    requires arr.Length <= 1 || arr.Length <= keys.Length
    requires arr as object != keys as object
    modifies arr, keys
    ensures forall x, y :: 0 <= x <= y < arr.Length ==> arr[x] <= arr[y]
    ensures multiset(arr[..]) == multiset(old(arr[..]))
    ensures multiset(keys[..]) == multiset(old(keys[..]))
    ensures arr.Length <= 1 ==> arr[..] == old(arr[..]) && keys[..] == old(keys[..])
    ensures arr.Length <= keys.Length ==>
      multiset(Pairs(arr[..], keys[..])) == multiset(Pairs(old(arr[..]), old(keys[..])))
    ensures forall x :: arr.Length <= x < keys.Length ==> keys[x] == old(keys[x])
  {
    if arr.Length <= 1 {
      return;
    }
    var len := arr.Length;
    QuicksortHelper(arr, keys, 0, len - 1, true);
  }
}
