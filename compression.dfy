/** Lossy compression on top of the one-dimensional transform: transform fully,
    sort the coefficients by descending magnitude in place, zero the last `k`
    of them and transform the sorted, zeroed array back.
 */
module Compression {
  import opened HaarSequence
  import opened HaarTransform

  /** How a compression ends: with the array rewritten; rejected because more
      entries were to be discarded than the array holds; or stopped by an
      out-of-range index in the zeroing loop, whose start index wrapped
      around. */
  datatype Outcome = Done | ArgumentError | IndexOutOfRange

  /** The range of a 32-bit signed integer, the type of the argument `k` and
      of array lengths and indices. */
  predicate IsInt32(x: int)
  {
    -0x8000_0000 <= x < 0x8000_0000
  }

  /** 32-bit subtraction with wrap-around, as unchecked integer arithmetic
      computes it: the one 32-bit value congruent to `x - y` modulo 2^32. */
  function Int32Sub(x: int, y: int): (r: int)
    requires IsInt32(x) && IsInt32(y)
    ensures IsInt32(r) && (r - (x - y)) % 0x1_0000_0000 == 0
  {
    var d := x - y;
    if d >= 0x8000_0000 then d - 0x1_0000_0000
    else if d < -0x8000_0000 then d + 0x1_0000_0000
    else d
  }

  /** The start index of the zeroing loop, `Length - k`, is exact unless it
      passes the largest 32-bit value, and then it is negative. */
  lemma StartIndex(length: int, k: int)
    requires IsInt32(length) && IsInt32(k) && 0 <= length && k <= length
    ensures length - k < 0x8000_0000 ==> Int32Sub(length, k) == length - k
    ensures length - k >= 0x8000_0000 ==> Int32Sub(length, k) < 0
  {
  }

  /** Discarding `-2^31` entries from a non-empty array makes the start index
      wrap around to a negative value. */
  lemma MinimalCountWraps(length: int)
    requires 1 <= length < 0x8000_0000
    ensures Int32Sub(length, -0x8000_0000) == length - 0x8000_0000
    ensures Int32Sub(length, -0x8000_0000) < 0
  {
  }

  function Abs(x: real): (r: real)
    ensures r >= 0.0 && (r == x || r == -x)
  {
    if x < 0.0 then -x else x
  }

  /** Magnitudes never grow from left to right. */
  predicate NonIncreasingMagnitude(s: seq<real>)
  {
    forall p, q :: 0 <= p < q < |s| ==> Abs(s[p]) >= Abs(s[q])
  }

  /** `sorted` is `s` rearranged into non-increasing magnitude order. Entries of
      equal magnitude (such as `2` and `-2`) may come in either order. */
  predicate MagnitudeOrdering(sorted: seq<real>, s: seq<real>)
  {
    multiset(sorted) == multiset(s) && NonIncreasingMagnitude(sorted)
  }

  /** `s` with its last `k` entries set to zero; nothing is zeroed when `k <= 0`. */
  function ZeroTail(s: seq<real>, k: int): (r: seq<real>)
    ensures |r| == |s|
  {
    seq(|s|, i requires 0 <= i < |s| => if i >= |s| - k then 0.0 else s[i])
  }

  function Zeros(n: nat): (r: seq<real>)
    ensures |r| == n && forall i :: 0 <= i < n ==> r[i] == 0.0
  {
    seq(n, i => 0.0)
  }

  // ---------------------------------------------------------------------------
  // What the zeroing keeps and drops
  // ---------------------------------------------------------------------------

  /** The kept entries are untouched, the last `k` are zero, and every kept
      entry of a magnitude ordering is at least as large as every dropped one. */
  lemma ZeroTailKeepsLargest(sorted: seq<real>, s: seq<real>, k: int)
    requires MagnitudeOrdering(sorted, s)
    ensures forall i :: 0 <= i < |sorted| ==>
      (i < |sorted| - k ==> ZeroTail(sorted, k)[i] == sorted[i]) &&
      (i >= |sorted| - k ==> ZeroTail(sorted, k)[i] == 0.0)
    ensures forall i, j :: 0 <= i < |sorted| - k <= j < |sorted| ==>
      Abs(ZeroTail(sorted, k)[i]) >= Abs(sorted[j])
  {
  }

  /** Discarding nothing (`k <= 0`) leaves the coefficients as they are. */
  lemma ZeroTailOfNothing(s: seq<real>, k: int)
    requires k <= 0
    ensures ZeroTail(s, k) == s
  {
  }

  /** Discarding everything leaves only zeros. */
  lemma ZeroTailOfAll(s: seq<real>)
    ensures ZeroTail(s, |s|) == Zeros(|s|)
  {
  }

  /** Zero coefficients transform back to a zero signal, at every length. */
  lemma {:induction false} InverseOfZeros(n: nat, length: int)
    requires length <= n
    ensures Inverse(Zeros(n), length) == Zeros(n)
    decreases length
  {
    if length >= 2 {
      InverseOfZeros(n, length / 2);
      InverseLevelAt(Zeros(n), length);
      var level := InverseLevel(Zeros(n), length);
      var h := length / 2;
      forall k | 0 <= k < n
        ensures level[k] == 0.0
      {
        if k < 2 * h {
          var i := k / 2;
          assert i < h && (k == 2 * i || k == 2 * i + 1);
          assert PairSum(Zeros(n), h, i) == 0.0 && PairDifference(Zeros(n), h, i) == 0.0;
        }
      }
      assert level == Zeros(n);
    }
  }

  /** The signal a compression produces has exactly the zeroed coefficients as
      its full transform. */
  lemma CompressedCoefficients(sorted: seq<real>, k: int)
    ensures Forward(Inverse(ZeroTail(sorted, k), |sorted|), All) == ZeroTail(sorted, k)
  {
    ForwardOfInverse(ZeroTail(sorted, k));
  }

  /** A pair transforms to its average and its detail. */
  lemma ForwardOfPair(x: real, y: real)
    ensures Forward([x, y], All) == [(x + y) / 2.0, (x - y) / 2.0]
  {
    var s := [x, y];
    PassAt(s, 2);
    assert Forward(s, All) == Passes(Pass(s, 2), 1, 2);
  }

  /** An average and a detail transform back to the pair. */
  lemma InverseOfPair(x: real, y: real)
    ensures Inverse([x, y], 2) == [x + y, x - y]
  {
    var c := [x, y];
    InverseLevelAt(c, 2);
    assert Inverse(c, 2) == InverseLevel(Inverse(c, 1), 2);
  }

  /** `[1, 0]` is the only magnitude ordering of `[0, 1]`. */
  lemma OnlyOrderingOfZeroOne(sorted: seq<real>)
    requires MagnitudeOrdering(sorted, [0.0, 1.0])
    ensures sorted == [1.0, 0.0]
  {
    assert |sorted| == 2 by {
      assert |multiset(sorted)| == |multiset([0.0, 1.0])|;
    }
    assert sorted == [sorted[0], sorted[1]];
    assert multiset(sorted) == multiset{sorted[0], sorted[1]};
    assert sorted[0] in multiset(sorted) && sorted[1] in multiset(sorted);
    if sorted[0] == 0.0 {
      assert false;
    }
    if sorted[1] == 1.0 {
      assert false;
    }
  }

  /** With nothing discarded, compression need not give the input back: the
      signal `[1, -1]` has coefficients `[0, 1]`, whose only magnitude ordering
      is `[1, 0]`, and that transforms back to `[1, 1]`. */
  lemma NoDiscardIsNotRoundTrip(sorted: seq<real>)
    requires MagnitudeOrdering(sorted, Forward([1.0, -1.0], All))
    ensures |sorted| == 2 && Inverse(ZeroTail(sorted, 0), 2) == [1.0, 1.0]
  {
    ForwardOfPair(1.0, -1.0);
    OnlyOrderingOfZeroOne(sorted);
    ZeroTailOfNothing(sorted, 0);
    InverseOfPair(1.0, 0.0);
  }

  // ---------------------------------------------------------------------------
  // The in-place steps
  // ---------------------------------------------------------------------------

  /** Exchanges `a[j - 1]` and `a[j]`. */
  method SwapWithLeft(a: array<real>, j: nat)
    requires 0 < j < a.Length
    modifies a
    ensures a[..] == old(a[..])[j - 1 := old(a[j])][j := old(a[j - 1])]
    ensures multiset(a[..]) == multiset(old(a[..]))
  {
    a[j - 1], a[j] := a[j], a[j - 1];
  }

  /** Moves `a[i]` left past every entry of smaller magnitude, so that a sorted
      prefix of length `i` becomes a sorted prefix of length `i + 1`. */
  method InsertByMagnitude(a: array<real>, i: nat)
    requires i < a.Length
    requires forall p, q :: 0 <= p < q < i ==> Abs(a[p]) >= Abs(a[q])
    modifies a
    ensures multiset(a[..]) == multiset(old(a[..]))
    ensures forall p, q :: 0 <= p < q <= i ==> Abs(a[p]) >= Abs(a[q])
    ensures a[i + 1..] == old(a[i + 1..])
  {
    var j := i;
    while j > 0 && Abs(a[j - 1]) < Abs(a[j])
      invariant 0 <= j <= i
      invariant multiset(a[..]) == multiset(old(a[..]))
      invariant a[i + 1..] == old(a[i + 1..])
      invariant forall p, q :: 0 <= p < q <= i && q != j ==> Abs(a[p]) >= Abs(a[q])
    {
      SwapWithLeft(a, j);
      j := j - 1;
    }
  }

  /** Sorts the array in place into non-increasing magnitude order. Any such
      ordering is acceptable, so ties may come out in either order. */
  method SortByMagnitude(a: array<real>)
    modifies a
    ensures MagnitudeOrdering(a[..], old(a[..]))
  {
    for i := 0 to a.Length
      invariant multiset(a[..]) == multiset(old(a[..]))
      invariant forall p, q :: 0 <= p < q < i ==> Abs(a[p]) >= Abs(a[q])
    {
      InsertByMagnitude(a, i);
    }
  }

  /** Zeroes the last `k` entries of the array, from the 32-bit start index
      `a.Length - k` on. A start index that wrapped around to a negative value
      is out of range at the first write, and nothing is zeroed. */
  method ZeroLast(a: array<real>, k: int) returns (outcome: Outcome)
    requires IsInt32(a.Length) && IsInt32(k) && k <= a.Length
    modifies a
    ensures Int32Sub(a.Length, k) < 0 ==> outcome == IndexOutOfRange && a[..] == old(a[..])
    ensures Int32Sub(a.Length, k) >= 0 ==> outcome == Done && a[..] == ZeroTail(old(a[..]), k)
  {
    var i := Int32Sub(a.Length, k);
    if i < 0 {
      return IndexOutOfRange;
    }
    StartIndex(a.Length, k);
    while i < a.Length
      invariant a.Length - k <= i
      invariant forall p :: 0 <= p < a.Length ==>
        a[p] == if a.Length - k <= p < i then 0.0 else old(a[p])
    {
      a[i] := 0.0;
      i := i + 1;
    }
    outcome := Done;
  }

  /** Compresses the array in place by discarding `k` coefficients. More than
      `a.Length` is rejected before anything changes. Otherwise the array is
      transformed and sorted into `coefficients`, the full forward transform of
      the input in non-increasing magnitude order. If the 32-bit start index
      `a.Length - k` wraps around (`k` at most `a.Length - 2^31`), the zeroing
      loop fails at once and the array is left holding `coefficients`.
      Otherwise the array ends as the inverse transform of `coefficients` with
      its last `k` entries zeroed. */
  method WaveletCompression(a: array<real>, k: int) returns (outcome: Outcome, ghost coefficients: seq<real>)
    requires IsInt32(a.Length) && IsInt32(k)
    modifies a
    ensures k > a.Length ==> outcome == ArgumentError && a[..] == old(a[..])
    ensures k <= a.Length ==> MagnitudeOrdering(coefficients, Forward(old(a[..]), All))
    ensures k <= a.Length && a.Length - k >= 0x8000_0000 ==>
      outcome == IndexOutOfRange && a[..] == coefficients
    ensures k <= a.Length && a.Length - k < 0x8000_0000 ==> outcome == Done
    ensures k <= a.Length && a.Length - k < 0x8000_0000 ==>
      |coefficients| == a.Length && a[..] == Inverse(ZeroTail(coefficients, k), a.Length)
    ensures k <= a.Length && a.Length - k < 0x8000_0000 ==> Forward(a[..], All) == ZeroTail(coefficients, k)
    ensures k == a.Length ==> a[..] == Zeros(a.Length)
  {
    if k > a.Length {
      return ArgumentError, [];
    }
    ghost var passes := ForwardTransform(a, All);
    SortByMagnitude(a);
    coefficients := a[..];
    StartIndex(a.Length, k);
    outcome := ZeroLast(a, k);
    if outcome == IndexOutOfRange {
      return;
    }
    ReverseTransform(a, a.Length);
    CompressedCoefficients(coefficients, k);
    if k == a.Length {
      ZeroTailOfAll(coefficients);
      InverseOfZeros(a.Length, a.Length);
    }
  }

  // ---------------------------------------------------------------------------
  // Compression that zeroes coefficients where they stand
  // ---------------------------------------------------------------------------

  /** `z` holds `k` positions of `c` (none when `k <= 0`) whose magnitudes are
      no larger than that of any position outside `z`. */
  predicate SmallestPositions(c: seq<real>, z: set<int>, k: int)
  {
    (if k <= 0 then z == {} else |z| == k) &&
    (forall i :: i in z ==> 0 <= i < |c|) &&
    (forall i, j :: i in z && 0 <= j < |c| && j !in z ==> Abs(c[i]) <= Abs(c[j]))
  }

  /** `c` with the positions in `z` set to zero and every other one kept. */
  function ZeroAt(c: seq<real>, z: set<int>): (r: seq<real>)
    ensures |r| == |c|
  {
    seq(|c|, i requires 0 <= i < |c| => if i in z then 0.0 else c[i])
  }

  /** A set holding all of `0 .. n - 1` has at least `n` members. */
  lemma {:induction false} CoveringSetSize(z: set<int>, n: nat)
    requires forall p :: 0 <= p < n ==> p in z
    ensures |z| >= n
  {
    if n > 0 {
      CoveringSetSize(z - {n - 1}, n - 1);
    }
  }

  /** Zeroing where they stand, a compression that discards nothing gives
      its input back. */
  lemma CorrectedNoDiscardIsRoundTrip(s: seq<real>, z: set<int>, k: int)
    requires k <= 0 && SmallestPositions(Forward(s, All), z, k)
    ensures Inverse(ZeroAt(Forward(s, All), z), |s|) == s
  {
    var c := Forward(s, All);
    assert z == {};
    ZeroAtNothing(c);
    RoundTrip(s);
  }

  lemma ZeroAtNothing(c: seq<real>)
    ensures ZeroAt(c, {}) == c
  {
  }

  /** Marks `k` positions of smallest magnitude (none when `k <= 0`), one at a
      time: each round marks an unmarked position of least magnitude. */
  method SelectSmallest(a: array<real>, k: int) returns (marks: array<bool>, ghost z: set<int>)
    requires k <= a.Length
    ensures fresh(marks) && marks.Length == a.Length
    ensures SmallestPositions(a[..], z, k)
    ensures forall i :: 0 <= i < a.Length ==> (marks[i] <==> i in z)
  {
    marks := new bool[a.Length](i => false);
    z := {};
    var count := if k > 0 then k else 0;
    var t := 0;
    while t < count
      invariant 0 <= t <= count && |z| == t
      invariant forall i :: i in z ==> 0 <= i < a.Length
      invariant forall i :: 0 <= i < a.Length ==> (marks[i] <==> i in z)
      invariant forall i, j :: i in z && 0 <= j < a.Length && j !in z ==> Abs(a[i]) <= Abs(a[j])
    {
      var found := false;
      var best := 0;
      for j := 0 to a.Length
        invariant !found ==> forall p :: 0 <= p < j ==> p in z
        invariant found ==> 0 <= best < j && best !in z
        invariant found ==> forall p :: 0 <= p < j && p !in z ==> Abs(a[best]) <= Abs(a[p])
      {
        if !marks[j] && (!found || Abs(a[j]) < Abs(a[best])) {
          found, best := true, j;
        }
      }
      if !found {
        CoveringSetSize(z, a.Length);
        assert false;
      }
      marks[best] := true;
      z := z + {best};
      t := t + 1;
    }
  }

  /** Zeroes the marked entries of the array. */
  method ZeroMarked(a: array<real>, marks: array<bool>, ghost z: set<int>)
    requires marks.Length == a.Length
    requires forall i :: 0 <= i < a.Length ==> (marks[i] <==> i in z)
    modifies a
    ensures a[..] == ZeroAt(old(a[..]), z)
  {
    for i := 0 to a.Length
      invariant forall p :: 0 <= p < a.Length ==>
        a[p] == if p < i && p in z then 0.0 else old(a[p])
    {
      if marks[i] {
        a[i] := 0.0;
      }
    }
  }

  /** Compression as the scheme means it: the same guard, then the `k`
      coefficients of smallest magnitude are zeroed where they stand, so the
      inverse transform sees every other coefficient at its own position. With
      nothing to discard the input comes back unchanged. */
  method CorrectedCompression(a: array<real>, k: int) returns (outcome: Outcome, ghost discarded: set<int>)
    modifies a
    ensures k > a.Length ==> outcome == ArgumentError && a[..] == old(a[..])
    ensures k <= a.Length ==> outcome == Done
    ensures k <= a.Length ==> SmallestPositions(Forward(old(a[..]), All), discarded, k)
    ensures k <= a.Length ==> a[..] == Inverse(ZeroAt(Forward(old(a[..]), All), discarded), a.Length)
    ensures k <= a.Length ==> Forward(a[..], All) == ZeroAt(Forward(old(a[..]), All), discarded)
    ensures k <= 0 ==> a[..] == old(a[..])
  {
    if k > a.Length {
      return ArgumentError, {};
    }
    ghost var input := a[..];
    ghost var passes := ForwardTransform(a, All);
    ghost var c := a[..];
    var marks;
    marks, discarded := SelectSmallest(a, k);
    ZeroMarked(a, marks, discarded);
    ReverseTransform(a, a.Length);
    outcome := Done;
    ForwardOfInverse(ZeroAt(c, discarded));
    if k <= 0 {
      CorrectedNoDiscardIsRoundTrip(input, discarded, k);
    }
  }
}
