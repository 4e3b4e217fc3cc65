/** The one-dimensional unnormalised Haar wavelet transform on sequences of reals.

    A forward pass over an active prefix of length `l` replaces the prefix by the
    pairwise averages `(a + b) / 2` followed by the pairwise details `(a - b) / 2`;
    one inverse level puts `avg + det, avg - det` back in pairs. The functions
    here are the specifications of the in-place methods of `HaarTransform`, and
    the lemmas are what the transform promises about them.
 */
module HaarSequence {

  /** How many forward passes to make: a single one, or all of them. */
  datatype TransformIterationTypes = One | All

  // ---------------------------------------------------------------------------
  // One forward pass
  // ---------------------------------------------------------------------------

  /** The average of the pair `s[2i], s[2i + 1]`. */
  function PairAverage(s: seq<real>, i: nat): real
    requires 2 * i + 1 < |s|
  {
    (s[2 * i] + s[2 * i + 1]) / 2.0
  }

  /** The detail (half-difference) of the pair `s[2i], s[2i + 1]`. */
  function PairDetail(s: seq<real>, i: nat): real
    requires 2 * i + 1 < |s|
  {
    (s[2 * i] - s[2 * i + 1]) / 2.0
  }

  /** The averages of all consecutive pairs; a lone last element is ignored. */
  function Averages(s: seq<real>): (r: seq<real>)
    ensures |r| == |s| / 2
    decreases |s|
  {
    if |s| < 2 then [] else [PairAverage(s, 0)] + Averages(s[2..])
  }

  /** The details of all consecutive pairs. */
  function Details(s: seq<real>): (r: seq<real>)
    ensures |r| == |s| / 2
    decreases |s|
  {
    if |s| < 2 then [] else [PairDetail(s, 0)] + Details(s[2..])
  }

  lemma {:induction false} AveragesDetailsAt(s: seq<real>, i: nat)
    requires i < |s| / 2
    ensures Averages(s)[i] == PairAverage(s, i)
    ensures Details(s)[i] == PairDetail(s, i)
    decreases i
  {
    if i > 0 {
      AveragesDetailsAt(s[2..], i - 1);
      assert s[2..][2 * (i - 1)] == s[2 * i];
      assert s[2..][2 * (i - 1) + 1] == s[2 * i + 1];
    }
  }

  /** One forward butterfly pass over the active prefix of length `l`: the first
      `l / 2` entries become averages, the next `l / 2` details, and everything
      from `2 * (l / 2)` on is left alone. */
  function Pass(s: seq<real>, l: nat): (r: seq<real>)
    requires l <= |s|
    ensures |r| == |s|
  {
    var p := s[..2 * (l / 2)];
    Averages(p) + Details(p) + s[2 * (l / 2)..]
  }

  /** One entry of a pass. */
  lemma PassEntry(s: seq<real>, l: nat, k: nat)
    requires l <= |s| && k < |s|
    ensures Pass(s, l)[k] ==
      if k < l / 2 then PairAverage(s, k)
      else if k < 2 * (l / 2) then PairDetail(s, k - l / 2)
      else s[k]
  {
    var h := l / 2;
    var p := s[..2 * h];
    if k < h {
      AveragesDetailsAt(p, k);
    } else if k < 2 * h {
      AveragesDetailsAt(p, k - h);
    }
  }

  /** Entry by entry, a pass computes what the forward loop body writes: the
      average of pair `i` at `i`, its detail at `i + l / 2`, and the old value
      from `2 * (l / 2)` on. */
  lemma PassAt(s: seq<real>, l: nat)
    requires l <= |s|
    ensures forall i :: 0 <= i < l / 2 ==> Pass(s, l)[i] == PairAverage(s, i)
    ensures forall i :: 0 <= i < l / 2 ==> Pass(s, l)[l / 2 + i] == PairDetail(s, i)
    ensures forall k :: l / 2 <= k < 2 * (l / 2) ==> Pass(s, l)[k] == PairDetail(s, k - l / 2)
    ensures forall k :: 2 * (l / 2) <= k < |s| ==> Pass(s, l)[k] == s[k]
  {
    forall k | 0 <= k < |s|
      ensures Pass(s, l)[k] ==
        if k < l / 2 then PairAverage(s, k)
        else if k < 2 * (l / 2) then PairDetail(s, k - l / 2)
        else s[k]
    {
      PassEntry(s, l, k);
    }
  }

  /** One pair of a pass: its average and its detail. */
  lemma PassPairAt(s: seq<real>, l: nat, i: nat)
    requires l <= |s| && i < l / 2
    ensures Pass(s, l)[i] == PairAverage(s, i) && Pass(s, l)[l / 2 + i] == PairDetail(s, i)
  {
    PassEntry(s, l, i);
    PassEntry(s, l, l / 2 + i);
  }

  // ---------------------------------------------------------------------------
  // The forward transform, as the loop runs it
  // ---------------------------------------------------------------------------

  /** The passes the forward loop makes from active length `l` on: one pass at
      each `l, l / 2, l / 4, ...` while the active length is at least `bound`. */
  function Passes(s: seq<real>, l: nat, bound: nat): (r: seq<real>)
    requires l <= |s| && bound >= 1
    ensures |r| == |s|
    decreases l
  {
    if l >= bound then Passes(Pass(s, l), l / 2, bound) else s
  }

  /** The loop's stopping bound: 2 in `All` mode, the whole length in `One` mode. */
  function Bound(length: nat, mode: TransformIterationTypes): nat
  {
    if mode == All then 2 else length
  }

  /** The forward transform of a whole sequence. `One` mode needs a non-empty
      sequence: on an empty one the loop's guard `0 >= 0` never fails. */
  function Forward(s: seq<real>, mode: TransformIterationTypes): (r: seq<real>)
    requires mode == One ==> |s| >= 1
    ensures |r| == |s|
  {
    Passes(s, |s|, Bound(|s|, mode))
  }

  /** The number of passes `All` mode makes from active length `l`. */
  function Levels(l: nat): nat
  {
    if l >= 2 then 1 + Levels(l / 2) else 0
  }

  /** `One` mode is exactly one pass over the whole sequence. */
  lemma OneModeIsSinglePass(s: seq<real>)
    requires |s| >= 1
    ensures Forward(s, One) == Pass(s, |s|)
  {
    assert Forward(s, One) == Passes(Pass(s, |s|), |s| / 2, |s|);
    assert |s| / 2 < |s|;
  }

  // ---------------------------------------------------------------------------
  // The same transform, as a pyramid of levels
  // ---------------------------------------------------------------------------

  /** The full transform written level by level: transform the averages again and
      keep this level's details and the untouched tail behind them. */
  function Pyramid(s: seq<real>): (r: seq<real>)
    ensures |r| == |s|
    decreases |s|
  {
    if |s| < 2 then s
    else
      var p := s[..2 * (|s| / 2)];
      Pyramid(Averages(p)) + Details(p) + s[2 * (|s| / 2)..]
  }

  /** A pass over an active prefix never looks at, or changes, the entries
      behind it. */
  lemma PassFrame(u: seq<real>, v: seq<real>, l: nat)
    requires l <= |u|
    ensures Pass(u + v, l) == Pass(u, l) + v
  {
    var h := l / 2;
    assert (u + v)[..2 * h] == u[..2 * h];
    assert (u + v)[2 * h..] == u[2 * h..] + v;
  }

  /** Nor do the passes of the whole loop. */
  lemma {:induction false} PassesFrame(u: seq<real>, v: seq<real>, l: nat, bound: nat)
    requires l <= |u| && bound >= 1
    ensures Passes(u + v, l, bound) == Passes(u, l, bound) + v
    decreases l
  {
    if l >= bound {
      PassFrame(u, v, l);
      PassesFrame(Pass(u, l), v, l / 2, bound);
    }
  }

  /** The loop of `All` mode computes the pyramid, for every length. */
  lemma {:induction false} AllModeIsPyramid(s: seq<real>)
    ensures Forward(s, All) == Pyramid(s)
    decreases |s|
  {
    if |s| >= 2 {
      var h := |s| / 2;
      var p := s[..2 * h];
      var a := Averages(p);
      assert Pass(s, |s|) == a + (Details(p) + s[2 * h..]);
      PassesFrame(a, Details(p) + s[2 * h..], h, 2);
      AllModeIsPyramid(a);
    }
  }

  // ---------------------------------------------------------------------------
  // The inverse transform
  // ---------------------------------------------------------------------------

  /** The pairs `avg[i] + det[i], avg[i] - det[i]`, one after the other. */
  function Interleave(avg: seq<real>, det: seq<real>): (r: seq<real>)
    requires |avg| == |det|
    ensures |r| == 2 * |avg|
    decreases |avg|
  {
    if |avg| == 0 then []
    else [avg[0] + det[0], avg[0] - det[0]] + Interleave(avg[1..], det[1..])
  }

  lemma {:induction false} InterleaveAt(avg: seq<real>, det: seq<real>, i: nat)
    requires |avg| == |det| && i < |avg|
    ensures Interleave(avg, det)[2 * i] == avg[i] + det[i]
    ensures Interleave(avg, det)[2 * i + 1] == avg[i] - det[i]
    decreases i
  {
    if i > 0 {
      InterleaveAt(avg[1..], det[1..], i - 1);
    }
  }

  /** The value one inverse level writes at `2i`: average plus detail. */
  function PairSum(s: seq<real>, h: nat, i: nat): real
    requires i + h < |s|
  {
    s[i] + s[i + h]
  }

  /** The value one inverse level writes at `2i + 1`: average minus detail. */
  function PairDifference(s: seq<real>, h: nat, i: nat): real
    requires i + h < |s|
  {
    s[i] - s[i + h]
  }

  /** Undoes one level of length `length`: averages are read from `[0, length / 2)`,
      details from `[length / 2, 2 * (length / 2))`, and the rest is kept. */
  function InverseLevel(s: seq<real>, length: nat): (r: seq<real>)
    requires length <= |s|
    ensures |r| == |s|
  {
    var h := length / 2;
    Interleave(s[..h], s[h..2 * h]) + s[2 * h..]
  }

  /** Entry by entry, one inverse level computes what the inverse loop body writes. */
  lemma InverseLevelAt(s: seq<real>, length: nat)
    requires length <= |s|
    ensures forall i :: 0 <= i < length / 2 ==>
      InverseLevel(s, length)[2 * i] == PairSum(s, length / 2, i) &&
      InverseLevel(s, length)[2 * i + 1] == PairDifference(s, length / 2, i)
    ensures forall k :: 2 * (length / 2) <= k < |s| ==> InverseLevel(s, length)[k] == s[k]
  {
    var h := length / 2;
    forall i | 0 <= i < h
      ensures InverseLevel(s, length)[2 * i] == PairSum(s, h, i)
      ensures InverseLevel(s, length)[2 * i + 1] == PairDifference(s, h, i)
    {
      InterleaveAt(s[..h], s[h..2 * h], i);
    }
  }

  /** The inverse transform: below length 2 nothing is left to undo; otherwise
      the coarser levels (length `length / 2` and below) are undone first. */
  function Inverse(s: seq<real>, length: int): (r: seq<real>)
    requires length <= |s|
    ensures |r| == |s|
    decreases length
  {
    if length < 2 then s else InverseLevel(Inverse(s, length / 2), length)
  }

  /** The inverse at `length` only reads and writes the first `length` entries. */
  lemma {:induction false} InverseFrame(u: seq<real>, v: seq<real>, length: int)
    requires length <= |u|
    ensures Inverse(u + v, length) == Inverse(u, length) + v
    decreases length
  {
    if length >= 2 {
      var h := length / 2;
      InverseFrame(u, v, h);
      var w := Inverse(u, h);
      assert (w + v)[..h] == w[..h];
      assert (w + v)[h..2 * h] == w[h..2 * h];
      assert (w + v)[2 * h..] == w[2 * h..] + v;
    }
  }

  // ---------------------------------------------------------------------------
  // Forward and inverse undo each other
  // ---------------------------------------------------------------------------

  /** Pairing the averages with the details of an even-length block rebuilds it. */
  lemma {:induction false} InterleaveUndoesSplit(p: seq<real>)
    requires |p| % 2 == 0
    ensures Interleave(Averages(p), Details(p)) == p
    decreases |p|
  {
    if |p| >= 2 {
      InterleaveUndoesSplit(p[2..]);
      assert p == [p[0], p[1]] + p[2..];
    }
  }

  /** Splitting interleaved pairs gives back the averages and the details. */
  lemma {:induction false} SplitUndoesInterleave(avg: seq<real>, det: seq<real>)
    requires |avg| == |det|
    ensures Averages(Interleave(avg, det)) == avg
    ensures Details(Interleave(avg, det)) == det
    decreases |avg|
  {
    if |avg| > 0 {
      var q := Interleave(avg, det);
      assert q[2..] == Interleave(avg[1..], det[1..]);
      SplitUndoesInterleave(avg[1..], det[1..]);
      assert avg == [avg[0]] + avg[1..];
      assert det == [det[0]] + det[1..];
    }
  }

  /** Undoing the top level of a split block rebuilds it. */
  lemma InverseLevelUndoesSplit(s: seq<real>)
    requires |s| >= 2
    ensures InverseLevel(Averages(s[..2 * (|s| / 2)]) + Details(s[..2 * (|s| / 2)]) + s[2 * (|s| / 2)..], |s|) == s
  {
    var h := |s| / 2;
    var p := s[..2 * h];
    var a, d, t := Averages(p), Details(p), s[2 * h..];
    var w := a + d + t;
    assert w[..h] == a && w[h..2 * h] == d && w[2 * h..] == t;
    InterleaveUndoesSplit(p);
    assert p + t == s;
  }

  /** The inverse at the full length undoes the pyramid, for every length. */
  lemma {:induction false} InverseUndoesPyramid(s: seq<real>)
    ensures Inverse(Pyramid(s), |s|) == s
    decreases |s|
  {
    if |s| >= 2 {
      var h := |s| / 2;
      var p := s[..2 * h];
      var a, d, t := Averages(p), Details(p), s[2 * h..];
      assert Pyramid(s) == Pyramid(a) + (d + t);
      InverseFrame(Pyramid(a), d + t, h);
      InverseUndoesPyramid(a);
      assert a + (d + t) == a + d + t;
      InverseLevelUndoesSplit(s);
    }
  }

  /** The inverse at the full length of `u + v` (with `v` as long as `u` or
      one longer), its top level written out: the coarser levels only touch
      `u`. */
  lemma InverseTopLevel(u: seq<real>, v: seq<real>)
    requires |u| <= |v| <= |u| + 1
    ensures Inverse(u + v, |u| + |v|) == Interleave(Inverse(u, |u|), v[..|u|]) + v[|u|..]
  {
    var h := |u|;
    if |u| + |v| >= 2 {
      assert (|u| + |v|) / 2 == h;
      InverseFrame(u, v, h);
      var x := Inverse(u, h) + v;
      assert Inverse(u + v, |u| + |v|) == InverseLevel(x, |u| + |v|);
      AppendSlices(Inverse(u, h), v, h);
    } else {
      assert u == [];
    }
  }

  /** Slicing `a + b` at the seam and `h` entries past it, where `h` is the
      length of `a`. */
  lemma AppendSlices(a: seq<real>, b: seq<real>, h: nat)
    requires |a| == h && h <= |b|
    ensures (a + b)[..h] == a
    ensures (a + b)[h..2 * h] == b[..h]
    ensures (a + b)[2 * h..] == b[h..]
  {
  }

  /** The pyramid of interleaved pairs splits them again. */
  lemma PyramidOfInterleave(y: seq<real>, d: seq<real>, t: seq<real>)
    requires |y| == |d| && |y| >= 1 && |t| <= 1
    ensures Pyramid(Interleave(y, d) + t) == Pyramid(y) + d + t
  {
    var q := Interleave(y, d);
    var r := q + t;
    assert |r| / 2 == |y|;
    assert r[..2 * |y|] == q && r[2 * |y|..] == t;
    assert Pyramid(r) == Pyramid(Averages(q)) + Details(q) + t;
    SplitUndoesInterleave(y, d);
  }

  /** One step of the induction below: the pyramid of the inverse of `u + v`
      is the pyramid of the inverse of `u`, with `v` kept behind it. */
  lemma PyramidOfInverseTop(u: seq<real>, v: seq<real>)
    requires 1 <= |u| <= |v| <= |u| + 1
    ensures Pyramid(Inverse(u + v, |u| + |v|)) == Pyramid(Inverse(u, |u|)) + v
  {
    var h := |u|;
    InverseTopLevel(u, v);
    PyramidOfInterleave(Inverse(u, h), v[..h], v[h..]);
    AppendSplit(Pyramid(Inverse(u, h)), v, h);
  }

  /** Splitting the second part of a concatenation changes nothing. */
  lemma AppendSplit(a: seq<real>, b: seq<real>, h: nat)
    requires h <= |b|
    ensures a + b[..h] + b[h..] == a + b
  {
    assert b == b[..h] + b[h..];
  }

  /** The pyramid undoes the inverse at the full length: both are bijections. */
  lemma {:induction false} PyramidUndoesInverse(c: seq<real>)
    ensures Pyramid(Inverse(c, |c|)) == c
    decreases |c|
  {
    if |c| >= 2 {
      var h := |c| / 2;
      var u, v := c[..h], c[h..];
      assert Inverse(c, |c|) == Inverse(u + v, |u| + |v|) by {
        assert c == u + v;
      }
      PyramidOfInverseTop(u, v);
      PyramidUndoesInverse(u);
      assert u + v == c;
    }
  }

  /** Round trip: the inverse at the full length undoes the `All`-mode forward
      transform. Over the reals this is exact, and it holds for every length. */
  lemma RoundTrip(s: seq<real>)
    ensures Inverse(Forward(s, All), |s|) == s
  {
    AllModeIsPyramid(s);
    InverseUndoesPyramid(s);
  }

  /** And the other way round: every coefficient sequence is the `All`-mode
      transform of its inverse. */
  lemma ForwardOfInverse(c: seq<real>)
    ensures Forward(Inverse(c, |c|), All) == c
  {
    AllModeIsPyramid(Inverse(c, |c|));
    PyramidUndoesInverse(c);
  }

  // ---------------------------------------------------------------------------
  // The one averaged element
  // ---------------------------------------------------------------------------

  function Sum(s: seq<real>): real
    decreases |s|
  {
    if |s| == 0 then 0.0 else s[0] + Sum(s[1..])
  }

  predicate IsPowerOfTwo(n: nat)
    decreases n
  {
    n == 1 || (n >= 2 && n % 2 == 0 && IsPowerOfTwo(n / 2))
  }

  /** The averages of an even-length block sum to half of the block. */
  lemma {:induction false} SumOfAverages(s: seq<real>)
    requires |s| % 2 == 0
    ensures Sum(Averages(s)) == Sum(s) / 2.0
    decreases |s|
  {
    if |s| >= 2 {
      SumOfAverages(s[2..]);
      assert s[1..][1..] == s[2..];
      assert ([(s[0] + s[1]) / 2.0] + Averages(s[2..]))[1..] == Averages(s[2..]);
    }
  }

  /** The head of the pyramid is the head of the pyramid of the averages. */
  lemma PyramidHead(s: seq<real>)
    requires |s| >= 2
    ensures Pyramid(s)[0] == Pyramid(Averages(s[..2 * (|s| / 2)]))[0]
  {
  }

  /** For a power-of-two length, the pyramid's first entry is the mean. */
  lemma {:induction false} PyramidFirstIsMean(s: seq<real>)
    requires IsPowerOfTwo(|s|)
    ensures Pyramid(s)[0] == Sum(s) / (|s| as real)
    decreases |s|
  {
    if |s| == 1 {
      assert s[1..] == [];
    } else {
      var h := |s| / 2;
      assert s[..2 * h] == s;
      SumOfAverages(s);
      PyramidFirstIsMean(Averages(s));
      PyramidHead(s);
      HalfOfMean(Sum(s), h as real);
      assert (|s| as real) == 2.0 * (h as real);
    }
  }

  lemma HalfOfMean(x: real, h: real)
    requires h > 0.0
    ensures (x / 2.0) / h == x / (2.0 * h)
  {
  }

  /** For a power-of-two length, `All` mode leaves the mean of the input at index 0. */
  lemma ForwardFirstIsMean(s: seq<real>)
    requires IsPowerOfTwo(|s|)
    ensures Forward(s, All)[0] == Sum(s) / (|s| as real)
  {
    AllModeIsPyramid(s);
    PyramidFirstIsMean(s);
  }

  /** The finest details, those of the first pass, survive the later passes:
      they sit in the upper half of the full transform. */
  lemma ForwardFinestDetails(s: seq<real>)
    ensures forall i :: 0 <= i < |s| / 2 ==> Forward(s, All)[|s| / 2 + i] == PairDetail(s, i)
  {
    if |s| >= 2 {
      var h := |s| / 2;
      var t := Pass(s, |s|);
      PassAt(s, |s|);
      assert Forward(s, All) == Passes(t, h, 2);
      assert t == t[..h] + t[h..];
      PassesFrame(t[..h], t[h..], h, 2);
    }
  }

  // ---------------------------------------------------------------------------
  // A concrete run
  // ---------------------------------------------------------------------------

  /** One pass over a whole sequence of eight. */
  lemma PassOfEight(a: real, b: real, c: real, d: real, e: real, f: real, g: real, h: real)
    ensures Pass([a, b, c, d, e, f, g, h], 8) ==
      [(a + b) / 2.0, (c + d) / 2.0, (e + f) / 2.0, (g + h) / 2.0,
       (a - b) / 2.0, (c - d) / 2.0, (e - f) / 2.0, (g - h) / 2.0]
  {
    PassAt([a, b, c, d, e, f, g, h], 8);
  }

  lemma SamplePassOne()
    ensures Pass([20.0, 12.0, 13.0, 11.0, 6.0, 2.0, 8.0, 12.0], 8)
         == [16.0, 12.0, 4.0, 10.0, 4.0, 1.0, 2.0, -2.0]
  {
    PassOfEight(20.0, 12.0, 13.0, 11.0, 6.0, 2.0, 8.0, 12.0);
  }

  lemma SamplePassTwo()
    ensures Pass([16.0, 12.0, 4.0, 10.0, 4.0, 1.0, 2.0, -2.0], 4)
         == [14.0, 7.0, 2.0, -3.0, 4.0, 1.0, 2.0, -2.0]
  {
    PassAt([16.0, 12.0, 4.0, 10.0, 4.0, 1.0, 2.0, -2.0], 4);
  }

  lemma SamplePassThree()
    ensures Pass([14.0, 7.0, 2.0, -3.0, 4.0, 1.0, 2.0, -2.0], 2)
         == [10.5, 3.5, 2.0, -3.0, 4.0, 1.0, 2.0, -2.0]
  {
    PassAt([14.0, 7.0, 2.0, -3.0, 4.0, 1.0, 2.0, -2.0], 2);
  }

  /** The sample sequence of the demo, transformed in `All` mode. */
  lemma SampleForward()
    ensures Forward([20.0, 12.0, 13.0, 11.0, 6.0, 2.0, 8.0, 12.0], All)
         == [10.5, 3.5, 2.0, -3.0, 4.0, 1.0, 2.0, -2.0]
  {
    SamplePassOne();
    SamplePassTwo();
    SamplePassThree();
  }
}
