/** The in-place one-dimensional transforms: each level works from a fresh copy
    of the whole array and overwrites the array itself. Their postconditions tie
    the new contents to the sequence functions of `HaarSequence`, whose lemmas
    carry the round trip and the other promises.
 */
module HaarTransform {
  import opened HaarSequence

  /** A fresh array with the same contents (the working copy of each level). */
  method Copy(a: array<real>) returns (tmp: array<real>)
    ensures fresh(tmp) && tmp[..] == a[..]
  {
    tmp := new real[a.Length];
    forall k | 0 <= k < a.Length {
      tmp[k] := a[k];
    }
  }

  /** The array after the first `i` iterations of a forward pass whose half
      length is `h`: pairs `0 .. i - 1` of `t` have been written. */
  ghost function PassPrefix(t: seq<real>, h: nat, i: nat): (r: seq<real>)
    requires i <= h && 2 * h <= |t|
    ensures |r| == |t|
    decreases i
  {
    if i == 0 then t
    else PassPrefix(t, h, i - 1)[i - 1 := PairAverage(t, i - 1)][h + i - 1 := PairDetail(t, i - 1)]
  }

  lemma {:induction false} PassPrefixAt(t: seq<real>, h: nat, i: nat, k: nat)
    requires i <= h && 2 * h <= |t| && k < |t|
    ensures PassPrefix(t, h, i)[k] ==
      if k < i then PairAverage(t, k)
      else if h <= k < h + i then PairDetail(t, k - h)
      else t[k]
    decreases i
  {
    if i > 0 {
      PassPrefixAt(t, h, i - 1, k);
    }
  }

  /** Once all `l / 2` iterations are done, the array holds one full pass. */
  lemma PassPrefixComplete(t: seq<real>, l: nat)
    requires l <= |t|
    ensures PassPrefix(t, l / 2, l / 2) == Pass(t, l)
  {
    PassAt(t, l);
    forall k | 0 <= k < |t|
      ensures PassPrefix(t, l / 2, l / 2)[k] == Pass(t, l)[k]
    {
      PassPrefixAt(t, l / 2, l / 2, k);
    }
  }

  /** One forward pass at active length `l`, from a fresh copy `tmp` of the
      array: `a[i]` becomes the average and `a[i + l / 2]` the detail of the
      pair `tmp[2i], tmp[2i + 1]`, for every `i < l / 2`. */
  method ForwardPass(a: array<real>, l: nat)
    requires l <= a.Length
    modifies a
    ensures a[..] == Pass(old(a[..]), l)
  {
    var tmp := Copy(a);
    ghost var t := tmp[..];
    var h := l / 2;
    var i := 0;
    while i < h
      modifies a
      invariant 0 <= i <= h && 2 * h <= l
      invariant a[..] == PassPrefix(t, h, i)
    {
      a[i] := (tmp[2 * i] + tmp[2 * i + 1]) / 2.0;
      a[i + h] := (tmp[2 * i] - tmp[2 * i + 1]) / 2.0;
      i := i + 1;
    }
    PassPrefixComplete(t, l);
  }

  /** The forward transform in place. The active length `l` starts at the array
      length and is halved after every pass; the loop stops once `l` falls below
      the bound (2 in `All` mode, the whole length in `One` mode, where the array
      must not be empty). `passes` counts the passes made. */
  method ForwardTransform(a: array<real>, mode: TransformIterationTypes) returns (ghost passes: nat)
    requires mode == One ==> a.Length >= 1
    modifies a
    ensures a[..] == Forward(old(a[..]), mode)
    ensures passes == if mode == One then 1 else Levels(a.Length)
  {
    var l := a.Length;
    var constraint := if mode == All then 2 else l;
    passes := 0;
    while l >= constraint
      invariant 0 <= l <= a.Length
      invariant constraint == Bound(a.Length, mode) && constraint >= 1
      invariant Passes(a[..], l, constraint) == Forward(old(a[..]), mode)
      invariant mode == All ==> passes + Levels(l) == Levels(a.Length)
      invariant mode == One ==> (passes == 0 && l == a.Length) || (passes == 1 && l < a.Length)
      decreases l
    {
      ForwardPass(a, l);
      l := l / 2;
      passes := passes + 1;
    }
  }

  /** The array after the first `i` iterations of an inverse level whose half
      length is `h`: positions `0 .. 2i - 1` have been rebuilt from `t`. */
  ghost function LevelPrefix(t: seq<real>, h: nat, i: nat): (r: seq<real>)
    requires i <= h && 2 * h <= |t|
    ensures |r| == |t|
    decreases i
  {
    if i == 0 then t
    else LevelPrefix(t, h, i - 1)[2 * i - 2 := PairSum(t, h, i - 1)][2 * i - 1 := PairDifference(t, h, i - 1)]
  }

  lemma {:induction false} LevelPrefixAt(t: seq<real>, h: nat, i: nat, k: nat)
    requires i <= h && 2 * h <= |t| && k < |t|
    ensures LevelPrefix(t, h, i)[k] ==
      if k < 2 * i then (if k % 2 == 0 then PairSum(t, h, k / 2) else PairDifference(t, h, k / 2))
      else t[k]
    decreases i
  {
    if i > 0 {
      LevelPrefixAt(t, h, i - 1, k);
    }
  }

  /** Once all `length / 2` iterations are done, the array holds the undone level. */
  lemma LevelPrefixComplete(t: seq<real>, length: nat)
    requires length <= |t|
    ensures LevelPrefix(t, length / 2, length / 2) == InverseLevel(t, length)
  {
    InverseLevelAt(t, length);
    forall k | 0 <= k < |t|
      ensures LevelPrefix(t, length / 2, length / 2)[k] == InverseLevel(t, length)[k]
    {
      LevelPrefixAt(t, length / 2, length / 2, k);
      if k < 2 * (length / 2) {
        var j := k / 2;
        assert k == 2 * j || k == 2 * j + 1;
      }
    }
  }

  /** Undoes the level of length `length` in place, from a fresh copy `tmp`:
      `a[2i]` and `a[2i + 1]` become `tmp[i] + tmp[i + length / 2]` and
      `tmp[i] - tmp[i + length / 2]`, for every `i < length / 2`. */
  method InverseStep(a: array<real>, length: nat)
    requires length <= a.Length
    modifies a
    ensures a[..] == InverseLevel(old(a[..]), length)
  {
    var tmp := Copy(a);
    ghost var t := tmp[..];
    var h := length / 2;
    var i := 0;
    while i < h
      modifies a
      invariant 0 <= i <= h && 2 * h <= length
      invariant a[..] == LevelPrefix(t, h, i)
    {
      a[2 * i] := tmp[i] + tmp[i + h];
      a[2 * i + 1] := tmp[i] - tmp[i + h];
      i := i + 1;
    }
    LevelPrefixComplete(t, length);
  }

  /** The inverse transform in place: undo the levels below `length` first (by
      recursion on `length / 2`), then the level of `length` itself. Below
      length 2 the array is left as it is. */
  method ReverseTransform(a: array<real>, length: int)
    requires length <= a.Length
    modifies a
    ensures a[..] == Inverse(old(a[..]), length)
    decreases length
  {
    if length < 2 {
      return;
    }
    ReverseTransform(a, length / 2);
    InverseStep(a, length);
  }
}
