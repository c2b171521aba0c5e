/** The uniform quantizer (uniform_quantize in src/assignment_one.py), over
    exact reals. */
module Quantizer {
  import opened BinSearch

  function Abs(x: real): real {
    if x < 0.0 then -x else x
  }

  /** The smallest sample (Python's `min`). */
  function SeqMin(s: seq<real>): (m: real)
    requires |s| > 0
    ensures m in s
  {
    if |s| == 1 then s[0]
    else
      var m' := SeqMin(s[1..]);
      if s[0] <= m' then s[0] else m'
  }

  /** The largest sample (Python's `max`). */
  function SeqMax(s: seq<real>): (m: real)
    requires |s| > 0
    ensures m in s
  {
    if |s| == 1 then s[0]
    else
      var m' := SeqMax(s[1..]);
      if s[0] >= m' then s[0] else m'
  }

  /** Every sample lies between the smallest and the largest. */
  lemma {:induction false} SeqMinMaxBound(s: seq<real>)
    requires |s| > 0
    ensures forall x :: x in s ==> SeqMin(s) <= x <= SeqMax(s)
  {
    if |s| > 1 {
      SeqMinMaxBound(s[1..]);
      assert forall x :: x in s ==> x == s[0] || x in s[1..];
    }
  }

  /** The quantization step: the range of the samples split into `levels`. */
  function Delta(lo: real, hi: real, levels: nat): (d: real)
    requires levels >= 1
    ensures d * levels as real == hi - lo
  {
    (hi - lo) / levels as real
  }

  /** The step has the sign of the range. */
  lemma DeltaSign(lo: real, hi: real, levels: nat)
    requires levels >= 1
    ensures lo <= hi ==> Delta(lo, hi, levels) >= 0.0
    ensures lo < hi ==> Delta(lo, hi, levels) > 0.0
  {
    var d, n := Delta(lo, hi, levels), levels as real;
    assert d * n == hi - lo;
  }

  /** The thresholds `(i+1)*delta` for `i` below `levels`, offset from 0 and
      not from the smallest sample (the list comprehension of
      `uniform_quantize`). */
  function Thresholds(levels: nat, delta: real): (t: seq<real>)
    ensures |t| == levels
  {
    if levels == 0 then [] else Thresholds(levels - 1, delta) + [levels as real * delta]
  }

  /** Threshold `i` is `(i+1)*delta`. */
  lemma {:induction false} ThresholdAt(levels: nat, delta: real, i: nat)
    requires i < levels
    ensures Thresholds(levels, delta)[i] == (i + 1) as real * delta
  {
    if i < levels - 1 {
      ThresholdAt(levels - 1, delta, i);
    }
  }

  /** The thresholds `uniform_quantize` builds for a batch of samples: the
      last one is the width of the range of the samples, not its top. */
  function LevelsFor(data: seq<real>, levels: nat): (t: seq<real>)
    requires |data| > 0 && levels >= 1
    ensures |t| == levels
    ensures t[levels - 1] == SeqMax(data) - SeqMin(data)
  {
    LastThreshold(levels, SeqMin(data), SeqMax(data));
    Thresholds(levels, Delta(SeqMin(data), SeqMax(data), levels))
  }

  /** The last threshold is `levels` steps: the whole range. */
  lemma LastThreshold(levels: nat, lo: real, hi: real)
    requires levels >= 1
    ensures Thresholds(levels, Delta(lo, hi, levels))[levels - 1] == hi - lo
  {
    var delta := Delta(lo, hi, levels);
    assert Thresholds(levels, delta)[levels - 1] == levels as real * delta;
  }

  lemma {:induction false} ScaleIsMonotone(i: nat, j: nat, d: real)
    requires i < j
    ensures d > 0.0 ==> (i + 1) as real * d < (j + 1) as real * d
    ensures d >= 0.0 ==> (i + 1) as real * d <= (j + 1) as real * d
  {
    var di := (j - i) as real;
    assert (j + 1) as real * d == (i + 1) as real * d + di * d;
    assert d > 0.0 ==> di * d > 0.0;
  }

  /** The thresholds are ascending for a step that is not negative and
      strictly ascending for a positive step. */
  lemma ThresholdsAscending(levels: nat, delta: real)
    ensures delta >= 0.0 ==> Ascending(Thresholds(levels, delta))
    ensures delta > 0.0 ==> StrictlyAscending(Thresholds(levels, delta))
  {
    var t := Thresholds(levels, delta);
    forall i, j | 0 <= i < j < levels
      ensures delta >= 0.0 ==> t[i] <= t[j]
      ensures delta > 0.0 ==> t[i] < t[j]
    {
      ThresholdAt(levels, delta, i);
      ThresholdAt(levels, delta, j);
      ScaleIsMonotone(i, j, delta);
    }
  }

  /** For a batch, the step is never negative, so the thresholds ascend; they
      ascend strictly when the samples are not all equal. */
  lemma LevelsForAscending(data: seq<real>, levels: nat)
    requires |data| > 0 && levels >= 1
    ensures Ascending(LevelsFor(data, levels))
    ensures SeqMin(data) < SeqMax(data) ==> StrictlyAscending(LevelsFor(data, levels))
  {
    SeqMinMaxBound(data);
    var lo, hi := SeqMin(data), SeqMax(data);
    assert lo <= hi;
    DeltaSign(lo, hi, levels);
    ThresholdsAscending(levels, Delta(lo, hi, levels));
  }

  /** What one sample becomes: the level it is snapped to and what it adds to
      the squared error. */
  datatype Snap = Snap(level: real, err: real)

  lemma AbsSquared(d: real)
    ensures Abs(d) * Abs(d) == d * d
  {
  }

  /** How a sample is snapped once its search index `k` is known: the first
      and the last index snap directly and add no error; an interior index
      picks the nearer of that level and the next, a tie going to the higher
      one, and adds the squared distance. */
  function SnapAt(t: seq<real>, x: real, k: nat): (s: Snap)
    requires k < |t|
    ensures s.level in t && s.err >= 0.0
  {
    if k == 0 || k == |t| - 1 then Snap(t[k], 0.0)
    else
      var lower, higher := t[k], t[k + 1];
      var diffLow, diffHigh := Abs(x - lower), Abs(x - higher);
      if diffHigh > diffLow then Snap(lower, diffLow * diffLow)
      else Snap(higher, diffHigh * diffHigh)
  }

  /** One step of the quantizer loop: search, then snap. */
  function SnapSample(t: seq<real>, x: real): (s: Snap)
    requires |t| >= 1
    ensures s.level in t && s.err >= 0.0
  {
    SnapAt(t, x, BinSearchIndex(t, x, 0))
  }

  /** A boundary index adds nothing to the error; an interior index adds the
      squared distance between the sample and the level it was snapped to,
      which is the smaller of its distances to the two neighbouring levels. */
  lemma SnapError(t: seq<real>, x: real, k: nat)
    requires k < |t|
    ensures k == 0 || k == |t| - 1 ==> SnapAt(t, x, k) == Snap(t[k], 0.0)
    ensures var s := SnapAt(t, x, k);
      0 < k < |t| - 1 ==>
        && s.err == (x - s.level) * (x - s.level)
        && Abs(x - s.level) <= Abs(x - t[k])
        && Abs(x - s.level) <= Abs(x - t[k + 1])
  {
    if 0 < k < |t| - 1 {
      AbsSquared(x - SnapAt(t, x, k).level);
    }
  }

  /** An interior snap in terms of the two distances the loop computes. */
  lemma InteriorSnap(t: seq<real>, x: real, k: nat, diffLow: real, diffHigh: real)
    requires 0 < k < |t| - 1
    requires diffLow == Abs(x - t[k]) && diffHigh == Abs(x - t[k + 1])
    ensures diffHigh > diffLow ==> SnapAt(t, x, k) == Snap(t[k], diffLow * diffLow)
    ensures diffHigh <= diffLow ==> SnapAt(t, x, k) == Snap(t[k + 1], diffHigh * diffHigh)
  {
  }

  /** For an interior index the lower level is chosen exactly when it is
      strictly nearer; a tie goes to the higher level. */
  lemma SnapInteriorChoice(t: seq<real>, x: real, k: nat)
    requires 0 < k < |t| - 1 && t[k] < t[k + 1]
    ensures SnapAt(t, x, k).level == t[k] <==> Abs(x - t[k]) < Abs(x - t[k + 1])
  {
  }

  /** On strictly ascending levels every snap with a nonzero search index,
      and every sample at or below the first level, goes to a nearest level
      of all; only a sample between the first two levels keeps the first
      level without comparing. */
  lemma SnapNearest(t: seq<real>, x: real)
    requires |t| >= 1 && StrictlyAscending(t)
    requires BinSearchIndex(t, x, 0) != 0 || x <= t[0]
    ensures forall j :: 0 <= j < |t| ==> Abs(x - SnapSample(t, x).level) <= Abs(x - t[j])
  {
    var k := BinSearchIndex(t, x, 0);
    var q := SnapSample(t, x).level;
    if x <= t[0] {
      assert q == t[0];
      NearestBelow(t, x);
    } else {
      BinSearchIndexIsFloor(t, x, 0);
      SnapError(t, x, k);
      NearestOfBracket(t, x, k, q);
    }
  }

  /** A sample at or below the first level is nearest to the first level. */
  lemma NearestBelow(t: seq<real>, x: real)
    requires |t| >= 1 && StrictlyAscending(t) && x <= t[0]
    ensures forall j :: 0 <= j < |t| ==> Abs(x - t[0]) <= Abs(x - t[j])
  {
    forall j | 0 < j < |t| ensures t[0] < t[j] {
    }
  }

  /** A level at least as near to the sample as its floor level `k` and the
      level after it is at least as near as any level. */
  lemma NearestOfBracket(t: seq<real>, x: real, k: nat, q: real)
    requires k < |t| && StrictlyAscending(t) && IsFloor(t, x, k)
    requires Abs(x - q) <= Abs(x - t[k])
    requires k + 1 < |t| ==> Abs(x - q) <= Abs(x - t[k + 1])
    ensures forall j :: 0 <= j < |t| ==> Abs(x - q) <= Abs(x - t[j])
  {
    forall j | 0 <= j < |t| ensures Abs(x - q) <= Abs(x - t[j]) {
      if j < k {
        assert t[j] < t[k] <= x;
      } else if j > k + 1 {
        assert x < t[k + 1] < t[j];
      }
    }
  }

  /** On ascending levels every snap lies between the first and the last
      level. */
  lemma SnapWithinRange(t: seq<real>, x: real)
    requires |t| >= 1 && Ascending(t)
    ensures t[0] <= SnapSample(t, x).level <= t[|t| - 1]
  {
  }

  /** The levels of a batch of snaps all lie between the first and the last
      level. */
  lemma SnapsWithinRange(t: seq<real>, xs: seq<real>, q: seq<real>)
    requires |t| >= 1 && Ascending(t) && |q| == |xs|
    requires forall i :: 0 <= i < |xs| ==> q[i] == SnapSample(t, xs[i]).level
    ensures forall i :: 0 <= i < |xs| ==> t[0] <= q[i] <= t[|t| - 1]
  {
    forall i | 0 <= i < |xs| ensures t[0] <= q[i] <= t[|t| - 1] {
      SnapWithinRange(t, xs[i]);
    }
  }

  /** The squared errors of a run of snaps, added up in order. */
  function TotalError(ss: seq<Snap>): real {
    if ss == [] then 0.0 else TotalError(ss[..|ss| - 1]) + ss[|ss| - 1].err
  }

  lemma {:induction false} TotalErrorNonNegative(ss: seq<Snap>)
    requires forall i :: 0 <= i < |ss| ==> ss[i].err >= 0.0
    ensures TotalError(ss) >= 0.0
  {
    if ss != [] {
      TotalErrorNonNegative(ss[..|ss| - 1]);
    }
  }

  /** The snap of every sample of a batch, in order. */
  function SnapAll(t: seq<real>, xs: seq<real>): seq<Snap>
    requires |t| >= 1
  {
    seq(|xs|, i requires 0 <= i < |xs| => SnapSample(t, xs[i]))
  }

  /** One more sample is one more snap at the end. */
  lemma SnapAllSnoc(t: seq<real>, xs: seq<real>, n: nat)
    requires |t| >= 1 && n < |xs|
    ensures SnapAll(t, xs[..n + 1]) == SnapAll(t, xs[..n]) + [SnapSample(t, xs[n])]
  {
  }

  /** One more snap adds its error to the total. */
  lemma TotalErrorSnoc(ss: seq<Snap>, s: Snap)
    ensures TotalError(ss + [s]) == TotalError(ss) + s.err
  {
    assert (ss + [s])[..|ss|] == ss;
  }

  /** The levels of a run of snaps, in order. */
  function LevelsOf(ss: seq<Snap>): seq<real> {
    seq(|ss|, i requires 0 <= i < |ss| => ss[i].level)
  }

  /** One more snap adds its level at the end. */
  lemma LevelsOfSnoc(ss: seq<Snap>, s: Snap)
    ensures LevelsOf(ss + [s]) == LevelsOf(ss) + [s.level]
  {
  }

  /** The error `uniform_quantize` reports for a batch: the snap errors of
      all samples added up in order, never negative. */
  function ErrorSum(t: seq<real>, xs: seq<real>): (e: real)
    requires |t| >= 1
    ensures e >= 0.0
  {
    TotalErrorNonNegative(SnapAll(t, xs));
    TotalError(SnapAll(t, xs))
  }

  /** `uniform_quantize`: thresholds from the range of the samples, then one
      output per sample, each one of the thresholds and within the first and
      the last, and the sum of the interior snap errors. Requires at least
      one sample (`min` of an empty list fails) and at least one level
      (`delta` divides by it). */
  method UniformQuantize(soundData: seq<real>, levels: nat) returns (quantized: seq<real>, errPwr2: real)
    requires |soundData| > 0 && levels >= 1
    ensures |quantized| == |soundData|
    ensures forall i :: 0 <= i < |soundData| ==>
      quantized[i] == SnapSample(LevelsFor(soundData, levels), soundData[i]).level
    ensures forall i :: 0 <= i < |soundData| ==> quantized[i] in LevelsFor(soundData, levels)
    ensures forall i :: 0 <= i < |soundData| ==>
      LevelsFor(soundData, levels)[0] <= quantized[i] <= LevelsFor(soundData, levels)[levels - 1]
    ensures errPwr2 == ErrorSum(LevelsFor(soundData, levels), soundData) && errPwr2 >= 0.0
  {
    var minVal, maxVal := SeqMin(soundData), SeqMax(soundData);
    var delta := Delta(minVal, maxVal, levels);
    var quantizationValues := Thresholds(levels, delta);
    assert quantizationValues == LevelsFor(soundData, levels);

    quantized := [];
    errPwr2 := 0.0;
    for n := 0 to |soundData|
      invariant quantized == LevelsOf(SnapAll(quantizationValues, soundData[..n]))
      invariant errPwr2 == TotalError(SnapAll(quantizationValues, soundData[..n]))
    {
      var sample := soundData[n];
      ghost var snap := SnapSample(quantizationValues, sample);
      SnapAllSnoc(quantizationValues, soundData, n);
      TotalErrorSnoc(SnapAll(quantizationValues, soundData[..n]), snap);
      LevelsOfSnoc(SnapAll(quantizationValues, soundData[..n]), snap);

      var levelIndex := BinSearchIndex(quantizationValues, sample, 0);
      assert snap == SnapAt(quantizationValues, sample, levelIndex);
      if levelIndex == 0 || levelIndex == levels - 1 {
        assert snap == Snap(quantizationValues[levelIndex], 0.0);
        quantized := quantized + [quantizationValues[levelIndex]];
        continue;
      }
      var lowerLevel := quantizationValues[levelIndex];
      var higherLevel := quantizationValues[levelIndex + 1];
      var diffLow := Abs(sample - lowerLevel);
      var diffHigh := Abs(sample - higherLevel);
      InteriorSnap(quantizationValues, sample, levelIndex, diffLow, diffHigh);
      if diffHigh > diffLow {
        quantized := quantized + [lowerLevel];
        errPwr2 := errPwr2 + diffLow * diffLow;
      } else {
        quantized := quantized + [higherLevel];
        errPwr2 := errPwr2 + diffHigh * diffHigh;
      }
    }
    assert soundData[..|soundData|] == soundData;
    LevelsForAscending(soundData, levels);
    SnapsWithinRange(quantizationValues, soundData, quantized);
  }

  /** Samples 0, 3.5 and 4 quantized to four levels get the thresholds
      1, 2, 3 and 4. */
  lemma ExampleLevels()
    ensures LevelsFor([0.0, 3.5, 4.0], 4) == [1.0, 2.0, 3.0, 4.0]
  {
    var data := [0.0, 3.5, 4.0];
    assert data[1..] == [3.5, 4.0] && data[1..][1..] == [4.0];
    assert SeqMin(data) == 0.0 && SeqMax(data) == 4.0;
    assert Thresholds(3, 1.0) == [1.0, 2.0, 3.0] by {
      assert Thresholds(2, 1.0) == [1.0, 2.0] by {
        assert Thresholds(1, 1.0) == [1.0];
      }
    }
  }

  /** The loop as written searches with `BinSearchIndexAsWritten`: on the
      samples 0, 3.5 and 4 with four levels the thresholds are 1, 2, 3 and
      4, and the search as written snaps 3.5 to 1 with no error, where the
      corrected search snaps it to 4 with error 0.25. */
  lemma AsWrittenSearchMisquantizes()
    ensures LevelsFor([0.0, 3.5, 4.0], 4) == [1.0, 2.0, 3.0, 4.0]
    ensures SnapAt([1.0, 2.0, 3.0, 4.0], 3.5, BinSearchIndexAsWritten([1.0, 2.0, 3.0, 4.0], 3.5, 0)) == Snap(1.0, 0.0)
    ensures SnapSample([1.0, 2.0, 3.0, 4.0], 3.5) == Snap(4.0, 0.25)
  {
    var t := [1.0, 2.0, 3.0, 4.0];
    ExampleLevels();
    assert SnapAt(t, 3.5, BinSearchIndexAsWritten(t, 3.5, 0)) == Snap(1.0, 0.0) by {
      AsWrittenMissesUpperHalf();
    }
    assert SnapSample(t, 3.5) == Snap(4.0, 0.25) by {
      AsWrittenMissesUpperHalf();
      assert t[2] == 3.0 && t[3] == 4.0;
      assert Abs(3.5 - 3.0) == 0.5 && Abs(3.5 - 4.0) == 0.5;
    }
  }
}
