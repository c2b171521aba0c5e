/** The decision-index search over an ascending sequence of quantization
    levels (bin_search_index in src/utils.py). */
module BinSearch {

  /** Every level is strictly smaller than the ones after it. */
  ghost predicate StrictlyAscending(a: seq<real>) {
    forall i, j :: 0 <= i < j < |a| ==> a[i] < a[j]
  }

  /** No level is larger than one after it. */
  ghost predicate Ascending(a: seq<real>) {
    forall i, j :: 0 <= i < j < |a| ==> a[i] <= a[j]
  }

  /** The search with the upper-half recursion passing the sample value on,
      as the lower-half recursion does. `base` is the index of `a[0]` in the
      caller's sequence (0 at the top-level call). The result is an index into
      the caller's sequence; the boundary checks come first, the `>= last`
      check ahead of the `<= first` check. */
  function BinSearchIndex(a: seq<real>, value: real, base: nat): (r: nat)
    requires |a| > 0
    ensures base <= r < base + |a|
    ensures value >= a[|a| - 1] ==> r == base + |a| - 1
    ensures value < a[|a| - 1] && value <= a[0] ==> r == base
    ensures value < a[|a| - 1] && value > a[0] && value == a[|a| / 2] ==> r == base + |a| / 2
    decreases |a|
  {
    var mid := |a| / 2;
    if value >= a[|a| - 1] then base + (|a| - 1)
    else if value <= a[0] then base
    else if value == a[mid] then base + mid
    else if |a| == 1 then base
    else if value < a[mid] then BinSearchIndex(a[..mid], value, base)
    else BinSearchIndex(a[mid..], value, base + mid)
  }

  /** The levels at or below `value` are exactly those up to index `k`. */
  ghost predicate IsFloor(a: seq<real>, value: real, k: int) {
    forall j :: 0 <= j < |a| ==> (a[j] <= value <==> j <= k)
  }

  /** On strictly ascending levels the search returns the level "just lower
      than the sample": the levels at or below the value are exactly those up
      to the result. Values below the first level give the first index. */
  lemma {:induction false} BinSearchIndexIsFloor(a: seq<real>, value: real, base: nat)
    requires |a| > 0 && StrictlyAscending(a) && a[0] <= value
    ensures IsFloor(a, value, BinSearchIndex(a, value, base) - base)
    decreases |a|, 1
  {
    var mid := |a| / 2;
    if value >= a[|a| - 1] {
      FloorAt(a, value, |a| - 1);
    } else if value == a[0] {
      FloorAt(a, value, 0);
    } else if value == a[mid] {
      FloorAt(a, value, mid);
    } else if value < a[mid] {
      FloorInLowerHalf(a, value, base);
    } else {
      FloorInUpperHalf(a, value, base);
    }
  }

  /** The floor of a value below the middle level is the floor found in the
      lower half. */
  lemma {:induction false} FloorInLowerHalf(a: seq<real>, value: real, base: nat)
    requires |a| > 1 && StrictlyAscending(a) && a[0] < value < a[|a| / 2]
    ensures IsFloor(a, value, BinSearchIndex(a, value, base) - base)
    decreases |a|, 0
  {
    var mid := |a| / 2;
    var lower := a[..mid];
    SearchStep(a, value, base, base + mid);
    AscendingSlices(a, mid);
    BinSearchIndexIsFloor(lower, value, base);
    FloorFromLowerHalf(a, value, mid, BinSearchIndex(lower, value, base) - base);
  }

  /** The floor of a value above the middle level and below the last one is
      the floor found in the upper half. */
  lemma {:induction false} FloorInUpperHalf(a: seq<real>, value: real, base: nat)
    requires |a| > 1 && StrictlyAscending(a) && a[|a| / 2] < value < a[|a| - 1]
    ensures IsFloor(a, value, BinSearchIndex(a, value, base) - base)
    decreases |a|, 0
  {
    var mid := |a| / 2;
    var upper := a[mid..];
    var b: nat := base + mid;
    SearchStep(a, value, base, b);
    AscendingSlices(a, mid);
    BinSearchIndexIsFloor(upper, value, b);
    var ku := BinSearchIndex(upper, value, b) - b;
    FloorFromUpperHalf(a, value, mid, ku);
  }

  /** Between the first and the last level and off the middle one, the
      search continues in the half the value falls in. */
  lemma SearchStep(a: seq<real>, value: real, base: nat, upperBase: nat)
    requires |a| > 1 && a[0] < value < a[|a| - 1] && value != a[|a| / 2]
    requires upperBase == base + |a| / 2
    ensures var mid := |a| / 2;
      value < a[mid] ==> BinSearchIndex(a, value, base) == BinSearchIndex(a[..mid], value, base)
    ensures var mid := |a| / 2;
      value > a[mid] ==> BinSearchIndex(a, value, base) == BinSearchIndex(a[mid..], value, upperBase)
  {
  }

  /** Both halves of strictly ascending levels are strictly ascending. */
  lemma AscendingSlices(a: seq<real>, mid: nat)
    requires mid <= |a| && StrictlyAscending(a)
    ensures StrictlyAscending(a[..mid]) && StrictlyAscending(a[mid..])
  {
  }

  /** When level `k` is at or below the value and the next one, if any, is
      above it, the levels at or below the value are exactly those up to
      `k`. */
  lemma FloorAt(a: seq<real>, value: real, k: nat)
    requires k < |a| && StrictlyAscending(a) && a[k] <= value
    requires k + 1 < |a| ==> value < a[k + 1]
    ensures IsFloor(a, value, k)
  {
    forall j | 0 <= j < |a| ensures a[j] <= value <==> j <= k {
      if j < k {
        assert a[j] < a[k];
      } else if j > k + 1 {
        assert a[k + 1] < a[j];
      }
    }
  }

  /** A floor found in the lower half is the floor of the whole sequence
      when the value lies below the middle level. */
  lemma FloorFromLowerHalf(a: seq<real>, value: real, mid: nat, k: int)
    requires 0 < mid < |a| && StrictlyAscending(a) && value < a[mid] && k < mid
    requires IsFloor(a[..mid], value, k)
    ensures IsFloor(a, value, k)
  {
    forall j | 0 <= j < |a| ensures a[j] <= value <==> j <= k {
      if j < mid {
        assert a[j] == a[..mid][j];
      } else {
        assert a[mid] <= a[j];
      }
    }
  }

  /** A floor found in the upper half is the floor of the whole sequence
      when the value lies above the middle level. */
  lemma FloorFromUpperHalf(a: seq<real>, value: real, mid: nat, ku: int)
    requires 0 < mid < |a| && StrictlyAscending(a) && a[mid] < value && 0 <= ku
    requires IsFloor(a[mid..], value, ku)
    ensures IsFloor(a, value, mid + ku)
  {
    forall j | 0 <= j < |a| ensures a[j] <= value <==> j <= mid + ku {
      if j < mid {
        assert a[j] < a[mid];
      } else {
        assert a[j] == a[mid..][j - mid];
      }
    }
  }

  /** The search exactly as the upper-half recursion is written: it passes
      `base + mid` where the sample value belongs and lets the base index fall
      back to its default 0. */
  function BinSearchIndexAsWritten(a: seq<real>, value: real, base: nat): (r: nat)
    requires |a| > 0
    ensures r < base + |a|
    decreases |a|
  {
    var mid := |a| / 2;
    if value >= a[|a| - 1] then base + (|a| - 1)
    else if value <= a[0] then base
    else if value == a[mid] then base + mid
    else if |a| == 1 then base
    else if value < a[mid] then BinSearchIndexAsWritten(a[..mid], value, base)
    else BinSearchIndexAsWritten(a[mid..], (base + mid) as real, 0)
  }

  /** On levels 1, 2, 3, 4 the sample 3.5 lies between the third and the
      fourth level; the search as written answers the first level. */
  lemma AsWrittenMissesUpperHalf()
    ensures BinSearchIndexAsWritten([1.0, 2.0, 3.0, 4.0], 3.5, 0) == 0
    ensures BinSearchIndex([1.0, 2.0, 3.0, 4.0], 3.5, 0) == 2
  {
    var a := [1.0, 2.0, 3.0, 4.0];
    assert a[2..] == [3.0, 4.0];
  }
}
