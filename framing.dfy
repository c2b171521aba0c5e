/** Samples and frames of the TDM link (src/assignment_two.py): the bit
    streams, the framing pattern, and the three slicing helpers
    `pick_sample`, `make_frame` and `unwrap_and_check_frame`. */
module FrameCodec {

  /** A bit stream, a sample or a frame. */
  type Bits = seq<bool>

  /** The cyclic synchronization pattern 1111010000: frame `k` of a user
      carries bit `k mod 10` of it ahead of its sample. */
  const FramingBits: Bits := [true, true, true, true, false, true, false, false, false, false]

  /** Samples per user between two repetitions of the pattern. */
  const SamplesPerFrame: nat := 10

  /** Users sharing the link. */
  const NumUsers: nat := 6

  /** Bits per sample taken off a stream (the default of `pick_sample`). */
  const SampleWidth: nat := 8

  /** The bits of the pattern one by one. */
  lemma PatternBits()
    ensures FramingBits[0] && FramingBits[1] && FramingBits[2] && FramingBits[3]
    ensures !FramingBits[4] && FramingBits[5]
    ensures !FramingBits[6] && !FramingBits[7] && !FramingBits[8] && !FramingBits[9]
  {
  }

  /** The pattern index a decoder derives from a user's sample count is
      always a valid index into the pattern. */
  lemma PatternIndexInBounds(cursor: nat)
    ensures 0 <= cursor % SamplesPerFrame < |FramingBits|
  {
  }

  /** `pick_sample`: the first `width` bits of the stream (all of it when it
      is shorter) and the rest. The two parts put back together give the
      stream. */
  function PickSample(signal: Bits, width: nat): (r: (Bits, Bits))
    ensures r.0 + r.1 == signal
    ensures |r.0| == if width <= |signal| then width else |signal|
  {
    var w := if width <= |signal| then width else |signal|;
    (signal[..w], signal[w..])
  }

  /** The samples of a stream, taken off its front `width` bits at a time
      until it is exhausted: every sample is `width` bits long except the
      last, which may be shorter but is never empty. */
  function Samples(signal: Bits, width: nat): (ss: seq<Bits>)
    requires width > 0
    ensures signal == [] <==> ss == []
    ensures forall i :: 0 <= i < |ss| ==> 0 < |ss[i]| <= width
    ensures forall i :: 0 <= i < |ss| - 1 ==> |ss[i]| == width
    decreases |signal|
  {
    if signal == [] then []
    else
      var (s, rest) := PickSample(signal, width);
      [s] + Samples(rest, width)
  }

  /** The bit streams `bs` put one after the other: nothing is left only
      when every stream is empty. */
  function Concat(bs: seq<Bits>): (c: Bits)
    ensures c == [] <==> forall i :: 0 <= i < |bs| ==> bs[i] == []
  {
    if bs == [] then [] else
      var rest := Concat(bs[1..]);
      assert forall i :: 1 <= i < |bs| ==> bs[i] == bs[1..][i - 1];
      bs[0] + rest
  }

  lemma {:induction false} ConcatSnoc(bs: seq<Bits>, b: Bits)
    ensures Concat(bs + [b]) == Concat(bs) + b
  {
    if bs == [] {
      assert [b][1..] == [];
    } else {
      assert (bs + [b])[1..] == bs[1..] + [b];
      ConcatSnoc(bs[1..], b);
    }
  }

  /** Splitting the stream back into samples undoes the concatenation, and
      putting the samples together again gives the stream. */
  lemma {:induction false} SamplesOfConcat(bs: seq<Bits>, width: nat)
    requires width > 0
    requires forall i :: 0 <= i < |bs| ==> |bs[i]| == width
    ensures Samples(Concat(bs), width) == bs
  {
    if bs != [] {
      var c := Concat(bs);
      assert c == bs[0] + Concat(bs[1..]);
      assert c[..width] == bs[0];
      assert c[width..] == Concat(bs[1..]);
      SamplesOfConcat(bs[1..], width);
    }
  }

  lemma {:induction false} ConcatOfSamples(signal: Bits, width: nat)
    requires width > 0
    ensures Concat(Samples(signal, width)) == signal
    decreases |signal|
  {
    if signal != [] {
      var (s, rest) := PickSample(signal, width);
      ConcatOfSamples(rest, width);
      assert ([s] + Samples(rest, width))[1..] == Samples(rest, width);
    }
  }

  /** `make_frame`: the sample with the framing bit for pattern index `k` put
      at the beginning. The pattern is indexed, so `k` must lie inside it. */
  function MakeFrame(sample: Bits, k: nat): (f: Bits)
    requires k < |FramingBits|
    ensures |f| == 1 + |sample|
  {
    [FramingBits[k]] + sample
  }

  /** What `unwrap_and_check_frame` reports: whether the framing bit matched
      and the sample that followed it. */
  datatype Unwrapped = Unwrapped(valid: bool, payload: Bits)

  /** `unwrap_and_check_frame`: the frame's first bit checked against pattern
      index `k`, and the rest of the frame as the sample, whether or not the
      bit matched. The first bit is read, so the frame must not be empty. */
  function UnwrapAndCheckFrame(frame: Bits, k: nat): (u: Unwrapped)
    requires |frame| >= 1 && k < |FramingBits|
    ensures |u.payload| == |frame| - 1
    ensures [frame[0]] + u.payload == frame
  {
    Unwrapped(frame[0] == FramingBits[k], frame[1..])
  }

  /** A frame made for pattern index `k` and checked at `k` is valid and
      gives back its sample. */
  lemma FrameRoundTrip(sample: Bits, k: nat)
    requires k < |FramingBits|
    ensures UnwrapAndCheckFrame(MakeFrame(sample, k), k) == Unwrapped(true, sample)
  {
  }

  /** Every frame that passes the check at `k` is the frame made at `k` from
      its payload, and a failing frame is one whose first bit differs from
      the pattern. */
  lemma UnwrapValidIff(frame: Bits, k: nat)
    requires |frame| >= 1 && k < |FramingBits|
    ensures UnwrapAndCheckFrame(frame, k).valid <==> frame == MakeFrame(UnwrapAndCheckFrame(frame, k).payload, k)
    ensures UnwrapAndCheckFrame(frame, k).valid <==> frame[0] == FramingBits[k]
  {
    var u := UnwrapAndCheckFrame(frame, k);
    if frame == MakeFrame(u.payload, k) {
      assert frame[0] == MakeFrame(u.payload, k)[0];
    }
    if u.valid {
      assert frame == [frame[0]] + frame[1..];
    }
  }

  /** A frame made at index `k` and checked at another index `j` passes
      exactly when the pattern carries the same bit at both. */
  lemma MisalignedCheck(sample: Bits, k: nat, j: nat)
    requires k < |FramingBits| && j < |FramingBits|
    ensures UnwrapAndCheckFrame(MakeFrame(sample, k), j).valid <==> FramingBits[k] == FramingBits[j]
    ensures UnwrapAndCheckFrame(MakeFrame(sample, k), j).payload == sample
  {
  }
}
