/** The sending side before multiplexing (src/assignment_two.py): the sound
    values joined into one bit stream (`to_bit_stream`) and every user's
    stream cut into samples and framed (`create_user_frames`). The compander
    is a parameter `compress` from sample bits to companded bits. */
module Encoder {
  import opened FrameCodec

  datatype Option<T> = None | Some(value: T)

  /** `to_bit_stream`: the bits of all sound values one after the other, or
      nothing at all when there are no values. */
  method ToBitStream(soundFile: seq<Bits>) returns (bitStream: Option<Bits>)
    ensures soundFile == [] <==> bitStream == None
    ensures soundFile != [] ==> bitStream == Some(Concat(soundFile))
  {
    bitStream := None;
    var i := 0;
    while i < |soundFile|
      invariant 0 <= i <= |soundFile|
      invariant i == 0 ==> bitStream == None
      invariant i > 0 ==> bitStream == Some(Concat(soundFile[..i]))
    {
      var soundValue := soundFile[i];
      ConcatSnoc(soundFile[..i], soundValue);
      assert soundFile[..i + 1] == soundFile[..i] + [soundValue];
      if bitStream == None {
        assert soundFile[..i + 1] == [soundValue];
        assert soundValue + [] == soundValue;
        bitStream := Some(soundValue);
      } else {
        bitStream := Some(bitStream.value + soundValue);
      }
      i := i + 1;
    }
    assert soundFile[..i] == soundFile;
  }

  /** The frames of one user's stream when its `n`-th sample is framed with
      pattern index `n mod 10`, the index the receiver checks against: each
      sample of `SampleWidth` bits is companded and gets the framing bit in
      front. */
  function FramesFrom(signal: Bits, compress: Bits -> Bits, n: nat): (fs: seq<Bits>)
    ensures |fs| == |Samples(signal, SampleWidth)|
    ensures forall j :: 0 <= j < |fs| ==> |fs[j]| >= 1
    decreases |signal|
  {
    if signal == [] then []
    else
      var (s, rest) := PickSample(signal, SampleWidth);
      [MakeFrame(compress(s), n % SamplesPerFrame)] + FramesFrom(rest, compress, n + 1)
  }

  /** Frame `j` of `fs` carries sample `j` of `ss`, companded, behind bit
      `(n + j) mod 10` of the pattern, and there is one frame per sample. */
  ghost predicate FramedFrom(fs: seq<Bits>, ss: seq<Bits>, compress: Bits -> Bits, n: nat) {
    && |fs| == |ss|
    && forall j :: 0 <= j < |fs| ==> fs[j] == MakeFrame(compress(ss[j]), (n + j) % SamplesPerFrame)
  }

  /** The frames of a stream framed from index `n` on are its samples,
      framed from index `n` on. */
  lemma {:induction false} FramesFromAt(signal: Bits, compress: Bits -> Bits, n: nat)
    ensures FramedFrom(FramesFrom(signal, compress, n), Samples(signal, SampleWidth), compress, n)
    decreases |signal|
  {
    if signal != [] {
      var (s, rest) := PickSample(signal, SampleWidth);
      FramesFromAt(rest, compress, n + 1);
      FramesShifted(FramesFrom(rest, compress, n + 1), Samples(rest, SampleWidth), s, compress, n);
    }
  }

  /** Putting the frame of sample `s` at index `n` in front of frames made
      from index `n + 1` on gives frames made from index `n` on. */
  lemma FramesShifted(fr: seq<Bits>, sr: seq<Bits>, s: Bits, compress: Bits -> Bits, n: nat)
    requires FramedFrom(fr, sr, compress, n + 1)
    ensures FramedFrom([MakeFrame(compress(s), n % SamplesPerFrame)] + fr, [s] + sr, compress, n)
  {
    var fs, ss := [MakeFrame(compress(s), n % SamplesPerFrame)] + fr, [s] + sr;
    forall j | 0 < j < |fs| ensures fs[j] == MakeFrame(compress(ss[j]), (n + j) % SamplesPerFrame) {
      assert fs[j] == fr[j - 1] && ss[j] == sr[j - 1];
    }
  }

  /** The framing loop for one user: take a sample off the front of the
      stream until it is exhausted, compand it, and frame it with the user's
      own sample count. */
  method FrameUserStream(signal: Bits, compress: Bits -> Bits) returns (frames: seq<Bits>)
    ensures frames == FramesFrom(signal, compress, 0)
    ensures |frames| == |Samples(signal, SampleWidth)|
    ensures forall j :: 0 <= j < |frames| ==>
      frames[j] == MakeFrame(compress(Samples(signal, SampleWidth)[j]), j % SamplesPerFrame)
  {
    frames := [];
    var soundFile := signal;
    var sampleIndex := 0;
    while |soundFile| != 0
      invariant frames + FramesFrom(soundFile, compress, sampleIndex) == FramesFrom(signal, compress, 0)
      decreases |soundFile|
    {
      var picked := PickSample(soundFile, SampleWidth);
      var sample := picked.0;
      ghost var before := soundFile;
      soundFile := picked.1;
      var frame := MakeFrame(compress(sample), sampleIndex % SamplesPerFrame);
      assert FramesFrom(before, compress, sampleIndex) == [frame] + FramesFrom(soundFile, compress, sampleIndex + 1);
      frames := frames + [frame];
      sampleIndex := sampleIndex + 1;
    }
    FramesFromAt(signal, compress, 0);
  }

  /** `create_user_frames`: every user gets a copy of the whole bit stream
      and frames it on its own; a user appears in the table once it has a
      frame, so an empty stream gives an empty table. */
  method CreateUserFrames(userSoundData: seq<Bits>, compress: Bits -> Bits)
    returns (outData: map<nat, seq<Bits>>)
    ensures forall u: nat :: u in outData <==> u < NumUsers && |Concat(userSoundData)| > 0
    ensures forall u: nat :: u in outData ==> outData[u] == FramesFrom(Concat(userSoundData), compress, 0)
  {
    var bitStream := ToBitStream(userSoundData);
    var stream := if bitStream == None then [] else bitStream.value;
    assert stream == Concat(userSoundData);
    outData := map[];
    var i: nat := 0;
    while i < NumUsers
      invariant i <= NumUsers
      invariant forall u: nat :: u in outData <==> u < i && |stream| > 0
      invariant forall u :: u in outData ==> outData[u] == FramesFrom(stream, compress, 0)
    {
      var frames := FrameUserStream(stream, compress);
      if frames != [] {
        outData := outData[i := frames];
      }
      i := i + 1;
    }
  }

  /** The frames of one user as `create_user_frames` builds them: every frame
      carries the framing bit of the user's number `user`, not of the
      sample's position in the user's stream. */
  function FramesAsWritten(signal: Bits, compress: Bits -> Bits, user: nat): (fs: seq<Bits>)
    requires user < NumUsers
    ensures |fs| == |Samples(signal, SampleWidth)|
    ensures forall j :: 0 <= j < |fs| ==> |fs[j]| >= 1 && fs[j][0] == FramingBits[user]
    decreases |signal|
  {
    if signal == [] then []
    else
      var (s, rest) := PickSample(signal, SampleWidth);
      [MakeFrame(compress(s), user)] + FramesAsWritten(rest, compress, user)
  }

  /** Frame `j` of the frames built as written is sample `j`, companded,
      behind the pattern bit of the user's number. */
  lemma {:induction false} FramesAsWrittenAt(signal: Bits, compress: Bits -> Bits, user: nat)
    requires user < NumUsers
    ensures FramedWith(FramesAsWritten(signal, compress, user), Samples(signal, SampleWidth), compress, user)
    decreases |signal|
  {
    if signal != [] {
      var (s, rest) := PickSample(signal, SampleWidth);
      FramesAsWrittenAt(rest, compress, user);
      var fr, sr := FramesAsWritten(rest, compress, user), Samples(rest, SampleWidth);
      var fs, ss := [MakeFrame(compress(s), user)] + fr, [s] + sr;
      forall j | 0 < j < |fs| ensures fs[j] == MakeFrame(compress(ss[j]), user) {
        assert fs[j] == fr[j - 1] && ss[j] == sr[j - 1];
      }
    }
  }

  /** Frame `j` of `fs` carries sample `j` of `ss`, companded, behind pattern
      bit `k`, and there is one frame per sample. */
  ghost predicate FramedWith(fs: seq<Bits>, ss: seq<Bits>, compress: Bits -> Bits, k: nat)
    requires k < |FramingBits|
  {
    && |fs| == |ss|
    && forall j :: 0 <= j < |fs| ==> fs[j] == MakeFrame(compress(ss[j]), k)
  }
}
