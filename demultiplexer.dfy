/** The receiving side (decode_packets in src/assignment_two.py): frame `i`
    of the link belongs to user `i mod 6`; every user has a cursor counting
    its accepted samples, which selects the framing bit the next frame must
    carry. A frame that fails the check is dropped and leaves the cursor
    where it was. The expander is a parameter `expand` from companded bits to
    a sample. */
module Demultiplexer {
  import opened FrameCodec

  /** The samples received for user `u` so far (none before its first). */
  function Received<S>(rx: map<nat, seq<S>>, u: nat): seq<S> {
    if u in rx then rx[u] else []
  }

  /** Every frame has at least its framing bit. */
  ghost predicate AllFramed(frames: seq<Bits>) {
    forall i :: 0 <= i < |frames| ==> |frames[i]| >= 1
  }

  /** What `decode_packets` has received after the given frames, frame by
      frame: a user's cursor is the number of samples it has received. Only
      users 0 to 5 receive anything, and a user appears once it has received
      a sample. */
  function Decoded<S>(frames: seq<Bits>, expand: Bits -> S): (rx: map<nat, seq<S>>)
    requires AllFramed(frames)
    ensures forall u :: u in rx ==> u < NumUsers && |rx[u]| > 0
  {
    if frames == [] then map[]
    else
      var n := |frames| - 1;
      var rx := Decoded(frames[..n], expand);
      var u := n % NumUsers;
      var got := UnwrapAndCheckFrame(frames[n], |Received(rx, u)| % SamplesPerFrame);
      if got.valid then rx[u := Received(rx, u) + [expand(got.payload)]] else rx
  }

  /** One more frame is one more step of `Decoded`. */
  lemma DecodedSnoc<S>(frames: seq<Bits>, i: nat, expand: Bits -> S)
    requires AllFramed(frames) && i < |frames|
    ensures AllFramed(frames[..i]) && AllFramed(frames[..i + 1])
    ensures var rx := Decoded(frames[..i], expand);
      var u := i % NumUsers;
      var got := UnwrapAndCheckFrame(frames[i], |Received(rx, u)| % SamplesPerFrame);
      Decoded(frames[..i + 1], expand) == if got.valid then rx[u := Received(rx, u) + [expand(got.payload)]] else rx
  {
    assert frames[..i + 1][..i] == frames[..i];
  }

  /** The cursor table of `decode_packets` agrees with what has been
      received: it has an entry for every user that has received a sample,
      and each entry counts that user's samples. */
  ghost predicate CursorsAgree<S>(cursor: map<nat, nat>, rx: map<nat, seq<S>>) {
    && (forall u :: u in rx ==> u in cursor)
    && (forall u :: u in cursor ==> cursor[u] == |Received(rx, u)|)
  }

  /** A new cursor starts at 0 for a user that has received nothing. */
  lemma CursorAdded<S>(cursor: map<nat, nat>, rx: map<nat, seq<S>>, u: nat)
    requires CursorsAgree(cursor, rx) && u !in cursor
    ensures u !in rx && CursorsAgree(cursor[u := 0], rx)
  {
  }

  /** Accepting a sample for a user moves that user's cursor on by one. */
  lemma CursorAdvanced<S>(cursor: map<nat, nat>, rx: map<nat, seq<S>>, u: nat, x: S)
    requires CursorsAgree(cursor, rx) && u in cursor
    ensures CursorsAgree(cursor[u := cursor[u] + 1], rx[u := Received(rx, u) + [x]])
  {
  }

  /** `decode_packets`: the received samples per user, built in one pass
      with a separate cursor table that is created lazily for each user on
      its first frame. */
  method DecodePackets<S>(frames: seq<Bits>, expand: Bits -> S) returns (rxData: map<nat, seq<S>>)
    requires AllFramed(frames)
    ensures rxData == Decoded(frames, expand)
  {
    rxData := map[];
    var userRxSampleIndex: map<nat, nat> := map[];
    for i := 0 to |frames|
      invariant rxData == Decoded(frames[..i], expand)
      invariant CursorsAgree(userRxSampleIndex, rxData)
    {
      DecodedSnoc(frames, i, expand);
      var frame := frames[i];
      var userIndex := i % NumUsers;
      if userIndex !in userRxSampleIndex {
        CursorAdded(userRxSampleIndex, rxData, userIndex);
        userRxSampleIndex := userRxSampleIndex[userIndex := 0];
      }
      var sampleIndexForUser := userRxSampleIndex[userIndex];
      var checked := UnwrapAndCheckFrame(frame, sampleIndexForUser % SamplesPerFrame);
      var expandedSample := expand(checked.payload);
      if !checked.valid {
        continue;
      }
      CursorAdvanced(userRxSampleIndex, rxData, userIndex, expandedSample);
      if userIndex in rxData {
        rxData := rxData[userIndex := rxData[userIndex] + [expandedSample]];
      } else {
        assert [] + [expandedSample] == [expandedSample];
        rxData := rxData[userIndex := [expandedSample]];
      }
      userRxSampleIndex := userRxSampleIndex[userIndex := userRxSampleIndex[userIndex] + 1];
    }
    assert frames[..|frames|] == frames;
  }

  /** The frames at the positions that belong to user `u`, in order. */
  function UserFrames(frames: seq<Bits>, u: nat): (fs: seq<Bits>)
    ensures AllFramed(frames) ==> AllFramed(fs)
  {
    if frames == [] then []
    else
      var n := |frames| - 1;
      UserFrames(frames[..n], u) + if n % NumUsers == u then [frames[n]] else []
  }

  /** One user's receive path on its own frames: the cursor is the number of
      samples accepted so far. */
  function DecodeUser<S>(fs: seq<Bits>, expand: Bits -> S): (out: seq<S>)
    requires AllFramed(fs)
    ensures |out| <= |fs|
  {
    if fs == [] then []
    else
      var n := |fs| - 1;
      var out := DecodeUser(fs[..n], expand);
      var got := UnwrapAndCheckFrame(fs[n], |out| % SamplesPerFrame);
      if got.valid then out + [expand(got.payload)] else out
  }

  /** One more frame of user `u` is one more step of `DecodeUser`. */
  lemma DecodeUserSnoc<S>(fs: seq<Bits>, f: Bits, expand: Bits -> S)
    requires AllFramed(fs) && |f| >= 1
    ensures AllFramed(fs + [f])
    ensures var out := DecodeUser(fs, expand);
      var got := UnwrapAndCheckFrame(f, |out| % SamplesPerFrame);
      DecodeUser(fs + [f], expand) == if got.valid then out + [expand(got.payload)] else out
  {
    assert (fs + [f])[..|fs|] == fs;
  }

  /** Users are told apart by position alone: what user `u` receives is
      what its own frames decode to, whatever the other users' frames
      hold. */
  lemma {:induction false} DecodedPerUser<S>(frames: seq<Bits>, expand: Bits -> S, u: nat)
    requires AllFramed(frames)
    ensures Received(Decoded(frames, expand), u) == DecodeUser(UserFrames(frames, u), expand)
  {
    if frames != [] {
      var n := |frames| - 1;
      var init := frames[..n];
      DecodedPerUser(init, expand, u);
      DecodedSnoc(frames, n, expand);
      assert frames[..n + 1] == frames;
      var mine := UserFrames(init, u);
      if n % NumUsers == u {
        assert UserFrames(frames, u) == mine + [frames[n]];
        DecodeUserSnoc(mine, frames[n], expand);
      } else {
        assert UserFrames(frames, u) == mine;
      }
    }
  }

  /** Each sample put through `f`, position by position: with the
      receiver's expander, the samples a user receives; with the sender's
      compander, the payloads of its frames. */
  function Mapped<S>(xs: seq<Bits>, f: Bits -> S): (ys: seq<S>)
    ensures |ys| == |xs|
    ensures forall j :: 0 <= j < |xs| ==> ys[j] == f(xs[j])
  {
    if xs == [] then [] else Mapped(xs[..|xs| - 1], f) + [f(xs[|xs| - 1])]
  }

  /** A user whose `j`-th frame carries the framing bit for pattern index
      `j mod 10` has every frame accepted and receives every sample, in
      order. */
  lemma {:induction false} DecodeOwnFrames<S>(fs: seq<Bits>, xs: seq<Bits>, expand: Bits -> S)
    requires |fs| == |xs|
    requires forall j :: 0 <= j < |fs| ==> fs[j] == MakeFrame(xs[j], j % SamplesPerFrame)
    ensures AllFramed(fs)
    ensures DecodeUser(fs, expand) == Mapped(xs, expand)
  {
    if fs != [] {
      var n := |fs| - 1;
      DecodeOwnFrames(fs[..n], xs[..n], expand);
      FrameRoundTrip(xs[n], n % SamplesPerFrame);
      assert xs[..n] == xs[..|xs| - 1];
    }
  }

  /** A frame made for pattern index `k` arriving when the cursor selects
      index `j` is accepted exactly when the pattern has the same bit at
      both. */
  lemma CheckedAgainst<S>(fs: seq<Bits>, x: Bits, k: nat, expand: Bits -> S)
    requires AllFramed(fs) && k < |FramingBits|
    ensures AllFramed(fs + [MakeFrame(x, k)])
    ensures var j := |DecodeUser(fs, expand)| % SamplesPerFrame;
      DecodeUser(fs + [MakeFrame(x, k)], expand)
        == if FramingBits[k] == FramingBits[j] then DecodeUser(fs, expand) + [expand(x)] else DecodeUser(fs, expand)
  {
    DecodeUserSnoc(fs, MakeFrame(x, k), expand);
    MisalignedCheck(x, k, |DecodeUser(fs, expand)| % SamplesPerFrame);
  }

  /** A frame whose framing bit differs from the one the cursor selects is
      dropped: nothing is received and the cursor stays where it was. */
  lemma DroppedFrame<S>(fs: seq<Bits>, f: Bits, expand: Bits -> S)
    requires AllFramed(fs) && |f| >= 1
    requires f[0] != FramingBits[|DecodeUser(fs, expand)| % SamplesPerFrame]
    ensures AllFramed(fs + [f])
    ensures DecodeUser(fs + [f], expand) == DecodeUser(fs, expand)
  {
    DecodeUserSnoc(fs, f, expand);
  }

  /** Because a dropped frame does not advance the cursor, one corrupted
      frame puts the check out of step with the sender: when a user's
      fourth frame (pattern index 3) is lost, its intact fifth frame (made
      for index 4, bit 0) is checked against index 3 (bit 1) and dropped
      too. */
  lemma DropShiftsPattern<S>(prev: seq<Bits>, bad: Bits, x: Bits, expand: Bits -> S)
    requires AllFramed(prev) && |DecodeUser(prev, expand)| == 3
    requires |bad| >= 1 && bad[0] != FramingBits[3]
    ensures AllFramed(prev + [bad] + [MakeFrame(x, 4)])
    ensures DecodeUser(prev + [bad] + [MakeFrame(x, 4)], expand) == DecodeUser(prev, expand)
  {
    PatternBits();
    var cursor := |DecodeUser(prev, expand)| % SamplesPerFrame;
    assert cursor == 3;
    DroppedFrame(prev, bad, expand);
    CheckedAgainst(prev + [bad], x, 4, expand);
  }

  /** The number of leading 1s of the pattern: how many frames carrying a 1
      a user accepts before its cursor reaches pattern index 4. */
  function LeadingOnes(n: nat): (m: nat)
    ensures m <= n && m <= 4
    ensures m == n || m == 4
  {
    if n < 4 then n else 4
  }

  /** A user whose frames all carry the framing bit 0 of pattern index
      `k` drops every frame: its cursor starts at index 0, whose bit is a 1,
      and a dropped frame never moves the cursor on. */
  lemma {:induction false} DecodeZeroBit<S>(fs: seq<Bits>, xs: seq<Bits>, k: nat, expand: Bits -> S)
    requires |fs| == |xs| && k < |FramingBits| && !FramingBits[k]
    requires forall j :: 0 <= j < |fs| ==> fs[j] == MakeFrame(xs[j], k)
    ensures AllFramed(fs)
    ensures DecodeUser(fs, expand) == []
  {
    if fs != [] {
      var n := |fs| - 1;
      var init := fs[..n];
      DecodeZeroBit(init, xs[..n], k, expand);
      assert fs == init + [MakeFrame(xs[n], k)];
      CheckedAgainst(init, xs[n], k, expand);
      PatternBits();
    }
  }

  /** A user whose frames all carry the framing bit 1 of pattern index `k`
      accepts its first four frames and drops every later one: pattern
      indices 0 to 3 hold a 1, index 4 holds a 0, and a dropped frame never
      moves the cursor on. */
  lemma {:induction false} DecodeOneBit<S>(fs: seq<Bits>, xs: seq<Bits>, k: nat, expand: Bits -> S)
    requires |fs| == |xs| && k < |FramingBits| && FramingBits[k]
    requires forall j :: 0 <= j < |fs| ==> fs[j] == MakeFrame(xs[j], k)
    ensures AllFramed(fs)
    ensures DecodeUser(fs, expand) == Mapped(xs[..LeadingOnes(|xs|)], expand)
  {
    if fs != [] {
      var n := |fs| - 1;
      var init := fs[..n];
      DecodeOneBit(init, xs[..n], k, expand);
      assert xs[..n][..LeadingOnes(n)] == xs[..LeadingOnes(n)];
      assert fs == init + [MakeFrame(xs[n], k)];
      OneBitStep(init, xs, k, expand);
    }
  }

  /** One more frame carrying a 1 after `n` such frames. */
  lemma OneBitStep<S>(init: seq<Bits>, xs: seq<Bits>, k: nat, expand: Bits -> S)
    requires |init| < |xs| && k < |FramingBits| && FramingBits[k] && AllFramed(init)
    requires DecodeUser(init, expand) == Mapped(xs[..LeadingOnes(|init|)], expand)
    ensures AllFramed(init + [MakeFrame(xs[|init|], k)])
    ensures DecodeUser(init + [MakeFrame(xs[|init|], k)], expand) == Mapped(xs[..LeadingOnes(|init| + 1)], expand)
  {
    var n, m := |init|, LeadingOnes(|init|);
    var out := DecodeUser(init, expand);
    assert |out| % SamplesPerFrame == m by {
      assert |out| == m;
      CursorBeforeWrap(m);
    }
    CheckedAgainst(init, xs[n], k, expand);
    var next := DecodeUser(init + [MakeFrame(xs[n], k)], expand);
    if n < 4 {
      LeadingBitsAreOnes(m);
      assert next == out + [expand(xs[n])];
      assert m == n && LeadingOnes(n + 1) == n + 1;
      MappedSnoc(xs, n, expand);
    } else {
      assert !FramingBits[m] by {
        PatternBits();
      }
      assert next == out;
      assert LeadingOnes(n + 1) == m;
    }
  }

  /** Pattern indices 0 to 3 hold a 1. */
  lemma LeadingBitsAreOnes(i: nat)
    requires i < 4
    ensures FramingBits[i]
  {
    PatternBits();
    assert i == 0 || i == 1 || i == 2 || i == 3;
  }

  /** Before ten samples are received, the cursor is the sample count. */
  lemma CursorBeforeWrap(m: nat)
    requires m < SamplesPerFrame
    ensures m % SamplesPerFrame == m
  {
  }

  /** One more sample is one more mapped sample. */
  lemma MappedSnoc<S>(xs: seq<Bits>, n: nat, f: Bits -> S)
    requires n < |xs|
    ensures Mapped(xs[..n + 1], f) == Mapped(xs[..n], f) + [f(xs[n])]
  {
    assert xs[..n + 1][..n] == xs[..n];
  }
}
