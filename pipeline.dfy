/** The link end to end (src/assignment_two.py, `main`): the sound values
    framed per user, multiplexed into packets, the packets put on the link
    frame after frame, and demultiplexed again. */
module Pipeline {
  import opened FrameCodec
  import opened Encoder
  import opened Multiplexer
  import opened Demultiplexer

  /** The packets put on the link one after the other, frame by frame:
      every frame of every packet goes out on the link, and nothing else
      does. */
  function Flatten(ps: seq<seq<Bits>>): (link: seq<Bits>)
    ensures forall r, i :: 0 <= r < |ps| && 0 <= i < |ps[r]| ==> ps[r][i] in link
    ensures forall f :: f in link ==> exists r :: 0 <= r < |ps| && f in ps[r]
  {
    if ps == [] then [] else
      var init, last := ps[..|ps| - 1], ps[|ps| - 1];
      var link := Flatten(init) + last;
      assert forall i :: 0 <= i < |last| ==> link[|Flatten(init)| + i] == last[i];
      assert forall r :: 0 <= r < |init| ==> init[r] == ps[r];
      link
  }

  /** When every packet holds one frame per user, frame `i` of the link is
      the frame of user `i mod 6` in packet `i / 6`. */
  lemma {:induction false} FlattenFullPackets(ps: seq<seq<Bits>>)
    requires forall r :: 0 <= r < |ps| ==> |ps[r]| == NumUsers
    ensures |Flatten(ps)| == NumUsers * |ps|
    ensures forall i :: 0 <= i < |Flatten(ps)| ==> Flatten(ps)[i] == ps[i / NumUsers][i % NumUsers]
  {
    if ps != [] {
      var init, last := ps[..|ps| - 1], ps[|ps| - 1];
      FlattenFullPackets(init);
      var f := Flatten(ps);
      assert f == Flatten(init) + last;
      forall i | 0 <= i < |f| ensures f[i] == ps[i / NumUsers][i % NumUsers] {
        if i >= |Flatten(init)| {
          assert i / NumUsers == |init|;
        } else {
          assert i / NumUsers < |init|;
        }
      }
    }
  }

  /** The frames of user `u` on the link are the frames at positions
      `u`, `u + 6`, `u + 12`, ... */
  lemma {:induction false} UserFramesAt(frames: seq<Bits>, u: nat)
    requires u < NumUsers
    ensures |frames| <= NumUsers * |UserFrames(frames, u)| + u < |frames| + NumUsers
    ensures forall j :: 0 <= j < |UserFrames(frames, u)| ==>
      NumUsers * j + u < |frames| && UserFrames(frames, u)[j] == frames[NumUsers * j + u]
  {
    if frames != [] {
      var n := |frames| - 1;
      UserFramesAt(frames[..n], u);
      var before := UserFrames(frames[..n], u);
      var m := |before|;
      var mine := UserFrames(frames, u);
      SlotStep(n, m, u);
      if n % NumUsers == u {
        assert mine == before + [frames[n]];
      } else {
        assert mine == before;
      }
      forall j | 0 <= j < |mine| ensures NumUsers * j + u < |frames| && mine[j] == frames[NumUsers * j + u] {
        if j < m {
          assert mine[j] == before[j] == frames[..n][NumUsers * j + u];
        }
      }
    }
  }

  /** For a table that gives users 0 to 5 the same `n` frames, the packet of
      every round before the last is that round's frame, once per user. */
  lemma FullPacket(q0: Table, fs: seq<Bits>, r: nat)
    requires forall u: nat :: u in q0 <==> u < NumUsers
    requires forall u :: u in q0 ==> q0[u] == fs
    requires r < |fs|
    ensures |PacketAt(q0, r)| == NumUsers
    ensures forall i :: 0 <= i < NumUsers ==> PacketAt(q0, r)[i] == fs[r]
  {
    var s := PacketSenders(q0, r);
    assert forall k: nat :: k < NumUsers <==> k in s by {
      PacketMembers(q0, r);
      forall k: nat | k < NumUsers ensures k in s {
        assert k in q0 && q0[k] == fs;
      }
    }
    assert Increasing(s) by {
      PacketShape(q0, r);
    }
    IncreasingIsRange(s, NumUsers);
    PacketFrames(q0, r);
    forall i | 0 <= i < NumUsers ensures PacketAt(q0, r)[i] == fs[r] {
      assert s[i] == i && i in q0;
    }
  }

  /** An increasing sequence holding exactly the keys below `m` is
      0, 1, ..., m - 1. */
  lemma IncreasingIsRange(s: seq<nat>, m: nat)
    requires Increasing(s) && m > 0
    requires forall k :: k in s ==> k < m
    requires forall k: nat :: k < m ==> k in s
    ensures |s| == m
    ensures forall i :: 0 <= i < |s| ==> s[i] == i
  {
    forall i | 0 <= i < |s| ensures s[i] == i {
      IndexIsValue(s, m, i);
    }
    assert m - 1 in s;
    var p :| 0 <= p < |s| && s[p] == m - 1;
    assert s[p] == p;
    assert s[|s| - 1] in s;
  }

  lemma {:induction false} IndexIsValue(s: seq<nat>, m: nat, i: nat)
    requires Increasing(s)
    requires forall k :: k in s ==> k < m
    requires forall k: nat :: k < m ==> k in s
    requires i < |s|
    ensures s[i] == i
  {
    if i > 0 {
      IndexIsValue(s, m, i - 1);
    }
    assert s[i] >= i;
    assert s[i] in s;
    assert i in s;
    var p :| 0 <= p < |s| && s[p] == i;
    assert p >= i;
  }

  /** For such a table every round before the last sends one frame per
      user, all of them that round's frame. */
  lemma FullRounds(q0: Table, fs: seq<Bits>)
    requires forall u: nat :: u in q0 <==> u < NumUsers
    requires forall u :: u in q0 ==> q0[u] == fs
    ensures forall r :: 0 <= r < |fs| ==> |Packets(q0, |fs|)[r]| == NumUsers
    ensures forall r, i :: 0 <= r < |fs| && 0 <= i < NumUsers ==> Packets(q0, |fs|)[r][i] == fs[r]
  {
    forall r | 0 <= r < |fs|
      ensures |Packets(q0, |fs|)[r]| == NumUsers
      ensures forall i :: 0 <= i < NumUsers ==> Packets(q0, |fs|)[r][i] == fs[r]
    {
      FullPacket(q0, fs, r);
    }
  }

  /** An empty packet adds nothing to the link. */
  lemma EmptyLastPacket(q0: Table, n: nat)
    requires PacketAt(q0, n) == []
    ensures Flatten(Packets(q0, n + 1)) == Flatten(Packets(q0, n))
  {
    assert Packets(q0, n + 1)[..n] == Packets(q0, n);
    assert Flatten(Packets(q0, n)) + [] == Flatten(Packets(q0, n));
  }

  /** The link carries, user after user and round after round, every frame
      of the table built by `create_user_frames`: frame `i` is frame
      `i / 6` of the shared frame list. */
  lemma {:induction false} LinkFrames(q0: Table, fs: seq<Bits>)
    requires forall u: nat :: u in q0 <==> u < NumUsers
    requires forall u :: u in q0 ==> q0[u] == fs
    ensures Rounds(q0) == |fs| + 1
    ensures |Flatten(Packets(q0, Rounds(q0)))| == NumUsers * |fs|
    ensures forall i :: 0 <= i < NumUsers * |fs| ==> Flatten(Packets(q0, Rounds(q0)))[i] == fs[i / NumUsers]
  {
    assert 0 in q0;
    EqualQueuesRounds(q0, |fs|);
    EmptyLastPacket(q0, |fs|);
    FullRounds(q0, fs);
    FlattenFullPackets(Packets(q0, |fs|));
  }

  /** When the next slot of user `u` is at or after position `n` and within
      one round of it, position `n` is that slot exactly when it belongs to
      user `u`. */
  lemma SlotStep(n: nat, m: nat, u: nat)
    requires u < NumUsers
    requires n <= NumUsers * m + u < n + NumUsers
    ensures n % NumUsers == u <==> NumUsers * m + u == n
  {
  }

  /** Position `6 j + u` of the link lies in round `j`. */
  lemma SlotRound(j: nat, u: nat)
    requires u < NumUsers
    ensures (NumUsers * j + u) / NumUsers == j
  {
  }

  /** A link of `n` full rounds holds `n` frames of every user. */
  lemma SlotCount(n: nat, m: nat, u: nat)
    requires u < NumUsers
    requires NumUsers * n <= NumUsers * m + u < NumUsers * n + NumUsers
    ensures m == n
  {
  }

  /** A link that carries each of one user's frames once per user, round
      after round, gives every user that user's samples. */
  lemma {:induction false} SharedFrames<S>(link: seq<Bits>, fs: seq<Bits>, xs: seq<Bits>, expand: Bits -> S, u: nat)
    requires u < NumUsers && |fs| == |xs|
    requires forall j :: 0 <= j < |fs| ==> fs[j] == MakeFrame(xs[j], j % SamplesPerFrame)
    requires |link| == NumUsers * |fs|
    requires forall i :: 0 <= i < |link| ==> link[i] == fs[i / NumUsers]
    ensures AllFramed(link)
    ensures Received(Decoded(link, expand), u) == Mapped(xs, expand)
    ensures xs != [] ==> u in Decoded(link, expand)
  {
    forall i | 0 <= i < |link| ensures |link[i]| >= 1 {
      assert i / NumUsers < |fs|;
    }
    UserFramesAt(link, u);
    var mine := UserFrames(link, u);
    SlotCount(|fs|, |mine|, u);
    forall j | 0 <= j < |mine| ensures mine[j] == MakeFrame(xs[j], j % SamplesPerFrame) {
      SlotRound(j, u);
    }
    DecodeOwnFrames(mine, xs, expand);
    DecodedPerUser(link, expand, u);
  }

  /** Such a link gives users 0 to 5 all of those samples and nobody else
      anything. */
  lemma {:induction false} AllUsersShare<S>(link: seq<Bits>, fs: seq<Bits>, xs: seq<Bits>, expand: Bits -> S)
    requires |fs| == |xs| > 0
    requires forall j :: 0 <= j < |fs| ==> fs[j] == MakeFrame(xs[j], j % SamplesPerFrame)
    requires |link| == NumUsers * |fs|
    requires forall i :: 0 <= i < |link| ==> link[i] == fs[i / NumUsers]
    ensures AllFramed(link)
    ensures forall u: nat :: u in Decoded(link, expand) <==> u < NumUsers
    ensures forall u: nat :: u < NumUsers ==> Received(Decoded(link, expand), u) == Mapped(xs, expand)
  {
    SharedFrames(link, fs, xs, expand, 0);
    forall u: nat | u < NumUsers
      ensures u in Decoded(link, expand)
      ensures Received(Decoded(link, expand), u) == Mapped(xs, expand)
    {
      SharedFrames(link, fs, xs, expand, u);
    }
  }

  /** What `main` puts on the link: every packet the multiplexer builds from
      the table, frame after frame. */
  ghost function Link(q0: Table): seq<Bits> {
    Flatten(Packets(q0, Rounds(q0)))
  }

  /** The frames of a stream carry its samples, companded, behind pattern
      indices 0, 1, 2, ... */
  lemma OwnFrames(stream: Bits, compress: Bits -> Bits)
    requires |stream| > 0
    ensures var fs := FramesFrom(stream, compress, 0);
      var xs := Mapped(Samples(stream, SampleWidth), compress);
      && |fs| == |xs| > 0
      && forall j :: 0 <= j < |fs| ==> fs[j] == MakeFrame(xs[j], j % SamplesPerFrame)
  {
    var fs, ss := FramesFrom(stream, compress, 0), Samples(stream, SampleWidth);
    var xs := Mapped(ss, compress);
    FramesFromAt(stream, compress, 0);
    assert FramedFrom(fs, ss, compress, 0);
    forall j | 0 <= j < |fs| ensures fs[j] == MakeFrame(xs[j], j % SamplesPerFrame) {
      assert fs[j] == MakeFrame(compress(ss[j]), (0 + j) % SamplesPerFrame);
    }
  }

  /** The whole link for the table `create_user_frames` builds from a
      non-empty stream: every user 0 to 5 receives every sample of the
      stream, companded and expanded again, in order, and no other user
      receives anything. */
  lemma {:induction false} LinkRoundTrip<S>(values: seq<Bits>, q0: Table, compress: Bits -> Bits, expand: Bits -> S)
    requires |Concat(values)| > 0
    requires forall u: nat :: u in q0 <==> u < NumUsers
    requires forall u :: u in q0 ==> q0[u] == FramesFrom(Concat(values), compress, 0)
    ensures AllFramed(Link(q0))
    ensures forall u: nat :: u in Decoded(Link(q0), expand) <==> u < NumUsers
    ensures forall u: nat :: u < NumUsers ==>
      Received(Decoded(Link(q0), expand), u) == Mapped(Mapped(Samples(Concat(values), SampleWidth), compress), expand)
  {
    var stream := Concat(values);
    var fs := FramesFrom(stream, compress, 0);
    OwnFrames(stream, compress);
    LinkFrames(q0, fs);
    AllUsersShare(Link(q0), fs, Mapped(Samples(stream, SampleWidth), compress), expand);
  }

  /** Framed as written (with the user's number as the pattern index), what
      a user receives stops after its fourth sample for users 0 to 3 and 5,
      whose pattern bit is a 1, and is nothing at all for user 4, whose
      bit is a 0; framed with the sample count, the user receives every
      sample. */
  lemma AsWrittenDecoded<S>(signal: Bits, compress: Bits -> Bits, user: nat, expand: Bits -> S)
    requires user < NumUsers
    ensures var xs := Mapped(Samples(signal, SampleWidth), compress);
      var fs := FramesAsWritten(signal, compress, user);
      && AllFramed(fs)
      && (user != 4 ==> DecodeUser(fs, expand) == Mapped(xs[..LeadingOnes(|xs|)], expand))
      && (user == 4 ==> DecodeUser(fs, expand) == [])
    ensures var xs := Mapped(Samples(signal, SampleWidth), compress);
      var fs := FramesFrom(signal, compress, 0);
      AllFramed(fs) && DecodeUser(fs, expand) == Mapped(xs, expand)
  {
    var xs := Mapped(Samples(signal, SampleWidth), compress);
    FramesAsWrittenAt(signal, compress, user);
    PatternBits();
    if user == 4 {
      DecodeZeroBit(FramesAsWritten(signal, compress, user), xs, user, expand);
    } else {
      DecodeOneBit(FramesAsWritten(signal, compress, user), xs, user, expand);
    }
    FramesFromAt(signal, compress, 0);
    DecodeOwnFrames(FramesFrom(signal, compress, 0), xs, expand);
  }
}
