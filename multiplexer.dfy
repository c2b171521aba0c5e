/** The multiplexer (create_packets_from_frames in src/assignment_two.py):
    the table of per-user frame queues is drained in rounds; each round
    visits the users in ascending key order, removes a user whose queue is
    empty and otherwise moves the head of its queue into the round's packet. */
module Multiplexer {
  import opened FrameCodec

  /** User key to the frames still queued for that user. */
  type Table = map<nat, seq<Bits>>

  /** Every key is smaller than the keys after it. */
  ghost predicate Increasing(ks: seq<nat>) {
    forall i, j :: 0 <= i < j < |ks| ==> ks[i] < ks[j]
  }

  lemma {:induction false} MinOf(s: set<nat>) returns (m: nat)
    requires s != {}
    ensures m in s && forall x :: x in s ==> m <= x
    decreases |s|
  {
    var x :| x in s;
    if s == {x} {
      m := x;
    } else {
      var m' := MinOf(s - {x});
      m := if x < m' then x else m';
      forall y | y in s ensures m <= y {
        if y != x {
          assert y in s - {x};
        }
      }
    }
  }

  lemma MinExists(s: set<nat>)
    requires s != {}
    ensures exists m :: m in s && forall x :: x in s ==> m <= x
  {
    var m := MinOf(s);
  }

  /** The smallest key of a non-empty set. */
  function SetMin(s: set<nat>): (m: nat)
    requires s != {}
    ensures m in s && forall x :: x in s ==> m <= x
  {
    MinExists(s);
    var m :| m in s && forall x :: x in s ==> m <= x;
    m
  }

  /** Python's `sorted` of the table's keys: each key once, ascending. */
  function SortedKeys(s: set<nat>): (ks: seq<nat>)
    ensures forall k :: k in ks <==> k in s
    ensures |ks| == |s|
    ensures Increasing(ks)
    decreases |s|
  {
    if s == {} then []
    else
      var m := SetMin(s);
      var rest := SortedKeys(s - {m});
      IncreasingCons(m, rest);
      [m] + rest
  }

  /** A key smaller than every key of an increasing sequence can go in
      front of it. */
  lemma IncreasingCons(m: nat, ks: seq<nat>)
    requires Increasing(ks) && forall k :: k in ks ==> m < k
    ensures Increasing([m] + ks)
  {
    forall i, j | 0 <= i < j < |ks| + 1 ensures ([m] + ks)[i] < ([m] + ks)[j] {
      if i > 0 {
        assert ([m] + ks)[i] == ks[i - 1];
      }
      assert ([m] + ks)[j] == ks[j - 1] && ks[j - 1] in ks;
    }
  }

  /** The heads of the non-empty queues among the keys `ks`, in that order:
      the packet one round builds. */
  function Heads(q: Table, ks: seq<nat>): seq<Bits>
    requires forall k :: k in ks ==> k in q
  {
    if ks == [] then []
    else
      var k := ks[|ks| - 1];
      Heads(q, ks[..|ks| - 1]) + if q[k] == [] then [] else [q[k][0]]
  }

  /** The keys among `ks` whose queues are not empty, in that order: whose
      frames one round's packet carries. */
  function Senders(q: Table, ks: seq<nat>): (s: seq<nat>)
    requires forall k :: k in ks ==> k in q
    ensures |s| <= |ks|
  {
    if ks == [] then []
    else
      var k := ks[|ks| - 1];
      Senders(q, ks[..|ks| - 1]) + if q[k] == [] then [] else [k]
  }

  /** A round's packet holds, position by position, the head of the queue of
      the sender at that position. */
  lemma {:induction false} HeadsAreSenders(q: Table, ks: seq<nat>)
    requires forall k :: k in ks ==> k in q
    ensures |Heads(q, ks)| == |Senders(q, ks)|
    ensures forall i :: 0 <= i < |Senders(q, ks)| ==>
      Senders(q, ks)[i] in q && q[Senders(q, ks)[i]] != [] && Heads(q, ks)[i] == q[Senders(q, ks)[i]][0]
  {
    if ks != [] {
      var init := ks[..|ks| - 1];
      assert forall x :: x in init ==> x in ks;
      HeadsAreSenders(q, init);
    }
  }

  /** The senders of a round are exactly the visited users with a frame
      queued. */
  lemma {:induction false} SendersAreNonEmpty(q: Table, ks: seq<nat>)
    requires forall k :: k in ks ==> k in q
    ensures forall k :: k in Senders(q, ks) <==> k in ks && q[k] != []
  {
    if ks != [] {
      var init, k := ks[..|ks| - 1], ks[|ks| - 1];
      assert forall x :: x in init ==> x in ks;
      SendersAreNonEmpty(q, init);
      assert forall x :: x in ks <==> x in init || x == k;
    }
  }

  /** The senders keep the visiting order. */
  lemma {:induction false} SendersIncreasing(q: Table, ks: seq<nat>)
    requires forall k :: k in ks ==> k in q
    requires Increasing(ks)
    ensures Increasing(Senders(q, ks))
  {
    if ks != [] {
      var init, k := ks[..|ks| - 1], ks[|ks| - 1];
      assert forall x :: x in init ==> x in ks;
      assert Increasing(init);
      SendersIncreasing(q, init);
      SendersAreNonEmpty(q, init);
      var s := Senders(q, init);
      forall i | 0 <= i < |s| ensures s[i] < k {
        assert s[i] in s;
        assert s[i] in init;
        var m :| 0 <= m < |init| && init[m] == s[i];
        assert ks[m] == s[i];
      }
    }
  }

  /** In an increasing key sequence no key comes up twice. */
  lemma NotVisitedYet(ks: seq<nat>, j: nat)
    requires Increasing(ks) && j < |ks|
    ensures ks[j] !in ks[..j]
  {
    forall i | 0 <= i < j ensures ks[..j][i] != ks[j] {
      assert ks[..j][i] == ks[i];
    }
  }

  /** A round over users that all have empty queues sends nothing. */
  lemma {:induction false} NoHeads(q: Table, ks: seq<nat>)
    requires forall k :: k in ks ==> k in q && q[k] == []
    ensures Senders(q, ks) == [] && Heads(q, ks) == []
  {
    if ks != [] {
      assert forall x :: x in ks[..|ks| - 1] ==> x in ks;
      NoHeads(q, ks[..|ks| - 1]);
    }
  }

  /** Visiting key `ks[j]` after `ks[..j]` adds its head, if any, to the
      packet. */
  lemma HeadsStep(q: Table, ks: seq<nat>, j: nat)
    requires forall x :: x in ks ==> x in q
    requires j < |ks|
    ensures Heads(q, ks[..j + 1]) == Heads(q, ks[..j]) + if q[ks[j]] == [] then [] else [q[ks[j]][0]]
  {
    assert ks[..j + 1][..j] == ks[..j];
    assert forall x :: x in ks[..j] ==> x in ks;
  }

  /** What a round has left of the queues once it has visited the keys
      `done`: a visited user with an empty queue is gone, a visited user has
      lost the head of its queue, the others are untouched. */
  ghost function AfterVisits(q: Table, done: seq<nat>): Table {
    map k | k in q && !(k in done && q[k] == []) :: if k in done then q[k][1..] else q[k]
  }

  /** Visiting one more key changes only that key's queue. */
  lemma VisitOne(q: Table, done: seq<nat>, k: nat)
    requires k in q && k !in done
    ensures q[k] == [] ==> AfterVisits(q, done + [k]) == AfterVisits(q, done) - {k}
    ensures q[k] != [] ==> AfterVisits(q, done + [k]) == AfterVisits(q, done)[k := q[k][1..]]
  {
    assert forall x :: x in done + [k] <==> x in done || x == k;
  }

  /** The body of the inner loop on the table: a user found with an empty
      queue is deleted, otherwise the head of its queue is popped. Every
      other user keeps its queue. */
  function Visit(q: Table, k: nat): (q': Table)
    ensures forall x :: x != k ==> (x in q' <==> x in q) && (x in q' ==> q'[x] == q[x])
    ensures k in q' <==> k in q && q[k] != []
    ensures k in q' ==> q[k] == [q[k][0]] + q'[k]
  {
    if k !in q then q
    else if q[k] == [] then q - {k}
    else q[k := q[k][1..]]
  }

  /** The table after the inner loop has visited the keys `ks` in order. */
  function VisitAll(q: Table, ks: seq<nat>): Table {
    if ks == [] then q else Visit(VisitAll(q, ks[..|ks| - 1]), ks[|ks| - 1])
  }

  /** Visiting distinct keys one at a time leaves what `AfterVisits`
      describes. */
  lemma {:induction false} VisitAllIsAfterVisits(q: Table, ks: seq<nat>)
    requires forall x :: x in ks ==> x in q
    requires Increasing(ks)
    ensures VisitAll(q, ks) == AfterVisits(q, ks)
  {
    if ks != [] {
      var init, k := ks[..|ks| - 1], ks[|ks| - 1];
      assert ks == init + [k];
      assert forall x :: x in init ==> x in ks;
      VisitAllIsAfterVisits(q, init);
      NotVisitedYet(ks, |ks| - 1);
      VisitOne(q, init, k);
    }
  }

  /** The key the inner loop visits next still has its queue untouched, and
      visiting it is one more step of `VisitAll`. */
  lemma NextUntouched(q: Table, ks: seq<nat>, j: nat)
    requires forall x :: x in ks ==> x in q
    requires Increasing(ks) && j < |ks|
    ensures ks[j] in VisitAll(q, ks[..j]) && VisitAll(q, ks[..j])[ks[j]] == q[ks[j]]
    ensures VisitAll(q, ks[..j + 1]) == Visit(VisitAll(q, ks[..j]), ks[j])
  {
    assert ks[..j + 1][..j] == ks[..j];
    assert forall x :: x in ks[..j] ==> x in ks;
    assert Increasing(ks[..j]);
    VisitAllIsAfterVisits(q, ks[..j]);
    NotVisitedYet(ks, j);
  }

  /** The table after `r` rounds, as a function of the table before the
      first: a user stays for as many rounds as it has frames, and one more
      in which it is found empty and removed. */
  ghost function Drained(q0: Table, r: nat): Table {
    map k | k in q0 && |q0[k]| >= r :: q0[k][r..]
  }

  /** The packet of round `r` (counted from 0): at most one frame per user
      of the table. */
  ghost function PacketAt(q0: Table, r: nat): (p: seq<Bits>)
    ensures |p| <= |q0|
  {
    var d := Drained(q0, r);
    var ks := SortedKeys(d.Keys);
    HeadsAreSenders(d, ks);
    SubsetNoLarger(d.Keys, q0.Keys);
    Heads(d, ks)
  }

  /** The users whose frames the packet of round `r` carries, in order. */
  ghost function PacketSenders(q0: Table, r: nat): seq<nat> {
    var d := Drained(q0, r);
    Senders(d, SortedKeys(d.Keys))
  }

  /** The packets of the first `n` rounds. */
  ghost function Packets(q0: Table, n: nat): seq<seq<Bits>> {
    seq(n, (r: nat) => PacketAt(q0, r))
  }

  /** The length of the longest queue (0 for an empty table). */
  ghost function MaxLen(q: Table): nat
    decreases |q.Keys|
  {
    if q == map[] then 0
    else
      var k := SetMin(q.Keys);
      assert (q - {k}).Keys == q.Keys - {k};
      var m := MaxLen(q - {k});
      if |q[k]| >= m then |q[k]| else m
  }

  /** No queue is longer than `MaxLen`, and some queue is that long. */
  lemma {:induction false} MaxLenIsLongest(q: Table)
    ensures forall k :: k in q ==> |q[k]| <= MaxLen(q)
    ensures q != map[] ==> exists k :: k in q && |q[k]| == MaxLen(q)
    decreases |q.Keys|
  {
    if q != map[] {
      var k := SetMin(q.Keys);
      assert (q - {k}).Keys == q.Keys - {k};
      var m := MaxLen(q - {k});
      assert MaxLen(q) == if |q[k]| >= m then |q[k]| else m;
      MaxLenIsLongest(q - {k});
      assert forall x :: x in q ==> x == k || x in q - {k};
    }
  }

  /** How many rounds the loop runs: none for an empty table, otherwise one
      per frame of the longest queue and a last one that finds every queue
      empty. */
  ghost function Rounds(q0: Table): (n: nat)
    ensures q0 == map[] <==> n == 0
    ensures forall k :: k in q0 ==> |q0[k]| < n
    ensures q0 != map[] ==> exists k :: k in q0 && |q0[k]| == n - 1
  {
    MaxLenIsLongest(q0);
    if q0 == map[] then 0 else MaxLen(q0) + 1
  }

  /** While some user is left after `r` rounds, there is a further round. */
  lemma DrainedNonEmpty(q0: Table, r: nat)
    requires Drained(q0, r) != map[]
    ensures r < Rounds(q0)
  {
    var k :| k in Drained(q0, r);
    MaxLenIsLongest(q0);
  }

  /** Once every user is gone, exactly `Rounds` rounds have run. */
  lemma DrainedEmpty(q0: Table, r: nat)
    requires r <= Rounds(q0) && Drained(q0, r) == map[]
    ensures r == Rounds(q0)
  {
    MaxLenIsLongest(q0);
    if q0 != map[] {
      var k :| k in q0 && |q0[k]| == MaxLen(q0);
      assert k !in Drained(q0, r);
    }
  }

  /** One round turns the table after `r` rounds into the table after
      `r + 1` rounds, and its packet is `PacketAt(q0, r)`. */
  lemma NextRound(q0: Table, r: nat)
    ensures var d := Drained(q0, r);
      AfterVisits(d, SortedKeys(d.Keys)) == Drained(q0, r + 1)
  {
    var d, e := Drained(q0, r), Drained(q0, r + 1);
    var a := AfterVisits(d, SortedKeys(d.Keys));
    forall k | k in a ensures k in e && a[k] == e[k] {
      assert k in SortedKeys(d.Keys);
      assert a[k] == d[k][1..] == q0[k][r..][1..] == q0[k][r + 1..];
    }
    forall k | k in e ensures k in a {
      assert k in SortedKeys(d.Keys);
      assert q0[k][r..] != [];
    }
    SameTable(a, e);
  }

  /** Two tables with the same users and the same queues are the same. */
  lemma SameTable(a: Table, b: Table)
    requires a.Keys == b.Keys && forall k :: k in a ==> a[k] == b[k]
    ensures a == b
  {
  }

  /** One pass of the outer loop over the table after `r` rounds leaves the
      table after `r + 1` rounds and adds the packet of round `r`. */
  lemma RoundStep(q0: Table, r: nat, packet: seq<Bits>, after: Table)
    requires var d := Drained(q0, r);
      packet == Heads(d, SortedKeys(d.Keys)) && after == AfterVisits(d, SortedKeys(d.Keys))
    ensures after == Drained(q0, r + 1)
    ensures Packets(q0, r + 1) == Packets(q0, r) + [packet]
  {
    NextRound(q0, r);
    assert packet == PacketAt(q0, r);
  }

  /** The packet of round `r` carries, in ascending key order and at most
      once each, exactly the users that still had a frame queued for that
      round, and its frame from user `k` is that user's frame number `r`. */
  lemma PacketShape(q0: Table, r: nat)
    ensures Increasing(PacketSenders(q0, r))
    ensures |PacketAt(q0, r)| == |PacketSenders(q0, r)|
    ensures forall k :: k in PacketSenders(q0, r) <==> k in q0 && r < |q0[k]|
    ensures forall i :: 0 <= i < |PacketSenders(q0, r)| ==>
      var k := PacketSenders(q0, r)[i];
      k in q0 && r < |q0[k]| && PacketAt(q0, r)[i] == q0[k][r]
  {
    var d := Drained(q0, r);
    SendersIncreasing(d, SortedKeys(d.Keys));
    PacketFrames(q0, r);
    PacketMembers(q0, r);
  }

  /** Position `i` of packet `r` is frame number `r` of the `i`-th sender. */
  lemma PacketFrames(q0: Table, r: nat)
    ensures |PacketAt(q0, r)| == |PacketSenders(q0, r)|
    ensures forall i :: 0 <= i < |PacketSenders(q0, r)| ==>
      var k := PacketSenders(q0, r)[i];
      k in q0 && r < |q0[k]| && PacketAt(q0, r)[i] == q0[k][r]
  {
    var d := Drained(q0, r);
    HeadsAreSenders(d, SortedKeys(d.Keys));
    var s := PacketSenders(q0, r);
    forall i | 0 <= i < |s| ensures s[i] in q0 && r < |q0[s[i]]| && PacketAt(q0, r)[i] == q0[s[i]][r] {
      assert d[s[i]] == q0[s[i]][r..];
    }
  }

  /** The senders of round `r` are the users with more than `r` frames. */
  lemma PacketMembers(q0: Table, r: nat)
    ensures forall k :: k in PacketSenders(q0, r) <==> k in q0 && r < |q0[k]|
  {
    var d := Drained(q0, r);
    SendersAreNonEmpty(d, SortedKeys(d.Keys));
    var s := PacketSenders(q0, r);
    forall k | k in q0 && r < |q0[k]| ensures k in s {
      assert d[k] == q0[k][r..];
    }
  }

  /** A subset has no more elements than its superset. */
  lemma SubsetNoLarger(a: set<nat>, b: set<nat>)
    requires a <= b
    ensures |a| <= |b|
  {
    assert b == a + (b - a);
  }

  /** The keys a sequence holds. */
  ghost function Elems(ks: seq<nat>): set<nat> {
    set k | k in ks
  }

  /** An increasing key sequence has as many distinct keys as positions. */
  lemma {:induction false} IncreasingDistinct(ks: seq<nat>)
    requires Increasing(ks)
    ensures |Elems(ks)| == |ks|
  {
    if ks != [] {
      var init, last := ks[..|ks| - 1], ks[|ks| - 1];
      assert Increasing(init);
      IncreasingDistinct(init);
      NotVisitedYet(ks, |ks| - 1);
      assert last !in Elems(init);
      assert Elems(ks) == Elems(init) + {last};
    }
  }

  /** A later packet is never longer than an earlier one: the users still
      sending in round `r2` are among those sending in round `r1`. */
  lemma PacketSizeMonotone(q0: Table, r1: nat, r2: nat)
    requires r1 <= r2
    ensures |PacketAt(q0, r2)| <= |PacketAt(q0, r1)|
  {
    var s1, s2 := PacketSenders(q0, r1), PacketSenders(q0, r2);
    assert |PacketAt(q0, r1)| == |s1| && Increasing(s1) && forall k :: k in s1 <==> k in q0 && r1 < |q0[k]| by {
      PacketShape(q0, r1);
    }
    assert |PacketAt(q0, r2)| == |s2| && Increasing(s2) && forall k :: k in s2 <==> k in q0 && r2 < |q0[k]| by {
      PacketShape(q0, r2);
    }
    IncreasingDistinct(s1);
    IncreasingDistinct(s2);
    assert Elems(s2) <= Elems(s1);
    SubsetNoLarger(Elems(s2), Elems(s1));
  }

  /** The packets come out in non-increasing size. */
  lemma PacketsShrink(q0: Table, n: nat)
    ensures forall i, j :: 0 <= i <= j < n ==> |Packets(q0, n)[j]| <= |Packets(q0, n)[i]|
  {
    forall i, j | 0 <= i <= j < n ensures |Packets(q0, n)[j]| <= |Packets(q0, n)[i]| {
      PacketSizeMonotone(q0, i, j);
    }
  }

  /** Every frame of every user is sent: frame `r` of user `k` goes out in
      packet `r`, which is one of the packets the loop builds, and the last
      packet is empty. */
  lemma EveryFrameSent(q0: Table)
    ensures forall k: nat, r: nat :: k in q0 && r < |q0[k]| ==> r < Rounds(q0) - 1 && k in PacketSenders(q0, r)
    ensures q0 != map[] ==> PacketAt(q0, Rounds(q0) - 1) == []
  {
    MaxLenIsLongest(q0);
    forall k: nat, r: nat | k in q0 && r < |q0[k]| ensures k in PacketSenders(q0, r) {
      PacketShape(q0, r);
    }
    if q0 != map[] {
      var last := Rounds(q0) - 1;
      var d := Drained(q0, last);
      forall k | k in d ensures d[k] == [] {
        assert |q0[k]| <= last;
      }
      NoHeads(d, SortedKeys(d.Keys));
    }
  }

  /** When every user has the same number `n` of frames queued, the loop
      runs `n + 1` rounds, the last of which sends nothing. */
  lemma EqualQueuesRounds(q0: Table, n: nat)
    requires q0 != map[]
    requires forall k :: k in q0 ==> |q0[k]| == n
    ensures Rounds(q0) == n + 1
    ensures PacketAt(q0, n) == []
  {
    MaxLenIsLongest(q0);
    EveryFrameSent(q0);
  }

  /** The table of frame queues `create_packets_from_frames` works on; the
      caller's table is drained in place. */
  class FrameTable {
    var queues: Table

    constructor (userFramesTable: Table)
      ensures queues == userFramesTable
    {
      queues := userFramesTable;
    }

    /** One pass of the outer loop: visit the users in ascending key order,
        remove each one whose queue is empty, move the head of every other
        queue into the packet. */
    method BuildRound() returns (packet: seq<Bits>)
      modifies this
      ensures packet == Heads(old(queues), SortedKeys(old(queues).Keys))
      ensures queues == AfterVisits(old(queues), SortedKeys(old(queues).Keys))
    {
      ghost var q := queues;
      var keys := SortedKeys(queues.Keys);
      packet := [];
      var j := 0;
      while j < |keys|
        invariant 0 <= j <= |keys|
        invariant packet == Heads(q, keys[..j])
        invariant queues == VisitAll(q, keys[..j])
      {
        var key := keys[j];
        NextUntouched(q, keys, j);
        HeadsStep(q, keys, j);
        var userFrames := queues[key];
        if |userFrames| == 0 {
          queues := queues - {key};
        } else {
          var frame := userFrames[0];
          queues := queues[key := userFrames[1..]];
          packet := packet + [frame];
        }
        j := j + 1;
      }
      assert keys[..j] == keys;
      VisitAllIsAfterVisits(q, keys);
    }

    /** `create_packets_from_frames`: build packets round after round until
        no user is left. The table ends empty, and the packets are those of
        `Rounds` rounds. */
    method CreatePacketsFromFrames() returns (dataPackets: seq<seq<Bits>>)
      modifies this
      ensures queues == map[]
      ensures dataPackets == Packets(old(queues), Rounds(old(queues)))
    {
      ghost var q0 := queues;
      ghost var r: nat := 0;
      dataPackets := [];
      while |queues| != 0
        invariant r <= Rounds(q0)
        invariant queues == Drained(q0, r)
        invariant dataPackets == Packets(q0, r)
        decreases Rounds(q0) - r
      {
        DrainedNonEmpty(q0, r);
        var packet := BuildRound();
        RoundStep(q0, r, packet, queues);
        dataPackets := dataPackets + [packet];
        r := r + 1;
      }
      DrainedEmpty(q0, r);
    }
  }
}
