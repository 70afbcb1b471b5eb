/** `PGMReceiver::InEvent` (src/pgm_receiver.cc): joining a stream of packets in the middle, and
    leaving it again when a packet is missing. Parsers are outside the repository; here they are
    the bytes they are fed, and whether they accept them is given with every packet. */
module PgmReceivers {

  import opened Options
  import opened Words
  import opened WireFormat
  import opened PgmPackets

  /** What one parser instance was created with and has been fed, and from which packets. */
  datatype Feed = Feed(options: nat, bytes: seq<byte>, indexes: seq<nat>)

  /** The one peer that is known: whether it is joined, and the last index recorded, 0 if none. */
  datatype Peer = Peer(tsi: int, joined: bool, lastIndex: uint32)

  /** The receiver, with the feeds of all parsers so far; the last one belongs to a joined peer. */
  datatype State = State(peer: Option<Peer>, feeds: seq<Feed>) {
    predicate Joined() { peer.Some? && peer.value.joined }
  }

  /** The peer before its data is looked at. A new peer replaces the known one, and its first index
      is not recorded. An index that does not follow the recorded one parts from the peer. */
  function Checked(peer: Option<Peer>, tsi: int, index: uint32): Peer {
    if peer.None? || peer.value.tsi != tsi then Peer(tsi, false, 0)
    else
      var last := peer.value.lastIndex;
      Peer(tsi, peer.value.joined && (last == 0 || (last + 1) % TWO32 == index), index)
  }

  /** Feeding the parser of a joined peer. */
  function Fed(feeds: seq<Feed>, p: Packet): seq<Feed>
    requires feeds != [] && p.Ok()
  {
    var last := feeds[|feeds| - 1];
    feeds[|feeds| - 1 := Feed(last.options, last.bytes + p.payload, last.indexes + [p.index])]
  }

  function Parsed(peer: Peer, accepted: bool): Peer {
    if accepted then peer else Peer(peer.tsi, false, 0)
  }

  /** One packet. */
  function Receive(st: State, tsi: int, p: Packet, accepted: bool): (r: State)
    requires p.Sound() && (st.Joined() ==> st.feeds != [])
    ensures r.Joined() ==> r.feeds != []
  {
    var peer := Checked(st.peer, tsi, p.index);
    if peer.joined then
      State(Some(Parsed(peer, accepted)), Fed(st.feeds, p))
    else if p.offset == NO_OFFSET then
      State(Some(peer), st.feeds)
    else
      State(Some(Parsed(peer.(joined := true), accepted)),
            st.feeds + [Feed(p.options, p.payload[p.offset..], [p.index])])
  }

  // ---- What parsers are fed, against the stream of the sender

  /** Bytes of the stream from the start of a batch up to `hi`. */
  ghost predicate Run(stream: seq<byte>, starts: set<nat>, bytes: seq<byte>, from: nat, hi: nat) {
    from in starts && from <= hi <= |stream| && bytes == stream[from..hi]
  }

  ghost predicate RunTo(stream: seq<byte>, starts: set<nat>, bytes: seq<byte>, hi: nat) {
    exists from: nat :: Run(stream, starts, bytes, from, hi)
  }

  ghost predicate SomeRun(stream: seq<byte>, starts: set<nat>, bytes: seq<byte>) {
    exists hi: nat :: RunTo(stream, starts, bytes, hi)
  }

  /** The packets fed follow one another. */
  predicate Gapless(indexes: seq<nat>) {
    forall k :: 0 < k < |indexes| ==> indexes[k - 1] + 1 == indexes[k]
  }

  /** The parser of a joined peer after packet i. */
  ghost predicate FedTo(stream: seq<byte>, starts: set<nat>, packets: seq<Packet>, feed: Feed, i: nat)
    requires i < |packets|
  {
    && RunTo(stream, starts, feed.bytes, Lo(packets, i + 1))
    && feed.indexes != [] && feed.indexes[|feed.indexes| - 1] == i
  }

  /** After packet i every parser since `base` has been fed a contiguous run of the stream that
      starts with a batch, and that of a joined peer is fed up to the end of packet i. */
  ghost predicate Contiguous(stream: seq<byte>, starts: set<nat>, packets: seq<Packet>, st: State, base: nat, i: nat)
    requires i < |packets|
  {
    && base <= |st.feeds|
    && (forall f :: base <= f < |st.feeds| ==> AllContiguous(stream, starts, st.feeds[f]))
    && (st.Joined() ==> base < |st.feeds| && FedTo(stream, starts, packets, st.feeds[|st.feeds| - 1], i))
  }

  ghost predicate AllContiguous(stream: seq<byte>, starts: set<nat>, feed: Feed) {
    SomeRun(stream, starts, feed.bytes) && Gapless(feed.indexes)
  }

  /** The index that is recorded is that of the last packet, unless nothing is recorded. */
  predicate Records(st: State, tsi: int, index: nat) {
    st.peer.Some? && st.peer.value.tsi == tsi && (st.peer.value.lastIndex == 0 || st.peer.value.lastIndex == index)
  }

  /** A joined peer without a recorded index: the branch that does not look for a gap. */
  predicate Unchecked(st: State) { st.Joined() && st.peer.value.lastIndex == 0 }

  /** A packet from further on in the stream keeps the feeds contiguous, unless the gap before it
      falls into the unchecked branch. */
  lemma ReceiveKeepsContiguous(stream: seq<byte>, starts: set<nat>, packets: seq<Packet>, st: State, base: nat,
                               tsi: int, i: nat, j: nat, accepted: bool)
    requires Packed(stream, starts, packets) && i < j < |packets| <= TWO32
    requires Contiguous(stream, starts, packets, st, base, i) && Records(st, tsi, i)
    requires Unchecked(st) ==> j == i + 1
    ensures packets[j].Sound()
    ensures var after := Receive(st, tsi, packets[j], accepted);
      && Contiguous(stream, starts, packets, after, base, j) && Records(after, tsi, j)
      && (after.Joined() ==> after.peer.value.lastIndex == j)
  {
    hide FirstStart, RunTo;
    assert PacketFits(stream, starts, packets, j);
    StartsInside(stream, starts, packets, j);
    var p := packets[j];
    var after := Receive(st, tsi, p, accepted);
    if Checked(st.peer, tsi, p.index).joined {
      assert j == i + 1;
      FedRun(stream, starts, st.feeds[|st.feeds| - 1].bytes, Lo(packets, j), Lo(packets, j + 1));
      assert Gapless(after.feeds[|after.feeds| - 1].indexes);
    }
  }

  /** The data a peer is joined with. */
  lemma StartsInside(stream: seq<byte>, starts: set<nat>, packets: seq<Packet>, i: nat)
    requires Packed(stream, starts, packets) && i < |packets|
    ensures var p := packets[i];
      p.Ok() && (p.offset != NO_OFFSET ==>
        p.offset <= |p.payload| && RunTo(stream, starts, p.payload[p.offset..], Lo(packets, i + 1)))
  {
    assert PacketFits(stream, starts, packets, i);
    var p, lo, hi := packets[i], Lo(packets, i), Lo(packets, i + 1);
    if p.offset != NO_OFFSET {
      assert p.payload[p.offset..] == stream[lo + p.offset..hi];
      assert Run(stream, starts, p.payload[p.offset..], lo + p.offset, hi);
    }
  }

  lemma FedRun(stream: seq<byte>, starts: set<nat>, bytes: seq<byte>, lo: nat, hi: nat)
    requires RunTo(stream, starts, bytes, lo) && lo <= hi <= |stream|
    ensures RunTo(stream, starts, bytes + stream[lo..hi], hi)
  {
    var from: nat :| Run(stream, starts, bytes, from, lo);
    assert stream[from..lo] + stream[lo..hi] == stream[from..hi];
    assert Run(stream, starts, bytes + stream[lo..hi], from, hi);
  }

  /** The first packet of a peer that was not known. */
  lemma FirstIsContiguous(stream: seq<byte>, starts: set<nat>, packets: seq<Packet>, st: State, tsi: int, i: nat,
                          accepted: bool)
    requires Packed(stream, starts, packets) && i < |packets| <= TWO32
    requires (st.peer.None? || st.peer.value.tsi != tsi) && (st.Joined() ==> st.feeds != [])
    ensures packets[i].Sound()
    ensures var after := Receive(st, tsi, packets[i], accepted);
      && Contiguous(stream, starts, packets, after, |st.feeds|, i) && Records(after, tsi, i)
      && after.peer.value.lastIndex == 0 && (after.Joined() <==> Joins(packets[i], accepted))
      && (after.Joined() ==> |after.feeds| == |st.feeds| + 1 && after.feeds[|st.feeds|].indexes == [i])
  {
    hide Run;
    assert PacketFits(stream, starts, packets, i);
    StartsInside(stream, starts, packets, i);
  }

  // ---- Runs of the receiver over what is left of a sender's packets

  /** A packet that arrives: which one, and whether the parser accepts its bytes. */
  datatype Arrival = Arrival(i: nat, accepted: bool)

  /** A first packet that the peer is joined with, and stays joined. */
  predicate Joins(p: Packet, accepted: bool) { p.offset != NO_OFFSET && accepted }

  ghost predicate InOrder(arrivals: seq<Arrival>, count: nat) {
    && (forall k :: 0 <= k < |arrivals| ==> arrivals[k].i < count)
    && (forall k :: 0 < k < |arrivals| ==> arrivals[k - 1].i < arrivals[k].i)
  }

  ghost predicate Offsets(packets: seq<Packet>) {
    forall i :: 0 <= i < |packets| ==> packets[i].Sound()
  }

  lemma PackedOffsets(stream: seq<byte>, starts: set<nat>, packets: seq<Packet>)
    requires Packed(stream, starts, packets)
    ensures Offsets(packets)
  {
    forall i | 0 <= i < |packets| ensures packets[i].Sound() {
      assert PacketFits(stream, starts, packets, i);
    }
  }

  ghost function ReceiveAll(st: State, tsi: int, packets: seq<Packet>, arrivals: seq<Arrival>): (r: State)
    requires Offsets(packets) && InOrder(arrivals, |packets|) && (st.Joined() ==> st.feeds != [])
    ensures r.Joined() ==> r.feeds != []
  {
    if arrivals == [] then st
    else
      var last := arrivals[|arrivals| - 1];
      Receive(ReceiveAll(st, tsi, packets, arrivals[..|arrivals| - 1]), tsi, packets[last.i], last.accepted)
  }

  /** The one gap that is not seen: right after a first packet that is joined. */
  ghost predicate HiddenGap(packets: seq<Packet>, arrivals: seq<Arrival>)
    requires InOrder(arrivals, |packets|)
  {
    |arrivals| >= 2 && Joins(packets[arrivals[0].i], arrivals[0].accepted) && arrivals[1].i != arrivals[0].i + 1
  }

  /** Whatever packets are dropped, and whatever the parsers refuse: unless there is a hidden gap,
      and while indexes have not wrapped, every parser is fed a contiguous run of the sender's
      stream that starts with a batch. */
  lemma {:induction false} FeedsAreContiguous(stream: seq<byte>, starts: set<nat>, packets: seq<Packet>, st: State,
                                              tsi: int, arrivals: seq<Arrival>)
    requires Packed(stream, starts, packets) && |packets| <= TWO32 && Offsets(packets)
    requires (st.peer.None? || st.peer.value.tsi != tsi) && (st.Joined() ==> st.feeds != [])
    requires arrivals != [] && InOrder(arrivals, |packets|) && !HiddenGap(packets, arrivals)
    ensures var after, last := ReceiveAll(st, tsi, packets, arrivals), arrivals[|arrivals| - 1].i;
      && Contiguous(stream, starts, packets, after, |st.feeds|, last)
      && Records(after, tsi, last)
      && (if |arrivals| > 1 then after.Joined() ==> after.peer.value.lastIndex == last
          else after.Joined() <==> Joins(packets[last], arrivals[0].accepted))
    decreases |arrivals|
  {
    hide Packed, Receive, Contiguous, Checked;
    var n := |arrivals|;
    var last := arrivals[n - 1];
    if n == 1 {
      assert arrivals[..0] == [];
      FirstIsContiguous(stream, starts, packets, st, tsi, last.i, last.accepted);
    } else {
      var before := arrivals[..n - 1];
      FeedsAreContiguous(stream, starts, packets, st, tsi, before);
      var middle := ReceiveAll(st, tsi, packets, before);
      assert before[0] == arrivals[0] && before[n - 2] == arrivals[n - 2];
      if n > 2 { assert before[n - 3].i < before[n - 2].i; }
      ReceiveKeepsContiguous(stream, starts, packets, middle, |st.feeds|, tsi, before[n - 2].i, last.i, last.accepted);
    }
  }

  /** Every parser is created with the options of the packets. */
  lemma {:induction false} ParsersHaveOptions(st: State, tsi: int, packets: seq<Packet>,
                                              arrivals: seq<Arrival>, options: nat)
    requires Offsets(packets) && InOrder(arrivals, |packets|) && (st.Joined() ==> st.feeds != [])
    requires Tagged(packets, options)
    ensures var after := ReceiveAll(st, tsi, packets, arrivals);
      && |st.feeds| <= |after.feeds|
      && forall f :: |st.feeds| <= f < |after.feeds| ==> after.feeds[f].options == options
    decreases |arrivals|
  {
    if arrivals != [] {
      ParsersHaveOptions(st, tsi, packets, arrivals[..|arrivals| - 1], options);
    }
  }

  /** A parser that was fed packets stays one that was fed them. */
  lemma FedStaysFed(st: State, tsi: int, p: Packet, accepted: bool, f: nat, fed: seq<nat>)
    requires p.Sound() && (st.Joined() ==> st.feeds != [])
    requires f < |st.feeds| && fed <= st.feeds[f].indexes
    ensures f < |Receive(st, tsi, p, accepted).feeds| && fed <= Receive(st, tsi, p, accepted).feeds[f].indexes
  {
  }

  lemma IndexIs(stream: seq<byte>, starts: set<nat>, packets: seq<Packet>, i: nat)
    requires Packed(stream, starts, packets) && i < |packets| <= TWO32
    ensures packets[i].index == i
  {
    assert PacketFits(stream, starts, packets, i);
  }

  lemma {:induction false} HiddenGapIsFed(stream: seq<byte>, starts: set<nat>, packets: seq<Packet>, st: State,
                                          tsi: int, arrivals: seq<Arrival>)
    requires Packed(stream, starts, packets) && |packets| <= TWO32 && Offsets(packets)
    requires (st.peer.None? || st.peer.value.tsi != tsi) && (st.Joined() ==> st.feeds != [])
    requires InOrder(arrivals, |packets|) && HiddenGap(packets, arrivals)
    ensures var after := ReceiveAll(st, tsi, packets, arrivals);
      |st.feeds| < |after.feeds| && [arrivals[0].i, arrivals[1].i] <= after.feeds[|st.feeds|].indexes
    decreases |arrivals|
  {
    hide Packed, Contiguous, PacketFits;
    PackedOffsets(stream, starts, packets);
    var n := |arrivals|;
    var before, last := arrivals[..n - 1], arrivals[n - 1];
    if n == 2 {
      var first := arrivals[0];
      assert before[..0] == [] && before[0] == first;
      assert ReceiveAll(st, tsi, packets, before) == Receive(st, tsi, packets[first.i], first.accepted);
      FirstIsContiguous(stream, starts, packets, st, tsi, first.i, first.accepted);
      IndexIs(stream, starts, packets, last.i);
    } else {
      HiddenGapIsFed(stream, starts, packets, st, tsi, before);
      FedStaysFed(ReceiveAll(st, tsi, packets, before), tsi, packets[last.i], last.accepted, |st.feeds|,
                  [arrivals[0].i, arrivals[1].i]);
    }
  }

  /** Exactly: parsers are fed packets that follow one another if and only if there is no hidden gap. */
  lemma GaplessExactly(stream: seq<byte>, starts: set<nat>, packets: seq<Packet>, st: State, tsi: int,
                       arrivals: seq<Arrival>)
    requires Packed(stream, starts, packets) && |packets| <= TWO32 && Offsets(packets)
    requires (st.peer.None? || st.peer.value.tsi != tsi) && (st.Joined() ==> st.feeds != [])
    requires arrivals != [] && InOrder(arrivals, |packets|)
    ensures var after := ReceiveAll(st, tsi, packets, arrivals);
      (forall f :: |st.feeds| <= f < |after.feeds| ==> Gapless(after.feeds[f].indexes))
      <==> !HiddenGap(packets, arrivals)
  {
    var after := ReceiveAll(st, tsi, packets, arrivals);
    if HiddenGap(packets, arrivals) {
      HiddenGapIsFed(stream, starts, packets, st, tsi, arrivals);
      var indexes := after.feeds[|st.feeds|].indexes;
      assert indexes[0] == arrivals[0].i && indexes[1] == arrivals[1].i;
      assert !Gapless(indexes);
    } else {
      FeedsAreContiguous(stream, starts, packets, st, tsi, arrivals);
    }
  }

  /** Such gaps exist: packet 0 arrives and is joined, packet 1 is dropped, and the parser is fed
      packet 2 right after packet 0. */
  lemma HiddenGapExample()
    ensures var packets := [Packet(0, 0, 0, [10]), Packet(0, NO_OFFSET, 1, [11]), Packet(0, NO_OFFSET, 2, [12])];
      var one := Receive(State(None, []), 7, packets[0], true);
      && Packed([10, 11, 12], {0}, packets)
      && one.Joined() && one.feeds != []
      && Receive(one, 7, packets[2], true).feeds == [Feed(0, [10, 12], [0, 2])]
  {
    var packets := [Packet(0, 0, 0, [10]), Packet(0, NO_OFFSET, 1, [11]), Packet(0, NO_OFFSET, 2, [12])];
    assert Lo(packets, 1) == 1 && Lo(packets, 2) == 2 && Lo(packets, 3) == 3;
    forall i | 0 <= i < 3 ensures PacketFits([10, 11, 12], {0}, packets, i) {
    }
    var one := Receive(State(None, []), 7, packets[0], true);
    assert one == State(Some(Peer(7, true, 0)), [Feed(0, [10], [0])]);
    assert [10] + packets[2].payload == [10, 12] && [0] + [2] == [0, 2];
    assert Fed(one.feeds, packets[2]) == [Feed(0, [10, 12], [0, 2])];
  }

  // ---- Nothing is left out

  /** The parser of a joined peer is fed the whole next packet, and no other parser is; the peer stays
      joined exactly if the parser accepts it. */
  lemma NextIsFed(stream: seq<byte>, starts: set<nat>, packets: seq<Packet>, st: State, tsi: int, i: nat,
                  accepted: bool)
    requires Packed(stream, starts, packets) && i + 1 < |packets| <= TWO32
    requires st.Joined() && st.feeds != [] && Records(st, tsi, i)
    ensures packets[i + 1].Sound() && Lo(packets, i + 1) <= Lo(packets, i + 2) <= |stream|
    ensures var after, last := Receive(st, tsi, packets[i + 1], accepted), |st.feeds| - 1;
      && |after.feeds| == |st.feeds| && after.feeds[..last] == st.feeds[..last]
      && after.feeds[last].bytes == st.feeds[last].bytes + stream[Lo(packets, i + 1)..Lo(packets, i + 2)]
      && after.feeds[last].indexes == st.feeds[last].indexes + [i + 1]
      && after.feeds[last].options == st.feeds[last].options
      && (after.Joined() <==> accepted)
      && after.peer == Some(if accepted then Peer(tsi, true, i + 1) else Peer(tsi, false, 0))
  {
    assert PacketFits(stream, starts, packets, i + 1);
  }

  /** A peer that is not joined is joined anew by a packet in which a batch starts, from there on,
      unless its new parser refuses; any other packet changes no parser. */
  lemma JoinedAnew(stream: seq<byte>, starts: set<nat>, packets: seq<Packet>, st: State, tsi: int, j: nat,
                   accepted: bool)
    requires Packed(stream, starts, packets) && j < |packets| <= TWO32
    requires !st.Joined() || st.peer.value.tsi != tsi
    requires st.Joined() ==> st.feeds != []
    ensures packets[j].Sound() && Lo(packets, j) <= Lo(packets, j + 1) <= |stream|
    ensures var after, offset := Receive(st, tsi, packets[j], accepted), packets[j].offset;
      && after.peer.Some? && after.peer.value.tsi == tsi
      && (after.Joined() <==> offset != NO_OFFSET && accepted)
      && (offset == NO_OFFSET ==> after.feeds == st.feeds)
      && (offset != NO_OFFSET ==>
           var from := Lo(packets, j) + offset;
           && from in starts && from < Lo(packets, j + 1)
           && after.feeds == st.feeds + [Feed(packets[j].options, stream[from..Lo(packets, j + 1)], [j])])
      && Records(after, tsi, j)
  {
    assert PacketFits(stream, starts, packets, j);
    var p, lo, hi := packets[j], Lo(packets, j), Lo(packets, j + 1);
    if p.offset != NO_OFFSET { assert p.payload[p.offset..] == stream[lo + p.offset..hi]; }
  }

  /** After a gap that is seen the parser is fed no more, and the packet is one to join with. */
  lemma GapParts(stream: seq<byte>, starts: set<nat>, packets: seq<Packet>, st: State, tsi: int, i: nat, j: nat,
                 accepted: bool)
    requires Packed(stream, starts, packets) && i + 1 < j < |packets| <= TWO32
    requires st.Joined() && st.feeds != [] && Records(st, tsi, i) && !Unchecked(st)
    ensures packets[j].Sound()
    ensures Receive(st, tsi, packets[j], accepted)
         == Receive(State(Some(Peer(tsi, false, i)), st.feeds), tsi, packets[j], accepted)
  {
    assert PacketFits(stream, starts, packets, j);
  }

  /** Packets a to b arrive one after the other, and are accepted. */
  ghost function Smoothly(a: nat, b: nat): (arrivals: seq<Arrival>)
    requires a <= b
    ensures |arrivals| == b - a
    ensures forall k :: 0 <= k < b - a ==> arrivals[k] == Arrival(a + k, true)
    ensures InOrder(arrivals, b)
  {
    seq(b - a, k requires 0 <= k < b - a => Arrival(a + k, true))
  }

  function Count(a: nat, b: nat): seq<nat>
    requires a <= b
  {
    seq(b - a, k requires 0 <= k < b - a => a + k)
  }

  /** The first of packets a to b in which a batch starts, or b. */
  function FirstOffset(packets: seq<Packet>, a: nat, b: nat): (j: nat)
    requires a <= b <= |packets|
    ensures a <= j <= b && (j < b ==> packets[j].offset != NO_OFFSET)
    ensures forall i :: a <= i < j ==> packets[i].offset == NO_OFFSET
    decreases b - a
  {
    if a == b || packets[a].offset != NO_OFFSET then a else FirstOffset(packets, a + 1, b)
  }

  /** One more parser than before, fed all from the first batch that starts in packets a to b; or
      none, if no batch does. */
  ghost predicate FedAll(stream: seq<byte>, starts: set<nat>, packets: seq<Packet>, st: State, after: State,
                         a: nat, b: nat)
    requires a <= b <= |packets|
  {
    var j := FirstOffset(packets, a, b);
    if j == b then after.feeds == st.feeds && !after.Joined()
    else
      var from := Lo(packets, j) + packets[j].offset;
      && from in starts && from <= Lo(packets, b) <= |stream| && after.Joined()
      && after.feeds == st.feeds + [Feed(packets[j].options, stream[from..Lo(packets, b)], Count(j, b))]
  }

  lemma FedAllJoins(stream: seq<byte>, starts: set<nat>, packets: seq<Packet>, st: State, before: State, tsi: int,
                    a: nat, b: nat)
    requires Packed(stream, starts, packets) && a <= b < |packets| <= TWO32
    requires FirstOffset(packets, a, b) == b && before.feeds == st.feeds
    requires !before.Joined() || before.peer.value.tsi != tsi
    requires before.Joined() ==> before.feeds != []
    ensures packets[b].Sound()
    ensures var after := Receive(before, tsi, packets[b], true);
      FedAll(stream, starts, packets, st, after, a, b + 1) && Records(after, tsi, b)
  {
    hide Packed, Receive, Lo;
    JoinedAnew(stream, starts, packets, before, tsi, b, true);
    OffsetOfMore(packets, a, b);
    assert Count(b, b + 1) == [b];
  }

  lemma FedAllGoesOn(stream: seq<byte>, starts: set<nat>, packets: seq<Packet>, st: State, before: State, tsi: int,
                     a: nat, b: nat)
    requires Packed(stream, starts, packets) && a < b < |packets| <= TWO32
    requires FedAll(stream, starts, packets, st, before, a, b) && FirstOffset(packets, a, b) < b
    requires Records(before, tsi, b - 1)
    ensures packets[b].Sound()
    ensures var after := Receive(before, tsi, packets[b], true);
      FedAll(stream, starts, packets, st, after, a, b + 1) && Records(after, tsi, b)
  {
    hide Packed, Receive, Lo;
    var j := FirstOffset(packets, a, b);
    OffsetOfMore(packets, a, b);
    NextIsFed(stream, starts, packets, before, tsi, b - 1, true);
    var from := Lo(packets, j) + packets[j].offset;
    var lo, hi := Lo(packets, b), Lo(packets, b + 1);
    assert stream[from..lo] + stream[lo..hi] == stream[from..hi];
    assert Count(j, b) + [b] == Count(j, b + 1);
    var after := Receive(before, tsi, packets[b], true);
    assert before.feeds[..|st.feeds|] == st.feeds;
    assert after.feeds == after.feeds[..|st.feeds|] + [after.feeds[|st.feeds|]];
  }

  /** When nothing is lost or refused, one parser is fed all that was sent, from the first batch that
      starts after the receiver came to the end of the last packet. */
  lemma {:induction false} NothingIsLeftOut(stream: seq<byte>, starts: set<nat>, packets: seq<Packet>, st: State,
                                            tsi: int, a: nat, b: nat)
    requires Packed(stream, starts, packets) && a < b <= |packets| <= TWO32 && Offsets(packets)
    requires (st.peer.None? || st.peer.value.tsi != tsi) && (st.Joined() ==> st.feeds != [])
    ensures var after := ReceiveAll(st, tsi, packets, Smoothly(a, b));
      FedAll(stream, starts, packets, st, after, a, b) && Records(after, tsi, b - 1)
    decreases b
  {
    hide Packed, Receive, FedAll, Offsets;
    var all := Smoothly(a, b);
    assert all[b - a - 1] == Arrival(b - 1, true);
    if a + 1 == b {
      assert all[..0] == [];
      FedAllJoins(stream, starts, packets, st, st, tsi, a, a);
    } else {
      assert all[..b - a - 1] == Smoothly(a, b - 1);
      NothingIsLeftOut(stream, starts, packets, st, tsi, a, b - 1);
      var before := ReceiveAll(st, tsi, packets, Smoothly(a, b - 1));
      if FirstOffset(packets, a, b - 1) == b - 1 {
        NotYet(stream, starts, packets, st, before, a, b - 1);
        FedAllJoins(stream, starts, packets, st, before, tsi, a, b - 1);
      } else {
        FedAllGoesOn(stream, starts, packets, st, before, tsi, a, b - 1);
      }
    }
  }

  lemma WiderOrder(arrivals: seq<Arrival>, count: nat, more: nat)
    requires InOrder(arrivals, count) && count <= more
    ensures InOrder(arrivals, more)
  {
  }

  lemma NotYet(stream: seq<byte>, starts: set<nat>, packets: seq<Packet>, st: State, before: State, a: nat, b: nat)
    requires a <= b <= |packets| && FedAll(stream, starts, packets, st, before, a, b)
    requires FirstOffset(packets, a, b) == b
    ensures before.feeds == st.feeds && !before.Joined()
  {
  }

  lemma {:induction false} OffsetOfMore(packets: seq<Packet>, a: nat, b: nat)
    requires a <= b < |packets|
    ensures var j := FirstOffset(packets, a, b);
      FirstOffset(packets, a, b + 1) == if j < b then j else if packets[b].offset != NO_OFFSET then b else b + 1
    decreases b - a
  {
    if a < b && packets[a].offset == NO_OFFSET { OffsetOfMore(packets, a + 1, b); }
  }

  // ---- The loop over what the socket has

  /** What Receive of the socket answers: no data, a data loss, or a datagram of a peer. */
  datatype Incoming = NoData | Loss | Data(tsi: int, datagram: seq<byte>, accepted: bool)

  /** What the source asserts of a datagram: a whole header, and an offset within the data. */
  ghost predicate Sound(incoming: Incoming) {
    incoming.Data? ==> |incoming.datagram| >= HEADER_SIZE && ReadDatagram(incoming.datagram).Sound()
  }

  /** InEvent on values: datagrams are received until there are none. */
  ghost function InEventResult(st: State, incoming: seq<Incoming>): (r: State)
    requires (forall e :: e in incoming ==> Sound(e)) && (st.Joined() ==> st.feeds != [])
    ensures r.Joined() ==> r.feeds != []
    decreases |incoming|
  {
    if incoming == [] || !incoming[0].Data? then st
    else
      var e := incoming[0];
      assert Sound(e);
      InEventResult(Receive(st, e.tsi, ReadDatagram(e.datagram), e.accepted), incoming[1..])
  }

  lemma {:induction false} InEventPush(st: State, incoming: seq<Incoming>, e: Incoming)
    requires (forall e' :: e' in incoming ==> Sound(e') && e'.Data?) && Sound(e) && e.Data?
    requires st.Joined() ==> st.feeds != []
    ensures forall e' :: e' in incoming + [e] ==> Sound(e')
    ensures InEventResult(st, incoming + [e])
         == Receive(InEventResult(st, incoming), e.tsi, ReadDatagram(e.datagram), e.accepted)
    decreases |incoming|
  {
    if incoming == [] {
      assert ([] + [e])[1..] == [];
    } else {
      var first := incoming[0];
      assert Sound(first) && (incoming + [e])[1..] == incoming[1..] + [e];
      InEventPush(Receive(st, first.tsi, ReadDatagram(first.datagram), first.accepted), incoming[1..], e);
    }
  }

  /** The datagrams that arrive. */
  function Datagrams(tsi: int, packets: seq<Packet>, arrivals: seq<Arrival>): (incoming: seq<Incoming>)
    requires forall k :: 0 <= k < |arrivals| ==> arrivals[k].i < |packets|
    ensures |incoming| == |arrivals|
  {
    seq(|arrivals|, k requires 0 <= k < |arrivals| =>
      Data(tsi, Datagram(packets[arrivals[k].i]), arrivals[k].accepted))
  }

  /** Receiving the sender's datagrams is receiving its packets. */
  lemma {:induction false} DatagramsArePackets(st: State, tsi: int, packets: seq<Packet>, arrivals: seq<Arrival>)
    requires Offsets(packets) && InOrder(arrivals, |packets|) && (st.Joined() ==> st.feeds != [])
    ensures forall e :: e in Datagrams(tsi, packets, arrivals) ==> Sound(e) && e.Data?
    ensures InEventResult(st, Datagrams(tsi, packets, arrivals)) == ReceiveAll(st, tsi, packets, arrivals)
    decreases |arrivals|
  {
    hide Datagram, ReadDatagram, Receive;
    if arrivals != [] {
      var n := |arrivals|;
      var before, last := arrivals[..n - 1], arrivals[n - 1];
      DatagramsArePackets(st, tsi, packets, before);
      DatagramRoundTrip(packets[last.i]);
      var e := Data(tsi, Datagram(packets[last.i]), last.accepted);
      assert Datagrams(tsi, packets, arrivals) == Datagrams(tsi, packets, before) + [e];
      InEventPush(st, Datagrams(tsi, packets, before), e);
    }
  }

  class PGMReceiver {
    var peer: Option<Peer>
    var feeds: seq<Feed>

    ghost function View(): State reads this { State(peer, feeds) }

    ghost predicate Valid() reads this { View().Joined() ==> feeds != [] }

    constructor ()
      ensures Valid() && View() == State(None, [])
    {
      peer, feeds := None, [];
    }

    method InEvent(incoming: seq<Incoming>)
      requires Valid() && forall e :: e in incoming ==> Sound(e)
      modifies this
      ensures Valid() && View() == InEventResult(old(View()), incoming)
    {
      hide ReadDatagram;
      var k := 0;
      assert incoming[0..] == incoming;
      while k < |incoming| && incoming[k].Data?
        invariant k <= |incoming| && Valid()
        invariant InEventResult(old(View()), incoming) == InEventResult(View(), incoming[k..])
      {
        var e := incoming[k];
        assert Sound(e) && incoming[k..][0] == e && incoming[k..][1..] == incoming[k + 1..];
        var p := ReadDatagram(e.datagram);
        // A new peer, or the check for a gap.
        if peer.None? || peer.value.tsi != e.tsi {
          peer := Some(Peer(e.tsi, false, 0));
        } else {
          var known := peer.value;
          if known.lastIndex != 0 && (known.lastIndex + 1) % TWO32 != p.index {
            known := known.(joined := false);
          }
          peer := Some(known.(lastIndex := p.index));
        }
        // Joining, and feeding the parser.
        if peer.value.joined {
          feeds := Fed(feeds, p);
          if !e.accepted { peer := Some(Peer(e.tsi, false, 0)); }
        } else if p.offset != NO_OFFSET {
          peer := Some(peer.value.(joined := true));
          feeds := feeds + [Feed(p.options, p.payload[p.offset..], [p.index])];
          if !e.accepted { peer := Some(Peer(e.tsi, false, 0)); }
        }
        k := k + 1;
      }
    }
  }
}
