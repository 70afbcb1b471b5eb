/** The packets between PGM sender and receiver: six bytes of header and a stretch of the batch
    stream (src/pgm_sender.cc, src/pgm_receiver.cc). The first two bytes hold the encoding options
    in their three high bits and the offset of the first batch that starts in the payload in the
    others; the next four the index of the packet. */
module PgmPackets {

  import opened HostMemory
  import opened Words
  import opened WireFormat

  const NO_OFFSET := 0x1FFF
  const HEADER_SIZE := 6

  datatype Packet = Packet(options: nat, offset: nat, index: nat, payload: seq<byte>) {
    predicate Ok() { options < 8 && offset <= NO_OFFSET && index < TWO32 }

    /** The offset lies within the data. */
    predicate Sound() { Ok() && (offset == NO_OFFSET || offset <= |payload|) }
  }

  /** A packet as it lies in the output buffer. */
  function Datagram(p: Packet): seq<byte> {
    LittleEndian(p.options * 0x2000 + p.offset, 2) + LittleEndian(p.index, 4) + p.payload
  }

  function ReadDatagram(d: seq<byte>): Packet
    requires |d| >= HEADER_SIZE
  {
    var tvalue := FromLittleEndian(d[..2]);
    Packet(tvalue / 0x2000, tvalue % 0x2000, FromLittleEndian(d[2..6]), d[6..])
  }

  lemma DatagramRoundTrip(p: Packet)
    requires p.Ok()
    ensures |Datagram(p)| == HEADER_SIZE + |p.payload| && ReadDatagram(Datagram(p)) == p
  {
    hide LittleEndian, FromLittleEndian, Beyond;
    var tvalue := p.options * 0x2000 + p.offset;
    var a, b := LittleEndian(tvalue, 2), LittleEndian(p.index, 4);
    HalfFits(tvalue);
    WordsFit(p.index);
    LittleEndianRoundTrip(tvalue, 2);
    LittleEndianRoundTrip(p.index, 4);
    var d := Datagram(p);
    assert d[..2] == a && d[2..6] == b && d[6..] == p.payload;
  }

  /** The header, byte by byte: the low byte of the offset, the options above its five high bits, and
      the index with its low byte first. */
  lemma HeaderBytes(p: Packet)
    requires p.Ok()
    ensures var d := Datagram(p);
      && |d| == HEADER_SIZE + |p.payload| && d[6..] == p.payload
      && d[0] == p.offset % 0x100 && d[1] == 0x20 * p.options + p.offset / 0x100
      && d[2] == p.index % 0x100 && d[3] == p.index / 0x100 % 0x100
      && d[4] == p.index / 0x1_0000 % 0x100 && d[5] == p.index / 0x100_0000
  {
    hide LittleEndian;
    TwoBytes(p.options, p.offset);
    FourBytesOf(p.index);
    assert Datagram(p)[6..] == p.payload;
  }

  lemma TwoBytes(options: nat, offset: nat)
    requires options < 8 && offset <= NO_OFFSET
    ensures var two := LittleEndian(options * 0x2000 + offset, 2);
      two[0] == offset % 0x100 && two[1] == 0x20 * options + offset / 0x100
  {
    hide LittleEndian, Digit256;
    var tvalue := options * 0x2000 + offset;
    Tvalue(options, offset);
    DigitsOf(tvalue);
    LittleEndianAt(tvalue, 2, 0);
    LittleEndianAt(tvalue, 2, 1);
  }

  lemma FourBytesOf(index: uint32)
    ensures var four := LittleEndian(index, 4);
      && four[0] == index % 0x100 && four[1] == index / 0x100 % 0x100
      && four[2] == index / 0x1_0000 % 0x100 && four[3] == index / 0x100_0000
  {
    hide LittleEndian, Digit256;
    DigitsOf(index);
    LittleEndianAt(index, 4, 0);
    LittleEndianAt(index, 4, 1);
    LittleEndianAt(index, 4, 2);
    LittleEndianAt(index, 4, 3);
  }

  lemma Tvalue(options: nat, offset: nat)
    requires options < 8 && offset <= NO_OFFSET
    ensures var tvalue := options * 0x2000 + offset;
      tvalue % 0x100 == offset % 0x100 && tvalue / 0x100 % 0x100 == 0x20 * options + offset / 0x100
  {
    assert options * 0x2000 + offset == 0x100 * (0x20 * options + offset / 0x100) + offset % 0x100;
  }

  lemma HalfFits(n: nat)
    requires n < 0x1_0000
    ensures Beyond(n, 2) == 0
  {
    assert Beyond(n, 2) == Beyond(n / 256, 1) == Beyond(n / 256 / 256, 0);
  }

  // ---- Packets of a stream

  /** Where packet i of a stream begins. */
  function Lo(packets: seq<Packet>, i: nat): nat
    requires i <= |packets|
  {
    if i == 0 then 0 else Lo(packets, i - 1) + |packets[i - 1].payload|
  }

  lemma {:induction false} LoMonotone(packets: seq<Packet>, i: nat, j: nat)
    requires i <= j <= |packets|
    ensures Lo(packets, i) <= Lo(packets, j)
    decreases j
  {
    if i < j { LoMonotone(packets, i, j - 1); }
  }

  lemma {:induction false} LoOfMore(packets: seq<Packet>, p: Packet, i: nat)
    requires i <= |packets|
    ensures Lo(packets + [p], i) == Lo(packets, i)
  {
    if i > 0 { LoOfMore(packets, p, i - 1); }
  }

  /** The index of packet i; indexes are counted in 32 bits. */
  function IndexOf(i: nat): (index: uint32)
    ensures i < TWO32 ==> index == i
  {
    i % TWO32
  }

  lemma NextIndex(i: nat)
    ensures IndexOf(i + 1) == (IndexOf(i) + 1) % TWO32
  {
  }

  /** The offset of the first batch that starts in [lo, hi), or that there is none. */
  ghost predicate FirstStart(starts: set<nat>, lo: nat, hi: nat, offset: nat) {
    if offset == NO_OFFSET then
      forall s :: s in starts ==> !(lo <= s < hi)
    else
      lo + offset in starts && lo + offset < hi && forall s :: s in starts ==> !(lo <= s < lo + offset)
  }

  /** Packet i is the i-th stretch of the stream, with its index, and says where the first batch starts in it. */
  ghost predicate PacketFits(stream: seq<byte>, starts: set<nat>, packets: seq<Packet>, i: nat)
    requires i < |packets|
  {
    && Lo(packets, i + 1) <= |stream|
    && packets[i].payload == stream[Lo(packets, i)..Lo(packets, i + 1)]
    && packets[i].index == IndexOf(i)
    && packets[i].Ok()
    && FirstStart(starts, Lo(packets, i), Lo(packets, i + 1), packets[i].offset)
  }

  /** Packets cut a stream whose batches begin at `starts`. */
  ghost predicate Packed(stream: seq<byte>, starts: set<nat>, packets: seq<Packet>) {
    forall i :: 0 <= i < |packets| ==> PacketFits(stream, starts, packets, i)
  }

  function Payloads(packets: seq<Packet>): seq<byte> {
    if packets == [] then [] else Payloads(packets[..|packets| - 1]) + packets[|packets| - 1].payload
  }

  /** Conservation: the payloads, one after the other, are the front of the stream. */
  lemma {:induction false} PayloadsAreTheStream(stream: seq<byte>, starts: set<nat>, packets: seq<Packet>, n: nat)
    requires Packed(stream, starts, packets) && n <= |packets|
    ensures Lo(packets, n) <= |stream| && Payloads(packets[..n]) == stream[..Lo(packets, n)]
  {
    if n > 0 {
      PayloadsAreTheStream(stream, starts, packets, n - 1);
      assert PacketFits(stream, starts, packets, n - 1);
      assert packets[..n][..n - 1] == packets[..n - 1];
      assert stream[..Lo(packets, n)] == stream[..Lo(packets, n - 1)] + stream[Lo(packets, n - 1)..Lo(packets, n)];
    }
  }

  /** More stream, with batches that start in it, does not unfit the packets before. */
  lemma PackedGrows(stream: seq<byte>, starts: set<nat>, packets: seq<Packet>, batch: seq<byte>)
    requires Packed(stream, starts, packets)
    ensures Packed(stream + batch, starts + {|stream|}, packets)
  {
    forall i | 0 <= i < |packets| ensures PacketFits(stream + batch, starts + {|stream|}, packets, i) {
      assert PacketFits(stream, starts, packets, i);
      var hi := Lo(packets, i + 1);
      assert (stream + batch)[Lo(packets, i)..hi] == stream[Lo(packets, i)..hi];
    }
  }

  lemma FitsWithMore(stream: seq<byte>, starts: set<nat>, packets: seq<Packet>, p: Packet, i: nat)
    requires i < |packets| && PacketFits(stream, starts, packets, i)
    ensures PacketFits(stream, starts, packets + [p], i)
  {
    hide FirstStart, IndexOf;
    LoOfMore(packets, p, i);
    LoOfMore(packets, p, i + 1);
  }

  lemma LoOfLast(packets: seq<Packet>, p: Packet)
    ensures Lo(packets + [p], |packets|) == Lo(packets, |packets|)
    ensures Lo(packets + [p], |packets| + 1) == Lo(packets, |packets|) + |p.payload|
  {
    LoOfMore(packets, p, |packets|);
  }

  lemma LastFits(stream: seq<byte>, starts: set<nat>, packets: seq<Packet>, p: Packet)
    requires p.Ok() && p.index == IndexOf(|packets|)
    requires var lo := Lo(packets, |packets|);
      && lo + |p.payload| <= |stream| && p.payload == stream[lo..lo + |p.payload|]
      && FirstStart(starts, lo, lo + |p.payload|, p.offset)
    ensures PacketFits(stream, starts, packets + [p], |packets|)
  {
    hide FirstStart, IndexOf, Lo;
    var all, n := packets + [p], |packets|;
    LoOfLast(packets, p);
    assert all[n] == p;
    assert all[n].payload == stream[Lo(all, n)..Lo(all, n + 1)];
  }

  lemma PackedPush(stream: seq<byte>, starts: set<nat>, packets: seq<Packet>, p: Packet)
    requires Packed(stream, starts, packets) && p.Ok() && p.index == IndexOf(|packets|)
    requires var lo := Lo(packets, |packets|);
      && lo + |p.payload| <= |stream| && p.payload == stream[lo..lo + |p.payload|]
      && FirstStart(starts, lo, lo + |p.payload|, p.offset)
    ensures Packed(stream, starts, packets + [p])
    ensures Lo(packets + [p], |packets| + 1) == Lo(packets, |packets|) + |p.payload|
  {
    hide FirstStart, PacketFits, Lo, IndexOf;
    LoOfLast(packets, p);
    LastFits(stream, starts, packets, p);
    forall i | 0 <= i < |packets| ensures PacketFits(stream, starts, packets + [p], i) {
      FitsWithMore(stream, starts, packets, p, i);
    }
  }

  /** All packets carry the same encoding options. */
  ghost predicate Tagged(packets: seq<Packet>, options: nat) {
    forall i :: 0 <= i < |packets| ==> packets[i].options == options
  }

  lemma TaggedPush(packets: seq<Packet>, p: Packet)
    requires Tagged(packets, p.options)
    ensures Tagged(packets + [p], p.options)
  {
  }
}
