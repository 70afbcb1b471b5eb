/** The encoder (src/szBinary_encoder.hpp): messages in host order are put into network order in
    the wait buffer, and closed with a checksum; flush hands the buffer out and takes the other. */
module SzBinaryEncoder {

  import opened Words
  import opened WireFormat
  import opened SzBinaryFrames

  datatype MsgType = LOGON | LOGOUT | HEARTBEAT | OTHERS

  /** The packed structure the wait buffer is read as. */
  function StructSize(kind: MsgType): nat {
    match kind
    case LOGON => 100
    case LOGOUT => 212
    case HEARTBEAT => 8
    case OTHERS => 0
  }

  /** A 32-bit field is read in host order and put back in network order. */
  function Swapped(w: seq<byte>, at: nat): (r: seq<byte>)
    requires at + 4 <= |w|
    ensures |r| == |w|
  {
    w[..at] + PutUint32(HostUint32(w[at..at + 4])) + w[at + 4..]
  }

  /** MsgType and BodyLength, and of a logon HeartBtInt, of a logout SessionStatus. */
  function Ordered(kind: MsgType, w: seq<byte>): (r: seq<byte>)
    requires StructSize(kind) <= |w|
    ensures |r| == |w|
  {
    match kind
    case LOGON => Swapped(Swapped(Swapped(w, 0), 4), 48)
    case LOGOUT => Swapped(Swapped(Swapped(w, 0), 4), 8)
    case HEARTBEAT => Swapped(Swapped(w, 0), 4)
    case OTHERS => w
  }

  /** The wait buffer after encode: what is patched and summed starts at its first byte, wherever
      the message was appended. */
  function EncodeInto(w: seq<byte>, kind: MsgType, content: seq<byte>): seq<byte>
    requires StructSize(kind) <= |w + content|
  {
    if kind == OTHERS then w + content
    else
      var p := Ordered(kind, w + content);
      p + PutUint32(ByteSum(p[..|content|]) % 256)
  }

  function Frame(kind: MsgType, content: seq<byte>): seq<byte>
    requires StructSize(kind) <= |content|
  {
    assert [] + content == content;
    EncodeInto([], kind, content)
  }

  /** A message as the source builds it: its body length is its size without the head. */
  predicate WellFormed(kind: MsgType, content: seq<byte>) {
    && kind != OTHERS && StructSize(kind) <= |content| && |content| + TAIL_SIZE < 0x8000_0000
    && HostUint32(content[4..8]) == |content| - HEAD_SIZE
  }

  lemma SwappedAt(w: seq<byte>, at: nat, lo: nat, hi: nat)
    requires at + 4 <= |w| && lo <= hi <= |w|
    ensures hi <= at || at + 4 <= lo ==> Swapped(w, at)[lo..hi] == w[lo..hi]
    ensures lo == at && hi == at + 4 ==> GetUint32(Swapped(w, at)[lo..hi]) == HostUint32(w[lo..hi])
  {
    hide HostUint32, PutUint32, GetUint32;
    var v := HostUint32(w[at..at + 4]);
    if hi <= at || at + 4 <= lo {
      assert Swapped(w, at)[lo..hi] == w[lo..hi];
    }
    if lo == at && hi == at + 4 {
      assert Swapped(w, at)[lo..hi] == PutUint32(v);
      NetworkOrderRoundTrip(v);
    }
  }

  /** The head in network order. */
  lemma HeadOrdered(kind: MsgType, w: seq<byte>)
    requires kind != OTHERS && StructSize(kind) <= |w|
    ensures GetUint32(Ordered(kind, w)[0..4]) == HostUint32(w[0..4])
    ensures GetUint32(Ordered(kind, w)[4..8]) == HostUint32(w[4..8])
  {
    hide HostUint32, GetUint32, Swapped;
    var a := Swapped(w, 0);
    var b := Swapped(a, 4);
    SwappedAt(w, 0, 0, 4); SwappedAt(w, 0, 4, 8);
    SwappedAt(a, 4, 0, 4); SwappedAt(a, 4, 4, 8);
    match kind
    case LOGON => SwappedAt(b, 48, 0, 4); SwappedAt(b, 48, 4, 8);
    case LOGOUT => SwappedAt(b, 8, 0, 4); SwappedAt(b, 8, 4, 8);
    case HEARTBEAT =>
  }

  /** The numbers behind the head in network order, and every other byte as it was. */
  ghost predicate BodyOrdered(kind: MsgType, before: seq<byte>, after: seq<byte>)
    requires StructSize(kind) <= |before| <= |after|
  {
    match kind
    case LOGON =>
      && after[8..48] == before[8..48] && GetUint32(after[48..52]) == HostUint32(before[48..52])
      && after[52..|before|] == before[52..|before|]
    case LOGOUT => GetUint32(after[8..12]) == HostUint32(before[8..12]) && after[12..|before|] == before[12..|before|]
    case HEARTBEAT => after[8..|before|] == before[8..|before|]
    case OTHERS => after[..|before|] == before
  }

  lemma OrderedBody(kind: MsgType, w: seq<byte>)
    requires kind != OTHERS && StructSize(kind) <= |w|
    ensures BodyOrdered(kind, w, Ordered(kind, w))
  {
    hide HostUint32, GetUint32, Swapped;
    var a := Swapped(w, 0);
    var b := Swapped(a, 4);
    match kind
    case LOGON =>
      SwappedAt(w, 0, 8, 48); SwappedAt(a, 4, 8, 48); SwappedAt(b, 48, 8, 48);
      SwappedAt(w, 0, 48, 52); SwappedAt(a, 4, 48, 52); SwappedAt(b, 48, 48, 52);
      SwappedAt(w, 0, 52, |w|); SwappedAt(a, 4, 52, |w|); SwappedAt(b, 48, 52, |w|);
    case LOGOUT =>
      SwappedAt(w, 0, 8, 12); SwappedAt(a, 4, 8, 12); SwappedAt(b, 8, 8, 12);
      SwappedAt(w, 0, 12, |w|); SwappedAt(a, 4, 12, |w|); SwappedAt(b, 8, 12, |w|);
    case HEARTBEAT =>
      SwappedAt(w, 0, 8, |w|); SwappedAt(a, 4, 8, |w|);
  }

  /** A frame is cut as one frame, its numbers are in network order, and all else is as it was. */
  lemma FrameIsCut(kind: MsgType, content: seq<byte>)
    requires WellFormed(kind, content)
    ensures Cut(Frame(kind, content)) == Cutting([Frame(kind, content)], [])
    ensures var frame := Frame(kind, content);
      && |frame| == |content| + TAIL_SIZE
      && GetUint32(frame[0..4]) == HostUint32(content[0..4])
      && GetUint32(frame[4..8]) == HostUint32(content[4..8]) == |content| - HEAD_SIZE
      && GetUint32(frame[|content|..]) == (ByteSum(frame[..HEAD_SIZE]) + ByteSum(frame[HEAD_SIZE..|content|])) % 256
      && BodyOrdered(kind, content, frame)
  {
    hide HostUint32, GetUint32, PutUint32, Ordered, ByteSum, Cut, BodyOrdered;
    var p, frame := Ordered(kind, content), Frame(kind, content);
    assert [] + content == content;
    assert p[..|content|] == p;
    var checksum := ByteSum(p) % 256;
    HeadOrdered(kind, content);
    OrderedBody(kind, content);
    NetworkOrderRoundTrip(checksum);
    assert frame == p + PutUint32(checksum);
    assert frame[0..4] == p[0..4] && frame[4..8] == p[4..8];
    BodyStays(kind, content, p, PutUint32(checksum));
    assert frame[|frame| - 4..] == PutUint32(checksum) && frame[..|frame| - 4] == p;
    assert FrameSize(frame) == |frame| && ChecksumOk(frame);
    assert p == frame[..HEAD_SIZE] + frame[HEAD_SIZE..|content|] && frame[|content|..] == PutUint32(checksum);
    SumOfTwo(frame[..HEAD_SIZE], frame[HEAD_SIZE..|content|]);
    CutWhole(frame);
  }

  lemma BodyStays(kind: MsgType, before: seq<byte>, after: seq<byte>, tail: seq<byte>)
    requires StructSize(kind) <= |before| == |after| && BodyOrdered(kind, before, after)
    ensures BodyOrdered(kind, before, after + tail)
  {
    hide HostUint32, GetUint32;
    var longer, n := after + tail, |before|;
    match kind
    case LOGON =>
      assert longer[8..48] == after[8..48] && longer[48..52] == after[48..52] && longer[52..n] == after[52..n];
    case LOGOUT => assert longer[8..12] == after[8..12] && longer[12..n] == after[12..n];
    case HEARTBEAT => assert longer[8..n] == after[8..n];
    case OTHERS => assert longer[..n] == after[..n];
  }

  lemma CutWhole(frame: seq<byte>)
    requires |frame| >= HEAD_SIZE + TAIL_SIZE && FrameSize(frame) == |frame| < 0x8000_0000 && ChecksumOk(frame)
    ensures Cut(frame) == Cutting([frame], [])
  {
    hide ChecksumOk, GetUint32;
    assert frame[..|frame|] == frame && frame[|frame|..] == [];
    PendingIsRest([]);
    assert [frame] + [] == [frame];
  }

  datatype Message = Message(kind: MsgType, content: seq<byte>)

  ghost predicate AllWellFormed(messages: seq<Message>) {
    forall m :: m in messages ==> WellFormed(m.kind, m.content)
  }

  /** What encode-then-flush hands out, message by message. */
  ghost function Frames(messages: seq<Message>): (frames: seq<seq<byte>>)
    requires AllWellFormed(messages)
  {
    if messages == [] then []
    else [Frame(messages[0].kind, messages[0].content)] + Frames(messages[1..])
  }

  /** Round trip: the output, fed to a decoder in any chunks, comes out as exactly the frames. */
  lemma {:induction false} FramesRoundTrip(messages: seq<Message>)
    requires AllWellFormed(messages)
    ensures Cut(Concat(Frames(messages))) == Cutting(Frames(messages), [])
  {
    if messages == [] {
      PendingIsRest([]);
    } else {
      hide Frame, Cut;
      var frame := Frame(messages[0].kind, messages[0].content);
      FrameIsCut(messages[0].kind, messages[0].content);
      FramesRoundTrip(messages[1..]);
      CutAppend(frame, Concat(Frames(messages[1..])));
      assert Frames(messages)[1..] == Frames(messages[1..]);
      assert [] + Concat(Frames(messages[1..])) == Concat(Frames(messages[1..]));
    }
  }

  lemma AnyChunking(messages: seq<Message>, chunks: seq<seq<byte>>)
    requires AllWellFormed(messages) && Concat(chunks) == Concat(Frames(messages))
    ensures FeedAll([], chunks) == Cutting(Frames(messages), [])
  {
    ChunkIndependence([], chunks);
    assert [] + Concat(chunks) == Concat(chunks);
    FramesRoundTrip(messages);
  }

  lemma PutOfBytes(a: byte, b: byte, c: byte, d: byte)
    ensures PutUint32(FromBytes(a, b, c, d)) == [a, b, c, d]
  {
    var n := FromBytes(a, b, c, d);
    assert n / 0x100 == a * 0x1_0000 + b * 0x100 + c && n % 256 == d;
    assert n / 0x1_0000 == n / 0x100 / 0x100 == a * 0x100 + b && n / 0x100 % 256 == c;
    assert n / 0x100_0000 == n / 0x1_0000 / 0x100 == a && n / 0x1_0000 % 256 == b;
  }

  lemma SwappedBytes(w: seq<byte>, at: nat)
    requires at + 4 <= |w|
    ensures Swapped(w, at) == w[..at] + [w[at + 3], w[at + 2], w[at + 1], w[at]] + w[at + 4..]
  {
    hide PutUint32, FromBytes;
    var b := w[at..at + 4];
    PutOfBytes(b[3], b[2], b[1], b[0]);
  }

  predicate SameBackwards(w: seq<byte>, at: nat)
    requires at + 4 <= |w|
  {
    w[at] == w[at + 3] && w[at + 1] == w[at + 2]
  }

  /** A field stays as it is exactly if it reads the same backwards. */
  lemma SwappedIsSame(w: seq<byte>, at: nat)
    requires at + 4 <= |w|
    ensures Swapped(w, at) == w <==> SameBackwards(w, at)
  {
    hide Swapped;
    SwappedBytes(w, at);
    var r := Swapped(w, at);
    assert r[at] == w[at + 3] && r[at + 1] == w[at + 2] && r[at + 2] == w[at + 1] && r[at + 3] == w[at];
    assert r[..at] == w[..at] && r[at + 4..] == w[at + 4..];
  }

  /** The byte that Ordered puts at position j: the fields are turned around. */
  function OrderedAt(kind: MsgType, w: seq<byte>, j: nat): byte
    requires kind != OTHERS && StructSize(kind) <= |w| && j < |w|
  {
    if j < 4 then w[3 - j]
    else if j < 8 then w[11 - j]
    else if kind == LOGON && 48 <= j < 52 then w[99 - j]
    else if kind == LOGOUT && j < 12 then w[19 - j]
    else w[j]
  }

  lemma SwappedByte(w: seq<byte>, at: nat, j: nat)
    requires at + 4 <= |w| && j < |w|
    ensures Swapped(w, at)[j] == if at <= j < at + 4 then w[2 * at + 3 - j] else w[j]
  {
    hide Swapped;
    SwappedBytes(w, at);
  }

  lemma OrderedByte(kind: MsgType, w: seq<byte>, j: nat)
    requires kind != OTHERS && StructSize(kind) <= |w| && j < |w|
    ensures Ordered(kind, w)[j] == OrderedAt(kind, w, j)
  {
    hide Swapped;
    var a := Swapped(w, 0);
    var b := Swapped(a, 4);
    var i := if j < 4 then 3 - j else if j < 8 then 11 - j else if j < 12 then 19 - j
      else if 48 <= j < 52 then 99 - j else j;
    SwappedByte(w, 0, j);
    SwappedByte(a, 4, j);
    if i < |w| {
      SwappedByte(w, 0, i);
      SwappedByte(a, 4, i);
    }
    match kind
    case LOGON => SwappedByte(b, 48, j);
    case LOGOUT => SwappedByte(b, 8, j);
    case HEARTBEAT =>
  }

  /** Turning the fields around at the front of the buffer is turning around those of the message
      appended to w, and leaves w. */
  ghost predicate SameFields(w: seq<byte>, kind: MsgType, content: seq<byte>)
    requires kind != OTHERS && StructSize(kind) <= |content|
  {
    forall j :: 0 <= j < |w + content| ==>
      OrderedAt(kind, w + content, j) == if j < |w| then w[j] else OrderedAt(kind, content, j - |w|)
  }

  lemma OrderedBehind(w: seq<byte>, kind: MsgType, content: seq<byte>)
    requires kind != OTHERS && StructSize(kind) <= |content|
    ensures Ordered(kind, w + content) == w + Ordered(kind, content) <==> SameFields(w, kind, content)
  {
    hide Ordered, OrderedAt;
    var before, after := Ordered(kind, w + content), w + Ordered(kind, content);
    forall j | 0 <= j < |w + content|
      ensures before[j] == OrderedAt(kind, w + content, j)
      ensures after[j] == if j < |w| then w[j] else OrderedAt(kind, content, j - |w|)
    {
      OrderedByte(kind, w + content, j);
      if j >= |w| { OrderedByte(kind, content, j - |w|); }
    }
  }

  predicate FieldsSameBackwards(kind: MsgType, w: seq<byte>)
    requires StructSize(kind) <= |w|
  {
    match kind
    case LOGON => SameBackwards(w, 0) && SameBackwards(w, 4) && SameBackwards(w, 48)
    case LOGOUT => SameBackwards(w, 0) && SameBackwards(w, 4) && SameBackwards(w, 8)
    case HEARTBEAT => SameBackwards(w, 0) && SameBackwards(w, 4)
    case OTHERS => true
  }

  lemma OrderedIsSame(kind: MsgType, w: seq<byte>)
    requires kind != OTHERS && StructSize(kind) <= |w|
    ensures FieldsSameBackwards(kind, w) <==> forall j :: 0 <= j < |w| ==> OrderedAt(kind, w, j) == w[j]
  {
    if forall j :: 0 <= j < |w| ==> OrderedAt(kind, w, j) == w[j] {
      assert OrderedAt(kind, w, 0) == w[0] && OrderedAt(kind, w, 1) == w[1];
      assert OrderedAt(kind, w, 4) == w[4] && OrderedAt(kind, w, 5) == w[5];
      match kind
      case LOGON => assert OrderedAt(kind, w, 48) == w[48] && OrderedAt(kind, w, 49) == w[49];
      case LOGOUT => assert OrderedAt(kind, w, 8) == w[8] && OrderedAt(kind, w, 9) == w[9];
      case HEARTBEAT =>
    }
  }

  /** Behind a message of the same kind or a longer one, that is when all fields of both read the
      same backwards. */
  lemma SameFieldsBehind(w: seq<byte>, kind: MsgType, content: seq<byte>)
    requires kind != OTHERS && StructSize(kind) <= |content| && StructSize(kind) <= |w|
    ensures SameFields(w, kind, content) <==> FieldsSameBackwards(kind, w) && FieldsSameBackwards(kind, content)
  {
    hide FieldsSameBackwards;
    var all := w + content;
    OrderedIsSame(kind, w);
    OrderedIsSame(kind, content);
    forall j | 0 <= j < |all|
      ensures OrderedAt(kind, all, j) == if j < |w| then OrderedAt(kind, w, j) else content[j - |w|]
    {
    }
    if SameFields(w, kind, content) {
      forall j | 0 <= j < |w| ensures OrderedAt(kind, w, j) == w[j] {
        assert OrderedAt(kind, all, j) == w[j];
      }
      forall j | 0 <= j < |content| ensures OrderedAt(kind, content, j) == content[j] {
        assert OrderedAt(kind, all, |w| + j) == OrderedAt(kind, content, j);
      }
    }
  }

  /** Appending to a buffer that holds w gives w and the frame exactly if the head is the same in
      both places, and the checksum, which is taken from the front of the buffer, is the same too. */
  lemma AppendsExactly(w: seq<byte>, kind: MsgType, content: seq<byte>)
    requires kind != OTHERS && StructSize(kind) <= |content|
    ensures EncodeInto(w, kind, content) == w + Frame(kind, content)
       <==> && SameFields(w, kind, content)
            && ByteSum((w + Ordered(kind, content))[..|content|]) % 256 == ByteSum(Ordered(kind, content)) % 256
  {
    hide Ordered, ByteSum, PutUint32, SameFields;
    var p, q := Ordered(kind, w + content), Ordered(kind, content);
    var sum, own := ByteSum(p[..|content|]) % 256, ByteSum(q) % 256;
    OrderedBehind(w, kind, content);
    assert [] + content == content && q[..|content|] == q;
    assert Frame(kind, content) == q + PutUint32(own);
    assert w + (q + PutUint32(own)) == w + q + PutUint32(own);
    SameParts(p, PutUint32(sum), w + q, PutUint32(own));
    NetworkOrderRoundTrip(sum);
    NetworkOrderRoundTrip(own);
  }

  lemma SameParts(a: seq<byte>, b: seq<byte>, c: seq<byte>, d: seq<byte>)
    requires |a| == |c|
    ensures a + b == c + d <==> a == c && b == d
  {
    if a + b == c + d {
      assert a == (a + b)[..|a|] == c && b == (a + b)[|a|..] == d;
    }
  }

  /** So encode needs an empty wait buffer: a message that waits, and whose type is one of the
      source's, has its head swapped back. */
  lemma WaitingMessageIsSpoilt(w: seq<byte>, kind: MsgType, content: seq<byte>)
    requires kind != OTHERS && StructSize(kind) <= |content|
    requires w == [] || (|w| >= HEAD_SIZE && 0 < GetUint32(w[0..4]) < 256)
    ensures EncodeInto(w, kind, content) == w + Frame(kind, content) <==> w == []
    ensures w != [] ==> EncodeInto(w, kind, content)[..4] == [w[3], w[2], w[1], w[0]] != w[..4]
  {
    hide ByteSum, PutUint32, Ordered;
    if w == [] {
      assert [] + Frame(kind, content) == Frame(kind, content) && [] + content == content;
    } else {
      var p := Ordered(kind, w + content);
      OrderedByte(kind, w + content, 0); OrderedByte(kind, w + content, 1);
      OrderedByte(kind, w + content, 2); OrderedByte(kind, w + content, 3);
      assert EncodeInto(w, kind, content)[..4] == p[..4] == [w[3], w[2], w[1], w[0]];
      assert w[..4] == [w[0], w[1], w[2], w[3]] == w[0..4];
      assert (w + Frame(kind, content))[..4] == w[..4];
    }
  }

  /** In terms of a run: encoding behind frames that were not flushed works only if there are none. */
  lemma FlushBeforeEncode(messages: seq<Message>, kind: MsgType, content: seq<byte>)
    requires AllWellFormed(messages) && kind != OTHERS && StructSize(kind) <= |content|
    requires forall m :: m in messages ==> 0 < HostUint32(m.content[0..4]) < 256
    ensures var w := Concat(Frames(messages));
      EncodeInto(w, kind, content) == w + Frame(kind, content) <==> messages == []
  {
    hide EncodeInto, Frame, HostUint32, GetUint32;
    var w := Concat(Frames(messages));
    if messages != [] {
      var m := messages[0];
      assert m in messages;
      FrameIsCut(m.kind, m.content);
      assert w[0..4] == Frame(m.kind, m.content)[0..4];
    }
    WaitingMessageIsSpoilt(w, kind, content);
  }

  class Encoder {
    var first: seq<byte>
    var second: seq<byte>
    var waitsInFirst: bool

    /** The buffer encode appends to. */
    function Wait(): seq<byte> reads this { if waitsInFirst then first else second }

    /** The buffer the last flush handed out. */
    function HandedOut(): seq<byte> reads this { if waitsInFirst then second else first }

    constructor ()
      ensures Wait() == [] && HandedOut() == []
    {
      first, second, waitsInFirst := [], [], true;
    }

    method Reset()
      modifies this
      ensures Wait() == [] && HandedOut() == [] && waitsInFirst
    {
      first, second, waitsInFirst := [], [], true;
    }

    /** wait_buffer_ptr_->push_back over some bytes. */
    method PushBytes(bytes: seq<byte>)
      modifies this
      ensures Wait() == old(Wait()) + bytes && HandedOut() == old(HandedOut())
    {
      for i := 0 to |bytes|
        invariant Wait() == old(Wait()) + bytes[..i] && HandedOut() == old(HandedOut())
      {
        if waitsInFirst { first := first + [bytes[i]]; } else { second := second + [bytes[i]]; }
      }
      assert bytes[..|bytes|] == bytes;
    }

    method PutField(at: nat)
      requires at + 4 <= |Wait()|
      modifies this
      ensures Wait() == Swapped(old(Wait()), at) && HandedOut() == old(HandedOut())
    {
      if waitsInFirst { first := Swapped(first, at); } else { second := Swapped(second, at); }
    }

    /** The handed-out buffer is not touched. */
    method Encode(content: seq<byte>, kind: MsgType)
      requires StructSize(kind) <= |Wait() + content|
      modifies this
      ensures Wait() == EncodeInto(old(Wait()), kind, content)
      ensures HandedOut() == old(HandedOut())
    {
      hide Swapped, PutUint32, ByteSum;
      PushBytes(content);
      match kind {
        case LOGON =>
          PutField(0);
          PutField(4);
          PutField(48);
        case LOGOUT =>
          PutField(0);
          PutField(4);
          PutField(8);
        case HEARTBEAT =>
          PutField(0);
          PutField(4);
        case OTHERS => return;
      }
      var cks := CheckSum(|content|);
      PushBytes(PutUint32(cks));
    }

    /** The checksum over the first `size` bytes that wait. */
    method CheckSum(size: nat) returns (cks: uint32)
      requires size <= |Wait()|
      ensures cks == ByteSum(Wait()[..size]) % 256
    {
      cks := 0;
      for i := 0 to size
        invariant cks == ByteSum(Wait()[..i]) % TWO32
      {
        assert Wait()[..i + 1][..i] == Wait()[..i];
        SumInWord(ByteSum(Wait()[..i]), Wait()[i]);
        cks := (cks + Wait()[i]) % TWO32;
      }
      SumInWord(ByteSum(Wait()[..size]), 0);
      cks := cks % 256;
    }

    /** flush: the wait buffer is handed out, and the other one, emptied, waits. */
    method Flush() returns (content: seq<byte>)
      modifies this
      ensures content == old(Wait()) && HandedOut() == content && Wait() == []
    {
      content := Wait();
      if waitsInFirst { second := []; } else { first := []; }
      waitsInFirst := !waitsInFirst;
    }

    /** A run of encode-flush pairs. */
    method SendAll(messages: seq<Message>) returns (out: seq<seq<byte>>)
      requires AllWellFormed(messages) && Wait() == []
      modifies this
      ensures out == Frames(messages) && Wait() == []
    {
      hide Frame, EncodeInto, WellFormed, Ordered, ByteSum;
      out := [];
      for i := 0 to |messages|
        invariant Wait() == []
        invariant Frames(messages) == out + Frames(messages[i..])
      {
        assert WellFormed(messages[i].kind, messages[i].content);
        EncodeEmpty(messages[i].kind, messages[i].content);
        Encode(messages[i].content, messages[i].kind);
        var content := Flush();
        FramesFrom(messages, i);
        out := out + [content];
      }
    }

    static lemma FramesFrom(messages: seq<Message>, i: nat)
      requires AllWellFormed(messages) && i < |messages|
      ensures AllWellFormed(messages[i..]) && AllWellFormed(messages[i + 1..])
      ensures Frames(messages[i..]) == [Frame(messages[i].kind, messages[i].content)] + Frames(messages[i + 1..])
    {
      assert messages[i..][1..] == messages[i + 1..];
    }

    static lemma EncodeEmpty(kind: MsgType, content: seq<byte>)
      requires WellFormed(kind, content)
      ensures StructSize(kind) <= |[] + content| && EncodeInto([], kind, content) == Frame(kind, content)
    {
    }
  }
}
