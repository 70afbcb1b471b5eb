/** The frames of the exchange's binary protocol (src/szBinary_message_define.hpp, src/wire.hpp):
    a head of eight bytes with the body length at offset 4, the body, and a tail of four bytes with
    the sum of all bytes before it modulo 256. Numbers are in network order. */
module SzBinaryFrames {

  import opened HostMemory
  import opened Words
  import opened WireFormat

  const HEAD_SIZE := 8
  const TAIL_SIZE := 4

  function FromBytes(a: int, b: int, c: int, d: int): int { a * 0x100_0000 + b * 0x1_0000 + c * 0x100 + d }

  function GetUint32(b: seq<byte>): uint32
    requires |b| == 4
  {
    FromBytes(b[0], b[1], b[2], b[3])
  }

  function PutUint32(n: uint32): (b: seq<byte>)
    ensures |b| == 4
  {
    [n / 0x100_0000, n / 0x1_0000 % 256, n / 0x100 % 256, n % 256]
  }

  /** A 32-bit field as the host, which stores the low byte first, reads it. */
  function HostUint32(b: seq<byte>): uint32
    requires |b| == 4
  {
    FromBytes(b[3], b[2], b[1], b[0])
  }

  lemma FourBytes(n: uint32)
    ensures FromBytes(n / 0x100_0000, n / 0x1_0000 % 256, n / 0x100 % 256, n % 256) == n
  {
    var p, q, r := n / 0x100, n / 0x1_0000, n / 0x100_0000;
    assert n == 256 * p + n % 256;
    assert p / 256 == q && p == 256 * q + p % 256;
    assert q / 256 == r && q == 256 * r + q % 256;
  }

  lemma NetworkOrderRoundTrip(n: uint32)
    ensures GetUint32(PutUint32(n)) == n
  {
    FourBytes(n);
  }

  /** In network order the byte of the highest weight comes first; in the host's, the lowest. */
  lemma OrdersOfBytes(n: uint32, k: nat)
    requires k < 4
    ensures PutUint32(n)[k] == Digit256(n, 3 - k)
    ensures HostUint32(LittleEndian(n, 4)) == n && LittleEndian(n, 4)[k] == Digit256(n, k)
  {
    hide Digit256, LittleEndian;
    DigitsOf(n);
    LittleEndianAt(n, 4, 0);
    LittleEndianAt(n, 4, 1);
    LittleEndianAt(n, 4, 2);
    LittleEndianAt(n, 4, 3);
    FourBytes(n);
  }

  function ByteSum(bytes: seq<byte>): nat {
    if bytes == [] then 0 else ByteSum(bytes[..|bytes| - 1]) + bytes[|bytes| - 1]
  }

  lemma SumOfOne(b: byte)
    ensures ByteSum([b]) == b && ByteSum([]) == 0
  {
    assert [b][..0] == [];
  }

  /** Every byte counts, wherever it stands. */
  lemma {:induction false} SumOfTwo(x: seq<byte>, y: seq<byte>)
    ensures ByteSum(x + y) == ByteSum(x) + ByteSum(y)
    decreases |y|
  {
    if y == [] {
      assert x + y == x;
    } else {
      var front := y[..|y| - 1];
      SumOfTwo(x, front);
      assert (x + y)[..|x + y| - 1] == x + front;
    }
  }

  lemma SumWith(bytes: seq<byte>, i: nat, b: byte)
    requires i < |bytes|
    ensures ByteSum(bytes[i := b]) == ByteSum(bytes) - bytes[i] + b
  {
    hide ByteSum;
    var before, after := bytes[..i], bytes[i + 1..];
    assert bytes == before + [bytes[i]] + after && bytes[i := b] == before + [b] + after;
    SumOfTwo(before + [bytes[i]], after);
    SumOfTwo(before, [bytes[i]]);
    SumOfTwo(before + [b], after);
    SumOfTwo(before, [b]);
    SumOfOne(bytes[i]);
    SumOfOne(b);
  }

  /** A sum kept in a 32-bit word is the sum modulo 2^32, and its low byte is that of the sum. */
  lemma SumInWord(sum: nat, b: byte)
    ensures (sum % TWO32 + b) % TWO32 == (sum + b) % TWO32
    ensures sum % TWO32 % 256 == sum % 256
  {
    var k := sum / TWO32;
    assert sum == sum % TWO32 + TWO32 * k;
    assert (sum % TWO32 + 256 * (0x100_0000 * k)) % 256 == sum % TWO32 % 256;
  }

  /** The bytes the body length of a head announces for the whole frame. */
  function FrameSize(bytes: seq<byte>): nat
    requires |bytes| >= HEAD_SIZE
  {
    HEAD_SIZE + GetUint32(bytes[4..8]) + TAIL_SIZE
  }

  predicate ChecksumOk(frame: seq<byte>)
    requires |frame| >= HEAD_SIZE + TAIL_SIZE
  {
    GetUint32(frame[|frame| - 4..]) == ByteSum(frame[..|frame| - 4]) % 256
  }

  lemma SumNoticed(sum: nat, was: byte, b: byte)
    requires was != b && was <= sum
    ensures (sum - was + b) % 256 != sum % 256
  {
    var q, r := sum / 256, sum % 256;
    var p, t := (sum - was + b) / 256, (sum - was + b) % 256;
    assert sum == 256 * q + r && sum - was + b == 256 * p + t;
  }

  lemma WordNoticed(word: seq<byte>, i: nat, b: byte)
    requires |word| == 4 && i < 4 && b != word[i]
    ensures GetUint32(word[i := b]) != GetUint32(word)
  {
    if i == 0 {} else if i == 1 {} else if i == 2 {} else {}
  }

  lemma SumHasByte(bytes: seq<byte>, i: nat)
    requires i < |bytes|
    ensures bytes[i] <= ByteSum(bytes)
  {
    SumWith(bytes, i, 0);
  }

  /** No single wrong byte goes unnoticed: whichever byte of a frame is changed, head, body or tail,
      its checksum is wrong. */
  lemma OneWrongByte(frame: seq<byte>, i: nat, b: byte)
    requires |frame| >= HEAD_SIZE + TAIL_SIZE && ChecksumOk(frame) && i < |frame| && b != frame[i]
    ensures !ChecksumOk(frame[i := b])
  {
    hide ByteSum, GetUint32;
    var n, wrong := |frame| - 4, frame[i := b];
    if i < n {
      assert wrong[n..] == frame[n..] && wrong[..n] == frame[..n][i := b];
      SumWith(frame[..n], i, b);
      SumHasByte(frame[..n], i);
      SumNoticed(ByteSum(frame[..n]), frame[i], b);
    } else {
      assert wrong[..n] == frame[..n] && wrong[n..] == frame[n..][i - n := b];
      WordNoticed(frame[n..], i - n, b);
    }
  }

  /** A byte stream cut into frames: the complete ones and the incomplete rest; or the frames before
      the first wrong checksum; or those before the first head whose frame size does not fit the
      source's signed 32-bit arithmetic. */
  datatype Cutting = Cutting(frames: seq<seq<byte>>, rest: seq<byte>)
                   | Bad(frames: seq<seq<byte>>)
                   | Unfit(frames: seq<seq<byte>>)

  function Prepend(first: seq<seq<byte>>, c: Cutting): Cutting {
    match c
    case Cutting(frames, rest) => Cutting(first + frames, rest)
    case Bad(frames) => Bad(first + frames)
    case Unfit(frames) => Unfit(first + frames)
  }

  function Cut(bytes: seq<byte>): (c: Cutting)
    decreases |bytes|
  {
    if |bytes| < HEAD_SIZE then Cutting([], bytes)
    else
      var size := FrameSize(bytes);
      if size >= 0x8000_0000 then Unfit([])
      else if |bytes| < size then Cutting([], bytes)
      else if !ChecksumOk(bytes[..size]) then Bad([])
      else Prepend([bytes[..size]], Cut(bytes[size..]))
  }

  /** Bytes that do not make up a frame yet. */
  predicate Pending(bytes: seq<byte>) {
    |bytes| < HEAD_SIZE || |bytes| < FrameSize(bytes) < 0x8000_0000
  }

  lemma PendingIsRest(bytes: seq<byte>)
    requires Pending(bytes)
    ensures Cut(bytes) == Cutting([], bytes)
  {
  }

  /** The first frame of a stream that has one. */
  lemma CutFirst(bytes: seq<byte>)
    requires |bytes| >= HEAD_SIZE && !Cut(bytes).Unfit?
    ensures FrameSize(bytes) < 0x8000_0000
    ensures |bytes| >= FrameSize(bytes) ==>
      var frame, tail := bytes[..FrameSize(bytes)], bytes[FrameSize(bytes)..];
      Cut(bytes) == if ChecksumOk(frame) then Prepend([frame], Cut(tail)) else Bad([])
  {
  }

  /** A frame is accepted exactly if its tail is the sum of head and body modulo 256. */
  lemma WholeFrame(head: seq<byte>, body: seq<byte>, tail: seq<byte>)
    requires |head| == HEAD_SIZE && |tail| == TAIL_SIZE && GetUint32(head[4..8]) == |body|
    requires |head + body + tail| < 0x8000_0000
    ensures var frame := head + body + tail;
      Cut(frame) == if GetUint32(tail) == (ByteSum(head) + ByteSum(body)) % 256 then Cutting([frame], []) else Bad([])
  {
    hide ByteSum, GetUint32;
    var frame := head + body + tail;
    assert frame[4..8] == head[4..8];
    assert frame[..|frame|] == frame && frame[|frame|..] == [] && [frame] + [] == [frame];
    assert frame[..|frame| - 4] == head + body && frame[|frame| - 4..] == tail;
    SumOfTwo(head, body);
    PendingIsRest([]);
  }

  predicate FrameOk(f: seq<byte>) {
    |f| >= HEAD_SIZE + TAIL_SIZE && |f| == FrameSize(f) < 0x8000_0000 && ChecksumOk(f)
  }

  lemma ConcatFirst(frame: seq<byte>, frames: seq<seq<byte>>, rest: seq<byte>)
    ensures Concat([frame] + frames) == frame + Concat(frames)
    ensures frame + (Concat(frames) + rest) == Concat([frame] + frames) + rest
  {
    assert ([frame] + frames)[1..] == frames;
    assert frame + (Concat(frames) + rest) == frame + Concat(frames) + rest;
  }

  /** Cutting loses nothing: the frames, then the rest, are the bytes; and every frame is as large as
      its head says and has the right checksum. */
  lemma {:induction false} CutIsExact(bytes: seq<byte>)
    ensures Cut(bytes).Cutting? ==> Concat(Cut(bytes).frames) + Cut(bytes).rest == bytes
    ensures Concat(Cut(bytes).frames) <= bytes
    ensures forall f :: f in Cut(bytes).frames ==> FrameOk(f)
    decreases |bytes|
  {
    hide GetUint32, ChecksumOk, Concat, FrameOk;
    NoConcat();
    assert [] + bytes == bytes;
    if |bytes| >= HEAD_SIZE && FrameSize(bytes) < 0x8000_0000 && |bytes| >= FrameSize(bytes) {
      var frame, tail := bytes[..FrameSize(bytes)], bytes[FrameSize(bytes)..];
      if ChecksumOk(frame) {
        FirstIsOk(bytes);
        CutIsExact(tail);
        ConcatFirst(frame, Cut(tail).frames, if Cut(tail).Cutting? then Cut(tail).rest else []);
        assert frame + tail == bytes;
      }
    }
  }

  /** What fails is a whole frame with a wrong checksum, right behind the good ones. */
  lemma {:induction false} BadMeans(bytes: seq<byte>)
    requires Cut(bytes).Bad?
    ensures var n := |Concat(Cut(bytes).frames)|;
      n <= |bytes| &&
      (var next := bytes[n..];
       |next| >= HEAD_SIZE && FrameSize(next) < 0x8000_0000 && |next| >= FrameSize(next)
       && !ChecksumOk(next[..FrameSize(next)]))
    decreases |bytes|
  {
    hide GetUint32, ChecksumOk, Concat;
    NoConcat();
    assert bytes[0..] == bytes;
    var frame, tail := bytes[..FrameSize(bytes)], bytes[FrameSize(bytes)..];
    if ChecksumOk(frame) {
      BadMeans(tail);
      ConcatFirst(frame, Cut(tail).frames, []);
      assert bytes[|frame| + |Concat(Cut(tail).frames)|..] == tail[|Concat(Cut(tail).frames)|..];
    }
  }

  lemma NoConcat()
    ensures Concat([]) == []
  {
  }

  lemma FirstIsOk(bytes: seq<byte>)
    requires |bytes| >= HEAD_SIZE && FrameSize(bytes) < 0x8000_0000 && |bytes| >= FrameSize(bytes)
    requires ChecksumOk(bytes[..FrameSize(bytes)])
    ensures FrameOk(bytes[..FrameSize(bytes)])
  {
    hide GetUint32, ChecksumOk;
    assert bytes[..FrameSize(bytes)][4..8] == bytes[4..8];
  }

  lemma {:induction false} CutLeavesPending(bytes: seq<byte>)
    ensures Cut(bytes).Cutting? ==> Pending(Cut(bytes).rest)
    decreases |bytes|
  {
    if |bytes| >= HEAD_SIZE && FrameSize(bytes) < 0x8000_0000 && |bytes| >= FrameSize(bytes) {
      CutLeavesPending(bytes[FrameSize(bytes)..]);
    }
  }

  /** Bytes that follow are cut after the frames before them; nothing follows a failure. */
  lemma {:induction false} CutAppend(bytes: seq<byte>, more: seq<byte>)
    ensures Cut(bytes + more)
         == if Cut(bytes).Cutting? then Prepend(Cut(bytes).frames, Cut(Cut(bytes).rest + more)) else Cut(bytes)
    decreases |bytes|
  {
    hide GetUint32, ChecksumOk;
    if |bytes| < HEAD_SIZE {
      PrependNothing(Cut(bytes + more));
    } else {
      assert (bytes + more)[4..8] == bytes[4..8];
      var size := FrameSize(bytes);
      if size < 0x8000_0000 && |bytes| >= size {
        assert (bytes + more)[..size] == bytes[..size];
        assert (bytes + more)[size..] == bytes[size..] + more;
        CutAppend(bytes[size..], more);
        if ChecksumOk(bytes[..size]) && Cut(bytes[size..]).Cutting? {
          var tail := Cut(bytes[size..]);
          PrependTwice([bytes[..size]], tail.frames, Cut(tail.rest + more));
        }
      } else {
        PrependNothing(Cut(bytes + more));
      }
    }
  }

  lemma PrependNothing(c: Cutting)
    ensures Prepend([], c) == c
  {
    assert [] + c.frames == c.frames;
  }

  lemma PrependTwice(a: seq<seq<byte>>, b: seq<seq<byte>>, c: Cutting)
    ensures Prepend(a, Prepend(b, c)) == Prepend(a + b, c)
  {
    assert a + (b + c.frames) == a + b + c.frames;
  }

  function Concat(chunks: seq<seq<byte>>): seq<byte> {
    if chunks == [] then [] else chunks[0] + Concat(chunks[1..])
  }

  /** Feeding chunk after chunk, up to the first failure. */
  function FeedAll(rest: seq<byte>, chunks: seq<seq<byte>>): Cutting
    decreases |chunks|
  {
    if chunks == [] then Cutting([], rest)
    else
      match Cut(rest + chunks[0])
      case Cutting(frames, rest') => Prepend(frames, FeedAll(rest', chunks[1..]))
      case other => other
  }

  /** Chunk independence: the frames delivered up to the first failure, and the state after the
      last chunk if there is none, depend only on the bytes and not on how they were split. */
  lemma {:induction false} ChunkIndependence(rest: seq<byte>, chunks: seq<seq<byte>>)
    requires Pending(rest)
    ensures FeedAll(rest, chunks) == Cut(rest + Concat(chunks))
    decreases |chunks|
  {
    if chunks == [] {
      assert rest + [] == rest;
    } else {
      var c := Cut(rest + chunks[0]);
      assert rest + Concat(chunks) == rest + chunks[0] + Concat(chunks[1..]);
      CutAppend(rest + chunks[0], Concat(chunks[1..]));
      CutLeavesPending(rest + chunks[0]);
      if c.Cutting? { ChunkIndependence(c.rest, chunks[1..]); }
    }
  }

  /** Feeding chunk after chunk as the input service does, which takes no notice of a failure: the
      rest of that chunk is lost, and the decoder starts over with the next. */
  function FeedOn(rest: seq<byte>, chunks: seq<seq<byte>>): Cutting
    decreases |chunks|
  {
    if chunks == [] then Cutting([], rest)
    else
      match Cut(rest + chunks[0])
      case Cutting(frames, rest') => Prepend(frames, FeedOn(rest', chunks[1..]))
      case Bad(frames) => Prepend(frames, FeedOn([], chunks[1..]))
      case Unfit(frames) => Unfit(frames)
  }

  /** After a failure the buffer is empty. */
  function StartOver(c: Cutting): Cutting {
    match c
    case Bad(frames) => Cutting(frames, [])
    case other => other
  }

  lemma FeedOne(rest: seq<byte>, chunk: seq<byte>)
    ensures FeedOn(rest, [chunk]) == StartOver(Cut(rest + chunk))
  {
    hide Cut;
    assert [chunk][1..] == [];
    var c := Cut(rest + chunk);
    assert c.frames + [] == c.frames;
  }

  lemma FeedTwo(rest: seq<byte>, x: seq<byte>, y: seq<byte>)
    ensures var c := Cut(rest + x);
      FeedOn(rest, [x, y]) == if c.Cutting? then Prepend(c.frames, StartOver(Cut(c.rest + y)))
        else if c.Bad? then Prepend(c.frames, StartOver(Cut(y))) else c
  {
    hide Cut;
    assert [x, y][1..] == [y];
    assert [] + y == y;
    FeedOne([], y);
    if Cut(rest + x).Cutting? { FeedOne(Cut(rest + x).rest, y); }
  }

  /** Two chunks or one: it is the same exactly if the first brings no failure, or if what follows
      the failure brings nothing either. */
  lemma SplitMatters(rest: seq<byte>, x: seq<byte>, y: seq<byte>)
    ensures FeedOn(rest, [x + y]) == FeedOn(rest, [x, y])
       <==> !Cut(rest + x).Bad? || y == [] || Cut(y) == Bad([])
  {
    hide Cut, FeedOn;
    FeedOne(rest, x + y);
    FeedTwo(rest, x, y);
    assert rest + (x + y) == rest + x + y;
    CutAppend(rest + x, y);
    if Cut(rest + x).Bad? {
      var frames := Cut(rest + x).frames;
      NothingCut(y);
      SamePrepended(frames, StartOver(Cut(y)));
    }
  }

  lemma NothingCut(bytes: seq<byte>)
    ensures StartOver(Cut(bytes)) == Cutting([], []) <==> bytes == [] || Cut(bytes) == Bad([])
  {
    if |bytes| >= HEAD_SIZE && |bytes| >= FrameSize(bytes) && Cut(bytes).Cutting? {
      assert Cut(bytes).frames != [];
    }
  }

  lemma SamePrepended(first: seq<seq<byte>>, c: Cutting)
    ensures Cutting(first, []) == Prepend(first, c) <==> c == Cutting([], [])
  {
    assert first + [] == first;
    if c.Cutting? && first == first + c.frames { assert |c.frames| == 0; }
  }

  lemma {:induction false} FeedNothing(chunks: seq<seq<byte>>)
    requires Concat(chunks) == []
    ensures FeedOn([], chunks) == Cutting([], [])
  {
    if chunks != [] {
      assert chunks[0] == [] && Concat(chunks[1..]) == [];
      assert [] + chunks[0] == [];
      FeedNothing(chunks[1..]);
    }
  }

  /** The bytes fail before the last of them. */
  predicate FailsEarly(rest: seq<byte>, bytes: seq<byte>) {
    bytes != [] && Cut(rest + bytes[..|bytes| - 1]).Bad?
  }

  /** A stream without an early failure is cut in the same way however it is split. */
  lemma {:induction false} SplitAnywhere(rest: seq<byte>, chunks: seq<seq<byte>>)
    requires Pending(rest) && !FailsEarly(rest, Concat(chunks))
    ensures FeedOn(rest, chunks) == StartOver(Cut(rest + Concat(chunks)))
    decreases |chunks|
  {
    hide Cut, Pending;
    if chunks == [] {
      assert rest + [] == rest;
      PendingIsRest(rest);
    } else {
      var x, more := chunks[0], Concat(chunks[1..]);
      var c := Cut(rest + x);
      assert rest + (x + more) == rest + x + more;
      CutAppend(rest + x, more);
      CutLeavesPending(rest + x);
      NotEarlier(rest, x, more);
      if c.Cutting? {
        SplitAnywhere(c.rest, chunks[1..]);
      } else if c.Bad? {
        FeedNothing(chunks[1..]);
        assert c.frames + [] == c.frames;
      }
    }
  }

  lemma NotEarlier(rest: seq<byte>, x: seq<byte>, more: seq<byte>)
    requires !FailsEarly(rest, x + more)
    ensures Cut(rest + x).Bad? ==> more == []
    ensures Cut(rest + x).Cutting? ==> !FailsEarly(Cut(rest + x).rest, more)
  {
    hide Cut;
    if more != [] {
      var most := more[..|more| - 1];
      assert (x + more)[..|x + more| - 1] == x + most;
      assert rest + (x + most) == rest + x + most;
      CutAppend(rest + x, most);
    }
  }

  /** And only such a stream: every split of some bytes gives the same if and only if no checksum
      is wrong in front of the last byte. */
  lemma EverySplitAgrees(rest: seq<byte>, bytes: seq<byte>)
    requires Pending(rest)
    ensures !FailsEarly(rest, bytes)
       <==> forall chunks :: Concat(chunks) == bytes ==> FeedOn(rest, chunks) == FeedOn(rest, [bytes])
  {
    hide Cut, FeedOn, Pending;
    FeedOne(rest, bytes);
    if FailsEarly(rest, bytes) {
      var most, last := bytes[..|bytes| - 1], bytes[|bytes| - 1..];
      assert most + last == bytes;
      SplitMatters(rest, most, last);
      OneByte(last);
      assert Concat([last]) == last && [most, last][1..] == [last];
      assert Concat([most, last]) == bytes;
    } else {
      forall chunks | Concat(chunks) == bytes ensures FeedOn(rest, chunks) == FeedOn(rest, [bytes]) {
        SplitAnywhere(rest, chunks);
      }
    }
  }

  lemma OneByte(b: seq<byte>)
    requires |b| == 1
    ensures !Cut(b).Bad?
  {
  }

  /** For instance: in one chunk a good frame behind a bad one is lost, in two it is delivered. */
  lemma AfterFailureTheSplitMatters()
    ensures var bad: seq<byte> := [0, 0, 0, 0, 0, 0, 0, 0, 0, 0, 0, 1];
      var good: seq<byte> := [0, 0, 0, 0, 0, 0, 0, 0, 0, 0, 0, 0];
      FeedOn([], [bad + good]) == Cutting([], []) && FeedOn([], [bad, good]) == Cutting([good], [])
  {
    hide Cut, FeedOn;
    var bad: seq<byte> := [0, 0, 0, 0, 0, 0, 0, 0, 0, 0, 0, 1];
    var good: seq<byte> := [0, 0, 0, 0, 0, 0, 0, 0, 0, 0, 0, 0];
    CutHeartbeat(bad, 1);
    CutHeartbeat(good, 0);
    CutAppend(bad, good);
    assert [] + bad == bad && [] + (bad + good) == bad + good && [] + [good] == [good];
    FeedOne([], bad + good);
    FeedTwo([], bad, good);
  }

  lemma CutHeartbeat(frame: seq<byte>, checksum: byte)
    requires frame == [0, 0, 0, 0, 0, 0, 0, 0, 0, 0, 0, checksum]
    ensures Cut(frame) == if checksum == 0 then Cutting([frame], []) else Bad([])
  {
    hide Cut, ByteSum, GetUint32;
    SmallNumber([0, 0, 0, 0]);
    SmallNumber([0, 0, 0, checksum]);
    NoSum(frame[..8]);
    assert frame[4..8] == [0, 0, 0, 0] && frame[8..] == [0, 0, 0, checksum];
    assert FrameSize(frame) == 12 && !Cut(frame).Unfit? by { CutSmall(frame); }
    CutFirst(frame);
    assert frame[..12] == frame && frame[12..] == [];
    PendingIsRest([]);
    assert [frame] + [] == [frame];
  }

  lemma SmallNumber(b: seq<byte>)
    requires |b| == 4 && b[0] == b[1] == b[2] == 0
    ensures GetUint32(b) == b[3]
  {
  }

  lemma CutSmall(bytes: seq<byte>)
    requires |bytes| == 12 && GetUint32(bytes[4..8]) == 0
    ensures FrameSize(bytes) == 12 && !Cut(bytes).Unfit?
  {
    hide ChecksumOk, GetUint32;
    assert |bytes[12..]| == 0;
    PendingIsRest(bytes[12..]);
  }

  lemma {:induction false} NoSum(bytes: seq<byte>)
    requires forall i :: 0 <= i < |bytes| ==> bytes[i] == 0
    ensures ByteSum(bytes) == 0
  {
    if bytes != [] { NoSum(bytes[..|bytes| - 1]); }
  }
}
