/** The streaming decoder (src/szBinary_decoder.hpp): a HEAD/BODY/TAIL machine that may be
    interrupted at any byte. */
module SzBinaryDecoder {

  import opened Words
  import opened WireFormat
  import opened SzBinaryFrames

  datatype State = HEAD | BODY | TAIL

  /** The state is a matter of the bytes buffered: an empty body is only left when more bytes come. */
  function StateOf(buffer: seq<byte>): State {
    if |buffer| < HEAD_SIZE then HEAD
    else if |buffer| == HEAD_SIZE || |buffer| + TAIL_SIZE < FrameSize(buffer) then BODY
    else TAIL
  }

  class Decoder {
    var state: State
    var buffer: seq<byte>
    var bodySize: int

    ghost predicate Valid() reads this {
      && Pending(buffer)
      && bodySize == (if |buffer| < HEAD_SIZE then 0 else GetUint32(buffer[4..8]))
      && (Settled() || (state == TAIL && |buffer| == HEAD_SIZE && bodySize == 0))
    }

    /** Between calls of decode. */
    ghost predicate Settled() reads this { state == StateOf(buffer) }

    constructor ()
      ensures Valid() && Settled() && buffer == [] && state == HEAD
    {
      state, buffer, bodySize := HEAD, [], 0;
    }

    method Reset()
      modifies this
      ensures Valid() && Settled() && buffer == [] && state == HEAD
    {
      state, buffer, bodySize := HEAD, [], 0;
    }

    /** The byte loop shared by all branches. */
    method PushBytes(bytes: seq<byte>, n: int)
      requires n <= |bytes|
      modifies this`buffer
      ensures buffer == old(buffer) + bytes[..if n < 0 then 0 else n]
    {
      var count := 0;
      while count < n
        invariant 0 <= count && (count <= n || count == 0)
        invariant buffer == old(buffer) + bytes[..count]
      {
        buffer := buffer + [bytes[count]];
        count := count + 1;
      }
    }

    method GenerateCheckSum(bytes: seq<byte>) returns (checkSum: uint32)
      ensures checkSum == ByteSum(bytes) % 256
    {
      var sum: uint32 := 0;
      for count := 0 to |bytes|
        invariant sum == ByteSum(bytes[..count]) % TWO32
      {
        assert bytes[..count + 1][..count] == bytes[..count];
        SumInWord(ByteSum(bytes[..count]), bytes[count]);
        sum := (sum + bytes[count]) % TWO32;
      }
      assert bytes[..|bytes|] == bytes;
      SumInWord(ByteSum(bytes), 0);
      checkSum := sum % 256;
    }

    /** One step on the bytes from the read position on. It takes bytes, or it passes from BODY to
        TAIL, and the bytes taken are cut as they would have been with the bytes that follow. */
    method Consume(bytes: seq<byte>) returns (ret: int, consumed: nat, delivered: seq<seq<byte>>)
      requires Valid() && bytes != [] && !Cut(buffer + bytes).Unfit?
      modifies this
      ensures Valid() && (ret == 0 || ret == -1)
      ensures ret == 0 ==>
        && consumed <= |bytes|
        && Cut(old(buffer) + bytes) == Prepend(delivered, Cut(buffer + bytes[consumed..]))
        && (if consumed > 0 then Settled() else old(state) == BODY && state == TAIL)
      ensures ret == -1 ==> Cut(old(buffer) + bytes) == Bad([]) && delivered == [] && buffer == [] && state == HEAD
    {
      hide GetUint32, ByteSum, Cut, Prepend;
      ret, consumed, delivered := 0, 0, [];
      var toRead := |bytes|;
      ghost var all := buffer + bytes;
      PrependNothing(Cut(all));
      if |all| >= HEAD_SIZE { CutFirst(all); }
      match state
      case HEAD =>
        var headLack := HEAD_SIZE - |buffer|;
        if toRead >= headLack {
          PushBytes(bytes, headLack);
          Taken(old(buffer), bytes, headLack);
          state := BODY;
          consumed := headLack;
          bodySize := GetUint32(buffer[4..8]);
        } else {
          PushBytes(bytes, toRead);
          Taken(old(buffer), bytes, toRead);
          consumed := toRead;
        }
      case BODY =>
        var bodyLack := bodySize - |buffer| + HEAD_SIZE;
        if toRead >= bodyLack {
          PushBytes(bytes, bodyLack);
          Taken(old(buffer), bytes, bodyLack);
          state := TAIL;
          consumed := bodyLack;
        } else {
          PushBytes(bytes, toRead);
          Taken(old(buffer), bytes, toRead);
          consumed := toRead;
        }
      case TAIL =>
        var tailLack := bodySize + HEAD_SIZE + TAIL_SIZE - |buffer|;
        if toRead >= tailLack {
          PushBytes(bytes, tailLack);
          Taken(old(buffer), bytes, tailLack);
          assert all[..FrameSize(all)] == buffer && all[FrameSize(all)..] == bytes[tailLack..];
          var checkSum := GenerateCheckSum(buffer[..|buffer| - 4]);
          var cksWire := GetUint32(buffer[|buffer| - 4..]);
          if cksWire != checkSum {
            ret := -1;
            Reset();
          } else {
            consumed := tailLack;
            delivered := [buffer];
            Reset();
            assert [] + bytes[tailLack..] == bytes[tailLack..];
          }
        } else {
          PushBytes(bytes, toRead);
          Taken(old(buffer), bytes, toRead);
          consumed := toRead;
        }
    }

    /** Taking n bytes into the buffer leaves the stream, and the size of its first frame, as they were. */
    static lemma Taken(buffer: seq<byte>, bytes: seq<byte>, n: nat)
      requires n <= |bytes|
      ensures buffer + bytes[..n] + bytes[n..] == buffer + bytes
      ensures |buffer| + n >= HEAD_SIZE ==> FrameSize(buffer + bytes[..n]) == FrameSize(buffer + bytes)
      ensures |buffer| >= HEAD_SIZE ==> FrameSize(buffer + bytes) == FrameSize(buffer)
    {
      hide GetUint32;
      if |buffer| >= HEAD_SIZE { assert (buffer + bytes)[4..8] == buffer[4..8]; }
      if |buffer| + n >= HEAD_SIZE { assert (buffer + bytes[..n])[4..8] == (buffer + bytes)[4..8]; }
    }

    /** decode: it delivers the frames of the bytes buffered before and the chunk, and keeps what is
        left of them; at a wrong checksum it stops, and forgets the rest of the chunk. */
    method Decode(chunk: seq<byte>) returns (ret: int, frames: seq<seq<byte>>)
      requires Valid() && Settled() && !Cut(buffer + chunk).Unfit?
      modifies this
      ensures Valid() && Settled()
      ensures var c := Cut(old(buffer) + chunk);
        && frames == c.frames
        && (c.Cutting? ==> ret == 0 && buffer == c.rest)
        && (c.Bad? ==> ret == -1 && buffer == [] && state == HEAD)
    {
      hide Cut, Pending, StateOf, GetUint32;
      ghost var all := Cut(buffer + chunk);
      var begin: nat := 0;
      ret, frames := 0, [];
      assert chunk[0..] == chunk;
      PrependNothing(all);
      while begin < |chunk|
        invariant begin <= |chunk| && Valid() && ret == 0 && (begin == |chunk| ==> Settled())
        invariant all == Prepend(frames, Cut(buffer + chunk[begin..]))
        decreases |chunk| - begin, state == BODY
      {
        var consumed, delivered;
        ghost var was := buffer;
        ret, consumed, delivered := Consume(chunk[begin..]);
        if ret != 0 {
          assert all == Prepend(frames, Bad([]));
          assert frames + [] == frames;
          return;
        }
        assert chunk[begin..][consumed..] == chunk[begin + consumed..];
        PrependTwice(frames, delivered, Cut(buffer + chunk[begin + consumed..]));
        begin := begin + consumed;
        frames := frames + delivered;
      }
      assert buffer + chunk[begin..] == buffer;
      PendingIsRest(buffer);
      assert frames + [] == frames;
    }

    /** Chunk after chunk up to the first failure: what comes out is a matter of the bytes alone. */
    method DecodeChunks(chunks: seq<seq<byte>>) returns (ret: int, frames: seq<seq<byte>>)
      requires Valid() && Settled() && !Cut(buffer + Concat(chunks)).Unfit?
      modifies this
      ensures Valid() && Settled()
      ensures var c := Cut(old(buffer) + Concat(chunks));
        && frames == c.frames
        && (c.Cutting? ==> ret == 0 && buffer == c.rest)
        && (c.Bad? ==> ret == -1 && buffer == [] && state == HEAD)
    {
      hide Cut, Pending, StateOf, GetUint32, Valid;
      ret, frames := 0, [];
      ghost var all := Cut(buffer + Concat(chunks));
      PrependNothing(all);
      assert chunks[0..] == chunks;
      for i := 0 to |chunks|
        invariant Valid() && Settled() && ret == 0
        invariant all == Prepend(frames, Cut(buffer + Concat(chunks[i..])))
      {
        ghost var was, rest := buffer, Concat(chunks[i + 1..]);
        assert chunks[i..][1..] == chunks[i + 1..];
        assert was + Concat(chunks[i..]) == was + chunks[i] + rest;
        CutAppend(was + chunks[i], rest);
        var delivered;
        ret, delivered := Decode(chunks[i]);
        PrependTwice(frames, delivered, Cut(buffer + rest));
        frames := frames + delivered;
        if ret != 0 { return; }
      }
      assert buffer + Concat(chunks[|chunks|..]) == buffer;
      ValidIsPending();
      PendingIsRest(buffer);
      assert frames + [] == frames;
    }

    /** Chunk after chunk as the input service feeds them, whatever decode answers. */
    method DecodeOn(chunks: seq<seq<byte>>) returns (frames: seq<seq<byte>>)
      requires Valid() && Settled() && !FeedOn(buffer, chunks).Unfit?
      modifies this
      ensures Valid() && Settled() && Cutting(frames, buffer) == FeedOn(old(buffer), chunks)
    {
      hide Cut, Pending, StateOf, GetUint32, Valid;
      frames := [];
      ghost var all := FeedOn(buffer, chunks);
      PrependNothing(all);
      assert chunks[0..] == chunks;
      for i := 0 to |chunks|
        invariant Valid() && Settled()
        invariant all == Prepend(frames, FeedOn(buffer, chunks[i..]))
      {
        assert chunks[i..][1..] == chunks[i + 1..];
        var ret, delivered := Decode(chunks[i]);
        PrependTwice(frames, delivered, FeedOn(buffer, chunks[i + 1..]));
        frames := frames + delivered;
      }
      assert frames + [] == frames;
    }

    lemma ValidIsPending()
      requires Valid()
      ensures Pending(buffer)
    {
    }
  }
}
