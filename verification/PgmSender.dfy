/** `PGMSender` (src/pgm_sender.cc): OutEvent fills packets from the batch stream and sends them;
    PushMessage and EndPush gather small messages before they are written to the pipe. */
module PgmSenders {

  import opened Options
  import opened Words
  import opened WireFormat
  import opened PgmPackets

  type Message = seq<byte>

  const MAX_MESSAGES_PER_TIME := 50

  /** The serializer is outside the repository: the bytes of a flush are a function of the messages
      serialized since the flush before, and of all batches before them. */
  type Serializer = (seq<seq<Message>>, seq<Message>) -> seq<byte>

  ghost predicate NeverEmpty(serialize: Serializer) {
    forall history, batch :: batch != [] ==> serialize(history, batch) != []
  }

  /** The batch stream. */
  ghost function Stream(serialize: Serializer, batches: seq<seq<Message>>): seq<byte> {
    if batches == [] then []
    else
      var history := batches[..|batches| - 1];
      Stream(serialize, history) + serialize(history, batches[|batches| - 1])
  }

  /** Where its batches start. */
  ghost function Starts(serialize: Serializer, batches: seq<seq<Message>>): set<nat> {
    if batches == [] then {}
    else
      var history := batches[..|batches| - 1];
      Starts(serialize, history) + {|Stream(serialize, history)|}
  }

  lemma StreamPush(serialize: Serializer, batches: seq<seq<Message>>, batch: seq<Message>)
    ensures Stream(serialize, batches + [batch]) == Stream(serialize, batches) + serialize(batches, batch)
    ensures Starts(serialize, batches + [batch]) == Starts(serialize, batches) + {|Stream(serialize, batches)|}
  {
    assert (batches + [batch])[..|batches|] == batches;
  }

  /** All messages of some batches. */
  ghost function Messages(batches: seq<seq<Message>>): seq<Message> {
    if batches == [] then [] else Messages(batches[..|batches| - 1]) + batches[|batches| - 1]
  }

  lemma MessagesPush(batches: seq<seq<Message>>, batch: seq<Message>)
    ensures Messages(batches + [batch]) == Messages(batches) + batch
  {
    assert (batches + [batch])[..|batches|] == batches;
  }

  /** What a series of pipe reads yields; a read may find nothing. */
  function Found(answers: seq<Option<Message>>): seq<Message> {
    if answers == [] then []
    else Found(answers[..|answers| - 1]) + (if answers[|answers| - 1].Some? then [answers[|answers| - 1].value] else [])
  }

  /** Where a batch read from `from` on ends: at the end, behind a read that found nothing, or after
      `room` messages. */
  function BatchEnd(answers: seq<Option<Message>>, from: nat, room: nat): (end: nat)
    requires from <= |answers|
    ensures from <= end <= |answers|
    decreases room
  {
    if room == 0 || from == |answers| then from
    else if answers[from] == None then from + 1
    else BatchEnd(answers, from + 1, room - 1)
  }

  /** Reading has ended because there is nothing more. */
  predicate Drained(answers: seq<Option<Message>>, used: nat) {
    used >= |answers| || (0 < used && answers[used - 1] == None)
  }

  /** A batch is empty only if there was nothing to read. */
  lemma {:induction false} BatchDrains(answers: seq<Option<Message>>, from: nat, room: nat)
    requires from <= |answers|
    ensures var end := BatchEnd(answers, from, room);
      Found(answers[..end]) == Found(answers[..from]) && room > 0 ==> Drained(answers, end)
    decreases room
  {
    if room > 0 && from < |answers| && answers[from].Some? {
      BatchGrows(answers, from + 1, room - 1);
      FoundPush(answers, from);
    }
  }

  lemma {:induction false} BatchGrows(answers: seq<Option<Message>>, from: nat, room: nat)
    requires from <= |answers|
    ensures |Found(answers[..from])| <= |Found(answers[..BatchEnd(answers, from, room)])|
    decreases room
  {
    if room > 0 && from < |answers| {
      FoundPush(answers, from);
      if answers[from].Some? { BatchGrows(answers, from + 1, room - 1); }
    }
  }

  /** The pipe has a message at once. */
  predicate Offered(answers: seq<Option<Message>>) { answers != [] && answers[0].Some? }

  lemma NotOffered(answers: seq<Option<Message>>, used: nat, batch: seq<Message>)
    requires used == BatchEnd(answers, 0, MAX_MESSAGES_PER_TIME)
    requires Found(answers[..used]) == Found(answers[..0]) + batch && batch != []
    ensures Offered(answers) && used > 0
  {
    if answers != [] && answers[0] == None { FoundPush(answers, 0); }
  }

  lemma NothingOffered(answers: seq<Option<Message>>, used: nat)
    requires used == BatchEnd(answers, 0, MAX_MESSAGES_PER_TIME)
    requires Found(answers[..used]) == Found(answers[..0])
    ensures !Offered(answers)
  {
    if Offered(answers) { FirstIsRead(answers, MAX_MESSAGES_PER_TIME); }
  }

  lemma FirstIsRead(answers: seq<Option<Message>>, room: nat)
    requires answers != [] && answers[0].Some? && room > 0
    ensures BatchEnd(answers, 0, room) > 0 && Found(answers[..BatchEnd(answers, 0, room)]) != []
  {
    FoundPush(answers, 0);
    BatchGrows(answers, 1, room - 1);
  }

  lemma FoundPush(answers: seq<Option<Message>>, n: nat)
    requires n < |answers|
    ensures Found(answers[..n + 1]) == Found(answers[..n]) + (if answers[n].Some? then [answers[n].value] else [])
  {
    assert answers[..n + 1][..n] == answers[..n];
  }

  /** How the stream is spread while a packet is being filled: what the packets carry, then the
      data for the next packet, then the unsent rest of the current batch; every batch started
      before that rest, and `offset` is where the first one started in the data. */
  ghost predicate Spread(stream: seq<byte>, starts: set<nat>, packets: seq<Packet>, data: seq<byte>, rest: seq<byte>,
                         offset: nat)
  {
    var lo := Lo(packets, |packets|);
    && Packed(stream, starts, packets)
    && lo + |data| + |rest| == |stream|
    && stream[lo..lo + |data|] == data && stream[lo + |data|..] == rest
    && FirstStart(starts, lo, lo + |data|, offset)
    && (forall s :: s in starts ==> s < lo + |data|)
  }

  /** Copying from the current batch into the data. */
  lemma SpreadCopies(stream: seq<byte>, starts: set<nat>, packets: seq<Packet>, data: seq<byte>, rest: seq<byte>,
                     offset: nat, n: nat)
    requires Spread(stream, starts, packets, data, rest, offset) && n <= |rest|
    ensures Spread(stream, starts, packets, data + rest[..n], rest[n..], offset)
  {
    var lo := Lo(packets, |packets|);
    assert stream[lo..lo + |data| + n] == data + rest[..n];
    assert stream[lo + |data| + n..] == rest[n..];
  }

  /** Flushing a batch when there is no rest, and copying its first n bytes. */
  lemma SpreadFlushes(stream: seq<byte>, starts: set<nat>, packets: seq<Packet>, data: seq<byte>, offset: nat,
                      batch: seq<byte>, n: nat)
    requires Spread(stream, starts, packets, data, [], offset) && 0 < n <= |batch| && |data| < NO_OFFSET
    ensures Spread(stream + batch, starts + {|stream|}, packets, data + batch[..n], batch[n..],
                   if offset == NO_OFFSET then |data| else offset)
  {
    var lo := Lo(packets, |packets|);
    PackedGrows(stream, starts, packets, batch);
    assert (stream + batch)[lo..lo + |data| + n] == data + batch[..n];
    assert (stream + batch)[lo + |data| + n..] == batch[n..];
  }

  lemma SpreadConserves(stream: seq<byte>, starts: set<nat>, packets: seq<Packet>, rest: seq<byte>)
    requires Spread(stream, starts, packets, [], rest, NO_OFFSET)
    ensures stream == Payloads(packets) + rest
  {
    var lo := Lo(packets, |packets|);
    PayloadsAreTheStream(stream, starts, packets, |packets|);
    assert packets[..|packets|] == packets && stream == stream[..lo] + stream[lo..];
  }

  /** Without data there is no batch that started in it. */
  lemma SpreadEmpty(stream: seq<byte>, starts: set<nat>, packets: seq<Packet>, rest: seq<byte>, offset: nat)
    requires Spread(stream, starts, packets, [], rest, offset)
    ensures offset == NO_OFFSET
  {
  }

  lemma DatagramSize(p: Packet)
    ensures |Datagram(p)| == HEADER_SIZE + |p.payload|
  {
  }

  /** Closing a packet. */
  lemma SpreadPacket(stream: seq<byte>, starts: set<nat>, packets: seq<Packet>, data: seq<byte>, rest: seq<byte>,
                     offset: nat, options: nat)
    requires Spread(stream, starts, packets, data, rest, offset) && options < 8 && offset <= NO_OFFSET
    ensures var p := Packet(options, offset, IndexOf(|packets|), data);
      p.Ok() && Spread(stream, starts, packets + [p], [], rest, NO_OFFSET)
  {
    PackedPush(stream, starts, packets, Packet(options, offset, IndexOf(|packets|), data));
  }

  class PGMSender {
    const size: nat  // of the data in the output buffer
    const options: nat
    const serialize: Serializer
    var outBuffer: seq<byte>
    var writeSize: nat
    var nextIndex: uint32
    var current: Option<seq<byte>>
    var currentOffset: nat
    var batches: seq<seq<Message>>  // what the serializer has seen
    ghost var packets: seq<Packet>
    ghost var sent: nat

    ghost function Bytes(): seq<byte> reads this { Stream(serialize, batches) }

    ghost function BatchStarts(): set<nat> reads this { Starts(serialize, batches) }

    /** The rest of the current batch. */
    ghost function Rest(): seq<byte>
      reads this
    {
      if current.Some? && currentOffset <= |current.value| then current.value[currentOffset..] else []
    }

    /** Parameters that never change: the data fits offsets of 13 bits. */
    ghost predicate Set() { 0 < size <= NO_OFFSET && options < 8 && NeverEmpty(serialize) }

    ghost predicate CurrentOk() reads this {
      if current.Some? then currentOffset < |current.value| else currentOffset == 0
    }

    /** Conservation: packets cut the batch stream with consecutive indexes; what is not in packets
        yet is the rest of the current batch; all packets are sent but perhaps the last one, which
        is then in the output buffer. */
    ghost predicate Valid()
      reads this
    {
      && Set() && CurrentOk()
      && Spread(Bytes(), BatchStarts(), packets, [], Rest(), NO_OFFSET)
      && nextIndex == IndexOf(|packets|) && Tagged(packets, options)
      && (if writeSize == 0 then sent == |packets|
          else sent + 1 == |packets| && outBuffer == Datagram(packets[sent]) && writeSize == |outBuffer|)
    }

    constructor (size: nat, options: nat, serialize: Serializer)
      requires 0 < size <= NO_OFFSET && options < 8 && NeverEmpty(serialize)
      ensures Valid() && packets == [] && batches == []
      ensures this.size == size && this.options == options && this.serialize == serialize
    {
      this.size, this.options, this.serialize := size, options, serialize;
      outBuffer, writeSize, nextIndex, current, currentOffset := [], 0, 0, None, 0;
      batches, packets, sent := [], [], 0;
    }

    /** Up to fifty messages are read from the pipe into the serializer. */
    method ReadBatch(answers: seq<Option<Message>>, from: nat) returns (batch: seq<Message>, used: nat)
      requires from <= |answers|
      ensures from <= used <= |answers| && |batch| <= MAX_MESSAGES_PER_TIME
      ensures Found(answers[..used]) == Found(answers[..from]) + batch
      ensures used == BatchEnd(answers, from, MAX_MESSAGES_PER_TIME)
    {
      batch, used := [], from;
      for i := 0 to MAX_MESSAGES_PER_TIME
        invariant from <= used <= |answers| && |batch| <= i
        invariant BatchEnd(answers, from, MAX_MESSAGES_PER_TIME) == BatchEnd(answers, used, MAX_MESSAGES_PER_TIME - i)
        invariant Found(answers[..used]) == Found(answers[..from]) + batch
      {
        if used == |answers| { return; }
        FoundPush(answers, used);
        var msg := answers[used];
        used := used + 1;
        if msg.None? { return; }
        batch := batch + [msg.value];
      }
    }

    /** As much of the current batch as fits is copied behind the data. */
    method Copy(data: seq<byte>) returns (longer: seq<byte>, wbytes: nat)
      requires current.Some? && currentOffset < |current.value| && |data| < size
      modifies this`current, this`currentOffset
      ensures CurrentOk() && |longer| <= size && 0 < wbytes && old(currentOffset) + wbytes <= |old(current).value|
      ensures longer == data + old(current).value[old(currentOffset)..old(currentOffset) + wbytes]
      ensures Rest() == old(current).value[old(currentOffset) + wbytes..]
      ensures |longer| < size ==> Rest() == []
    {
      var content, available := current.value, size - |data|;
      wbytes := |content| - currentOffset;
      wbytes := if wbytes > available then available else wbytes;
      longer := data + content[currentOffset..currentOffset + wbytes];
      currentOffset := currentOffset + wbytes;
      if currentOffset >= |content| {
        current := None;
        currentOffset := 0;
      }
    }

    /** The next batch is read and flushed, unless the pipe is empty. */
    method FlushNext(answers: seq<Option<Message>>, from: nat) returns (ended: bool, used: nat)
      requires Set() && current.None? && currentOffset == 0 && from <= |answers|
      modifies this`current, this`batches
      ensures from <= used <= |answers| && old(batches) <= batches
      ensures forall before: seq<Message> :: Messages(old(batches)) == before + Found(answers[..from]) ==>
        Messages(batches) == before + Found(answers[..used])
      ensures ended ==> current == None && batches == old(batches) && Drained(answers, used)
      ensures !ended ==>
        && current.Some? && current.value != [] && Bytes() == old(Bytes()) + current.value
        && BatchStarts() == old(BatchStarts()) + {|old(Bytes())|}
      ensures from == 0 ==> (ended <==> !Offered(answers)) && (!ended ==> used > 0)
    {
      hide Stream, Starts, Messages, Found, NeverEmpty, BatchEnd, Offered, Drained;
      var batch;
      batch, used := ReadBatch(answers, from);
      ended := batch == [];
      if ended {
        BatchDrains(answers, from, MAX_MESSAGES_PER_TIME);
        if from == 0 { NothingOffered(answers, used); }
        return;
      }
      if from == 0 { NotOffered(answers, used, batch); }
      FlushPush(serialize, batches, batch);
      forall before: seq<Message> | Messages(batches) == before + Found(answers[..from])
        ensures Messages(batches + [batch]) == before + Found(answers[..used])
      {
        assert before + Found(answers[..from]) + batch == before + (Found(answers[..from]) + batch);
      }
      current := Some(serialize(batches, batch));
      batches := batches + [batch];
    }

    /** Filling a packet: batches are flushed and copied until it is full or the pipe is empty. */
    method Fill(answers: seq<Option<Message>>) returns (data: seq<byte>, offset: nat, used: nat)
      requires Set() && CurrentOk() && Spread(Bytes(), BatchStarts(), packets, [], Rest(), NO_OFFSET)
      modifies this`current, this`currentOffset, this`batches
      ensures used <= |answers| && |data| <= size && offset <= NO_OFFSET
      ensures CurrentOk() && Spread(Bytes(), BatchStarts(), packets, data, Rest(), offset)
      ensures old(batches) <= batches && Messages(batches) == Messages(old(batches)) + Found(answers[..used])
      ensures |data| < size ==> Rest() == [] && Drained(answers, used)
      ensures data != [] <==> old(current).Some? || Offered(answers)
      ensures old(current).None? && Offered(answers) ==> used > 0
      ensures data == [] ==> batches == old(batches) && current == old(current)
    {
      hide Spread, Stream, Starts, Messages, Found, NeverEmpty, BatchEnd, Offered, Drained;
      data, offset, used := [], NO_OFFSET, 0;
      NothingFound(answers, old(batches));
      while |data| < size
        invariant used <= |answers| && |data| <= size && offset <= NO_OFFSET
        invariant CurrentOk() && Spread(Bytes(), BatchStarts(), packets, data, Rest(), offset)
        invariant old(batches) <= batches && Messages(batches) == Messages(old(batches)) + Found(answers[..used])
        invariant data == [] ==> used == 0 && batches == old(batches) && current == old(current)
        invariant data != [] && old(current).None? ==> used > 0 && Offered(answers)
        decreases size - |data|
      {
        ghost var (rest0, stream0, starts0) := (Rest(), Bytes(), BatchStarts());
        ghost var (data0, offset0, flushed) := (data, offset, current.None?);
        if current.None? {
          var ended;
          ended, used := FlushNext(answers, used);
          if ended { break; }
          if offset == NO_OFFSET { offset := |data|; }
        }
        ghost var content, at := current.value, currentOffset;
        var wbytes;
        data, wbytes := Copy(data);
        if flushed {
          SpreadFlushes(stream0, starts0, packets, data0, offset0, content, wbytes);
        } else {
          assert rest0 == content[at..] && rest0[..wbytes] == content[at..at + wbytes];
          assert rest0[wbytes..] == content[at + wbytes..];
          SpreadCopies(stream0, starts0, packets, data0, rest0, offset0, wbytes);
        }
      }
    }

    /** OutEvent: if no packet waits, the next one is filled; and one is sent, all of it or nothing. */
    method OutEvent(answers: seq<Option<Message>>, socketTakes: bool) returns (used: nat, datagram: Option<seq<byte>>)
      requires Valid()
      modifies this
      ensures Valid() && used <= |answers|
      ensures old(batches) <= batches && Messages(batches) == Messages(old(batches)) + Found(answers[..used])
      ensures old(packets) <= packets
      ensures match datagram
        case Some(d) => socketTakes && sent == old(sent) + 1 && d == Datagram(packets[old(sent)])
        case None => sent == old(sent)
      ensures socketTakes && datagram == None ==> sent == |packets| && Rest() == []
      ensures socketTakes && (old(writeSize) != 0 || old(Rest()) != [] || Offered(answers)) ==> datagram.Some?
      ensures old(writeSize) != 0 ==> used == 0 && packets == old(packets)
      ensures old(writeSize) == 0 ==>
        |packets| == |old(packets)| + if old(Rest()) != [] || Offered(answers) then 1 else 0
      ensures |packets| > |old(packets)| ==>
        |packets[|packets| - 1].payload| == size || (Rest() == [] && Drained(answers, used))
    {
      hide Spread, Stream, Starts, Messages, Found, NeverEmpty, Datagram, Tagged, IndexOf, Offered, Drained;
      used := 0;
      NothingFound(answers, batches);
      if writeSize == 0 {
        var data, offset;
        data, offset, used := Fill(answers);
        if data == [] {
          assert Rest() == [];
          SpreadEmpty(Bytes(), BatchStarts(), packets, Rest(), offset);
          return used, None;
        }
        var p := Packet(options, offset, nextIndex, data);
        SpreadPacket(Bytes(), BatchStarts(), packets, data, Rest(), offset, options);
        DatagramSize(p);
        TaggedPush(packets, p);
        NextIndex(|packets|);
        outBuffer := Datagram(p);
        writeSize := |outBuffer|;
        nextIndex := (nextIndex + 1) % TWO32;
        packets := packets + [p];
      }
      datagram := None;
      if socketTakes {
        datagram := Some(outBuffer);
        sent := sent + 1;
        writeSize := 0;
      }
    }

    static lemma NothingFound(answers: seq<Option<Message>>, batches: seq<seq<Message>>)
      ensures Messages(batches) + Found(answers[..0]) == Messages(batches)
    {
    }

    static lemma FlushPush(serialize: Serializer, batches: seq<seq<Message>>, batch: seq<Message>)
      requires NeverEmpty(serialize) && batch != []
      ensures serialize(batches, batch) != []
      ensures Stream(serialize, batches + [batch]) == Stream(serialize, batches) + serialize(batches, batch)
      ensures Starts(serialize, batches + [batch]) == Starts(serialize, batches) + {|Stream(serialize, batches)|}
      ensures Messages(batches + [batch]) == Messages(batches) + batch
    {
      StreamPush(serialize, batches, batch);
      MessagesPush(batches, batch);
    }

    /** The packets cut the batch stream, and all have the sender's options. */
    lemma PacketsFit()
      requires Valid()
      ensures Packed(Bytes(), BatchStarts(), packets) && Tagged(packets, options) && sent <= |packets|
    {
      hide Stream, Starts;
    }

    /** The stream is in the packets sent, then in the output buffer, then in the current batch. */
    lemma BytesAreConserved()
      requires Valid()
      ensures Bytes() == Payloads(packets[..sent])
        + (if writeSize == 0 then [] else packets[sent].payload) + Rest()
    {
      hide Spread, Stream, Starts;
      SpreadConserves(Bytes(), BatchStarts(), packets, Rest());
      if writeSize == 0 {
        assert packets[..sent] == packets && Payloads(packets) + [] == Payloads(packets);
      }
    }
  }

  // ---- The pushing side

  function Concat(parts: seq<Message>): seq<byte> {
    if parts == [] then [] else Concat(parts[..|parts| - 1]) + parts[|parts| - 1]
  }

  lemma ConcatPush(parts: seq<Message>, part: Message)
    ensures Concat(parts + [part]) == Concat(parts) + part
  {
    assert (parts + [part])[..|parts|] == parts;
  }

  /** A written message is whole pushes, together no larger than the cache, or one push by itself. */
  ghost predicate WrittenOk(cacheSize: nat, msg: Message, group: seq<Message>) {
    msg == Concat(group) && (|msg| <= cacheSize || |group| == 1)
  }

  ghost predicate GroupsOk(cacheSize: nat, written: seq<Message>, groups: seq<seq<Message>>) {
    |groups| == |written| && forall i :: 0 <= i < |written| ==> WrittenOk(cacheSize, written[i], groups[i])
  }

  /** The pushing thread's part of the sender: a cached message, and the pipe it is written to. */
  class Pusher {
    const cacheSize: nat
    var cache: Option<Message>
    var written: seq<Message>  // to the pipe
    var pipeOpen: bool
    ghost var groups: seq<seq<Message>>  // what was pushed, by written message
    ghost var cached: seq<Message>       // what was pushed into the cache

    ghost predicate Valid()
      reads this
    {
      && GroupsOk(cacheSize, written, groups)
      && (if cache.Some? then cache.value == Concat(cached) && |cache.value| <= cacheSize else cached == [])
    }

    /** All that was pushed and is written or pending. */
    ghost function Pushed(): seq<Message> reads this { Messages(groups) + cached }

    constructor (cacheSize: nat)
      ensures Valid() && this.cacheSize == cacheSize && pipeOpen && cache == None && written == []
    {
      this.cacheSize := cacheSize;
      cache, written, pipeOpen := None, [], true;
      groups, cached := [], [];
    }

    /** The pipe takes a message unless it was terminated. */
    method Write(msg: Message, ghost group: seq<Message>) returns (ok: bool)
      requires Valid() && WrittenOk(cacheSize, msg, group)
      modifies this`written, this`groups
      ensures Valid() && ok == pipeOpen
      ensures ok ==> written == old(written) + [msg] && Messages(groups) == Messages(old(groups)) + group
      ensures !ok ==> written == old(written) && groups == old(groups)
    {
      hide Concat, Messages;
      ok := pipeOpen;
      if ok {
        MessagesPush(groups, group);
        written := written + [msg];
        groups := groups + [group];
      }
    }

    /** The cached message goes to the pipe, or with the pipe. */
    method WriteCache() returns (ok: bool)
      requires Valid() && cache.Some?
      modifies this
      ensures Valid() && ok == pipeOpen == old(pipeOpen) && cache == None && cached == []
      ensures ok ==> written == old(written) + [old(cache).value] && Pushed() == old(Pushed())
      ensures !ok ==> written == old(written) && groups == old(groups)
    {
      hide Concat, Messages, GroupsOk;
      EmptyConcat();
      ok := Write(cache.value, cached);
      assert Messages(groups) + [] == Messages(groups);
      cache := None;
      cached := [];
    }

    static lemma EmptyConcat()
      ensures Concat([]) == []
    {
    }

    /** PushMessage. While the pipe is open nothing pushed is lost, split or reordered. When it is
        closed, nothing is written, and a push that does not fit the cache loses what was cached. */
    method PushMessage(content: Message) returns (ok: bool)
      requires Valid()
      modifies this
      ensures Valid() && pipeOpen == old(pipeOpen) && old(written) <= written
      ensures pipeOpen ==> ok && Pushed() == old(Pushed()) + [content]
      ensures old(cache).Some? && |content| + |old(cache).value| <= cacheSize ==>
        written == old(written) && cache == Some(old(cache).value + content)
      ensures pipeOpen && !(old(cache).Some? && |content| + |old(cache).value| <= cacheSize) ==>
        && written == old(written) + (if old(cache).Some? then [old(cache).value] else [])
             + (if |content| >= cacheSize then [content] else [])
        && cache == if |content| >= cacheSize then None else Some(content)
      ensures !pipeOpen ==> written == old(written)
      ensures !pipeOpen ==>
        ok == if old(cache).Some? then |content| + |old(cache).value| <= cacheSize else |content| < cacheSize
      ensures !ok ==> cache == None
    {
      hide Concat, Messages, GroupsOk;
      if cache.Some? {
        if |content| + |cache.value| <= cacheSize {
          ConcatPush(cached, content);
          cache := Some(cache.value + content);
          cached := cached + [content];
          assert Pushed() == old(Pushed()) + [content];
          return true;
        }
        ok := WriteCache();
        if !ok { return; }
      }
      ConcatOne(content);
      if |content| >= cacheSize {
        ok := Write(content, [content]);
        assert Messages(groups) + [] == Messages(groups);
        return;
      }
      cache := Some(content);
      cached := [content];
      ok := true;
    }

    static lemma ConcatOne(content: Message)
      ensures Concat([content]) == content
    {
      ConcatPush([], content);
      assert [] + [content] == [content] && [] + content == content;
    }

    /** EndPush leaves nothing pending. */
    method EndPush() returns (ok: bool)
      requires Valid()
      modifies this
      ensures Valid() && pipeOpen == old(pipeOpen) && cache == None
      ensures pipeOpen ==> ok && Messages(groups) == old(Pushed()) && Pushed() == old(Pushed())
      ensures pipeOpen ==> written == old(written) + if old(cache).Some? then [old(cache).value] else []
      ensures !pipeOpen ==> written == old(written)
    {
      hide Concat, Messages, GroupsOk;
      ok := true;
      assert Messages(groups) + [] == Messages(groups);
      if cache.Some? {
        ok := WriteCache();
        assert Messages(groups) + [] == Messages(groups);
      }
    }

    /** Coalescing conserves: the pipe's messages and then the cache are, byte for byte, the pushes. */
    lemma PushedBytes()
      requires Valid()
      ensures Concat(written) + (if cache.Some? then cache.value else []) == Concat(Pushed())
    {
      WrittenBytes(|written|);
      assert written[..|written|] == written && groups[..|groups|] == groups;
      ConcatOfSum(Messages(groups), cached);
    }

    lemma {:induction false} WrittenBytes(n: nat)
      requires Valid() && n <= |written|
      ensures Concat(written[..n]) == Concat(Messages(groups[..n]))
    {
      hide Concat, Messages, Valid;
      ValidGroups();
      if n == 0 {
        assert written[..0] == [] && groups[..0] == [];
        NoBytes();
      } else {
        WrittenBytes(n - 1);
        assert WrittenOk(cacheSize, written[n - 1], groups[n - 1]);
        assert written[..n] == written[..n - 1] + [written[n - 1]] && groups[..n] == groups[..n - 1] + [groups[n - 1]];
        ConcatPush(written[..n - 1], written[n - 1]);
        MessagesPush(groups[..n - 1], groups[n - 1]);
        ConcatOfSum(Messages(groups[..n - 1]), groups[n - 1]);
      }
    }

    lemma ValidGroups()
      requires Valid()
      ensures GroupsOk(cacheSize, written, groups)
    {
    }
  }

  lemma NoBytes()
    ensures Concat([]) == [] == Concat(Messages([]))
  {
  }

  lemma {:induction false} ConcatOfSum(a: seq<Message>, b: seq<Message>)
    ensures Concat(a + b) == Concat(a) + Concat(b)
    decreases |b|
  {
    if b == [] {
      assert a + b == a && Concat(a) + [] == Concat(a);
    } else {
      hide Concat;
      var front, last := b[..|b| - 1], b[|b| - 1];
      ConcatOfSum(a, front);
      ConcatPush(a + front, last);
      ConcatPush(front, last);
      assert a + b == a + front + [last] && b == front + [last];
      assert Concat(a) + (Concat(front) + last) == Concat(a) + Concat(front) + last;
    }
  }
}
