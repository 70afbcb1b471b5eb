/** Where the messages of one allocator go (src/pipe.cpp, src/message_allocator.cpp): the writing
    thread allocates them and writes them to the pipe, the reading thread takes them out and gives
    them back through the idle queue. A turn is one step of one of the threads: one call of one of
    the two queues, and what the thread does by itself until its next. Both queues are the atomic
    queue of module Fifo. */
module MessageFlows {

  import opened Options
  import opened Fifo
  import opened SizeClasses
  import opened MessageAllocators

  /** A message was handed out by Allocate, or given back. */
  datatype Use = Allocated(msg: Message) | GivenBack(msg: Message)

  /** Handed out and not given back, from the history alone. */
  function InUseAfter(history: seq<Use>): set<Message> {
    if history == [] then {}
    else
      var before := InUseAfter(history[..|history| - 1]);
      match history[|history| - 1]
      case Allocated(msg) => before + {msg}
      case GivenBack(msg) => before - {msg}
  }

  /** Only what is not in use is handed out, and only what is in use is given back. */
  ghost predicate WellUsed(history: seq<Use>) {
    history == [] ||
    (var before := history[..|history| - 1];
     && WellUsed(before)
     && match history[|history| - 1]
        case Allocated(msg) => msg !in InUseAfter(before)
        case GivenBack(msg) => msg in InUseAfter(before))
  }

  lemma OneMoreUse(history: seq<Use>, use: Use)
    ensures InUseAfter(history + [use])
         == if use.Allocated? then InUseAfter(history) + {use.msg} else InUseAfter(history) - {use.msg}
    ensures WellUsed(history + [use])
       <==> WellUsed(history) && (use.Allocated? <==> use.msg !in InUseAfter(history))
  {
    assert (history + [use])[..|history|] == history;
  }

  /** What one turn does to the messages in use. */
  predicate Used(before: set<Message>, use: Option<Use>, after: set<Message>) {
    match use
    case None => after == before
    case Some(Allocated(msg)) => msg !in before && after == before + {msg}
    case Some(GivenBack(msg)) => msg in before && after == before - {msg}
  }

  /** Every message in use is in exactly one of three places. */
  ghost predicate Parted(inHands: set<Message>, writer: set<Message>, underway: set<Message>, reader: set<Message>) {
    inHands == writer + underway + reader && writer !! underway !! reader
  }

  lemma PartMoved(inHands: set<Message>, writer: set<Message>, underway: set<Message>, reader: set<Message>,
                  some: set<Message>)
    requires Parted(inHands, writer, underway, reader)
    ensures some <= writer ==> Parted(inHands, writer - some, underway + some, reader)
    ensures some <= underway ==>
      Parted(inHands, writer + some, underway - some, reader) && Parted(inHands, writer, underway - some, reader + some)
  {
  }

  lemma PartGrown(inHands: set<Message>, writer: set<Message>, underway: set<Message>, reader: set<Message>,
                  msg: Message)
    requires Parted(inHands, writer, underway, reader)
    ensures msg !in inHands ==> Parted(inHands + {msg}, writer + {msg}, underway, reader)
    ensures msg in writer ==> Parted(inHands - {msg}, writer - {msg}, underway, reader)
    ensures msg in reader ==> Parted(inHands - {msg}, writer, underway, reader - {msg})
    ensures msg in writer + underway + reader ==> msg in inHands
    ensures msg in writer ==> msg !in underway
  {
  }

  /** The messages among the items of a pipe; a null is the delimiter. */
  function Messages(items: seq<Option<Message>>): set<Message> {
    set item | item in items && item.Some? :: item.value
  }

  ghost predicate EachOnce(items: seq<Option<Message>>) {
    forall j, k :: 0 <= j < k < |items| && items[j].Some? ==> items[j] != items[k]
  }

  function Own(item: Option<Message>): set<Message> { if item.Some? then {item.value} else {} }

  lemma Joined(items: seq<Option<Message>>, item: Option<Message>)
    requires EachOnce(items) && Own(item) !! Messages(items)
    ensures EachOnce(items + [item]) && Messages(items + [item]) == Messages(items) + Own(item)
  {
    forall m | m in Messages(items) + Own(item) ensures m in Messages(items + [item]) {
      assert Some(m) in items + [item];
    }
    forall j | 0 <= j < |items| && items[j].Some? ensures items[j] != item {
      assert items[j].value in Messages(items);
    }
  }

  lemma FirstGone(items: seq<Option<Message>>)
    requires EachOnce(items) && items != []
    ensures EachOnce(items[1..]) && Messages(items[1..]) == Messages(items) - Own(items[0])
    ensures Own(items[0]) <= Messages(items)
  {
    var item, rest := items[0], items[1..];
    forall m | m in Messages(items) - Own(item) ensures m in Messages(rest) {
      assert Some(m) in [item] + rest;
    }
    forall j | 0 <= j < |rest| && rest[j].Some? ensures rest[j] != item {
      assert rest[j] == items[j + 1];
    }
  }

  lemma LastGone(items: seq<Option<Message>>)
    requires EachOnce(items) && items != []
    ensures var n := |items| - 1;
      && EachOnce(items[..n]) && Messages(items[..n]) == Messages(items) - Own(items[n])
      && Own(items[n]) <= Messages(items)
  {
    var item, rest := items[|items| - 1], items[..|items| - 1];
    forall m | m in Messages(items) - Own(item) ensures m in Messages(rest) {
      assert Some(m) in rest + [item];
    }
  }

  /** Consuming: Allocate found its free list empty, and looks at the idle queue; Fetching: there is
      something in it; Holding: a message came out of it. */
  datatype WriterPc =
    | WQuiet
    | Flushing(closing: bool)
    | Consuming(capacity: bv32)
    | Fetching(capacity: bv32)
    | Holding(capacity: bv32, msg: Message)

  datatype ReaderPc = RQuiet | Taking | Recycling

  /** A client gives back, writes or recycles any message that it holds. */
  datatype Turn =
    | Allocate(capacity: bv32)
    | Release
    | Write(incomplete: bool)
    | Unwrite
    | Terminate
    | WriterGo
    | Read
    | Recycle
    | ReaderGo

  /** What a scheduler can see of the two threads between two turns. */
  datatype Snapshot = Snapshot(
    pipe: Fifo<Option<Message>>, terminated: bool, peerTerminated: bool, wpc: WriterPc, rpc: ReaderPc,
    writer: set<Message>, reader: set<Message>, idle: Fifo<Message>, place: map<Message, Place>)

  /** A message that was asked for: of the class of its capacity, with room; of no class beyond the
      largest. */
  ghost predicate Serves(msg: Message, capacity: bv32) {
    if capacity > LARGEST then msg.index == -1 && msg.capacity == capacity
    else msg.index == ClassOf(capacity) && RoomFor(capacity, msg.capacity)
  }

  ghost predicate NoneFree(s: Snapshot, capacity: bv32) {
    capacity <= LARGEST && forall m :: m in s.place && m.index == ClassOf(capacity) ==> s.place[m] != Free
  }

  /** Allocate returns: the writer has the message. */
  function HandedOut(s: Snapshot, msg: Message): Snapshot {
    s.(writer := s.writer + {msg}, wpc := WQuiet, place := s.place[msg := InUse])
  }

  /** A message leaves its client: it is deleted if it is of no class. */
  function Returned(place: map<Message, Place>, msg: Message, to: Place): map<Message, Place> {
    if msg.index < 0 then place - {msg} else place[msg := to]
  }

  function Written(s: Snapshot, msg: Message, incomplete: bool): Snapshot {
    if s.terminated then s
    else s.(pipe := s.pipe.Write(Some(msg), incomplete), writer := s.writer - {msg},
            wpc := if incomplete then WQuiet else Flushing(false))
  }

  function TakenBack(s: Snapshot): Snapshot {
    match s.pipe.Unwrite().1
    case Some(Some(msg)) => s.(pipe := s.pipe.Unwrite().0, writer := s.writer + {msg})
    case _ => s.(pipe := s.pipe.Unwrite().0)
  }

  function Closed(s: Snapshot): Snapshot {
    if s.terminated then s else s.(pipe := s.pipe.Write(None, false), wpc := Flushing(true))
  }

  function Fetched(s: Snapshot): Snapshot
    requires s.idle.Take().1.Some? && s.wpc.Fetching?
  {
    var msg := s.idle.Take().1.value;
    s.(idle := s.idle.Take().0, wpc := Holding(s.wpc.capacity, msg), place := s.place[msg := Held])
  }

  function Recycled(s: Snapshot, msg: Message): Snapshot {
    var given := s.(reader := s.reader - {msg}, place := Returned(s.place, msg, Idle));
    if msg.index < 0 then given else given.(idle := s.idle.Write(msg, false), rpc := Recycling)
  }

  function ReadOut(s: Snapshot): Snapshot {
    var taken := s.(pipe := s.pipe.Take().0, rpc := RQuiet);
    match s.pipe.Take().1
    case Some(Some(msg)) => taken.(reader := s.reader + {msg})
    case Some(None) => taken.(peerTerminated := true)
    case None => taken
  }

  /** The writer's next step of a call under way: the flush of a write, or one step of the loop that
      empties the idle queue. */
  ghost predicate WriterWent(s: Snapshot, use: Option<Use>, t: Snapshot) {
    match s.wpc
    case WQuiet => use == None && t == s
    case Flushing(closing) =>
      use == None && t == s.(pipe := s.pipe.Flush().0, terminated := s.terminated || closing, wpc := WQuiet)
    case Consuming(capacity) =>
      var looked := s.(idle := s.idle.CheckRead().0);
      if s.idle.CheckRead().1 then use == None && t == looked.(wpc := Fetching(capacity))
      else use.Some? && use.value.Allocated? && Serves(use.value.msg, capacity) && t == HandedOut(looked, use.value.msg)
    case Fetching(_) => use == None && s.idle.Take().1.Some? && t == Fetched(s)
    case Holding(capacity, msg) => use == None && t == s.(wpc := Consuming(capacity), place := s.place[msg := Free])
  }

  ghost predicate ReaderWent(s: Snapshot, use: Option<Use>, t: Snapshot) {
    && use == None
    && match s.rpc
       case RQuiet => t == s
       case Taking => t == ReadOut(s)
       case Recycling => t == s.(idle := s.idle.Flush().0, rpc := RQuiet)
  }

  /** Every turn that its thread can take is taken; any other does nothing. */
  ghost predicate Taken(s: Snapshot, turn: Turn, use: Option<Use>, t: Snapshot) {
    match turn
    case WriterGo => WriterWent(s, use, t)
    case ReaderGo => ReaderWent(s, use, t)
    case Read =>
      && use == None
      && t == if !s.rpc.RQuiet? || s.peerTerminated then s
              else s.(pipe := s.pipe.CheckRead().0, rpc := if s.pipe.CheckRead().1 then Taking else RQuiet)
    case Recycle =>
      if !s.rpc.RQuiet? || s.reader == {} then use == None && t == s
      else exists m :: m in s.reader && use == Some(GivenBack(m)) && t == Recycled(s, m)
    case _ =>
      if s.wpc.WQuiet? then Called(s, turn, use, t) else use == None && t == s
  }

  /** A call of the writer begins. */
  ghost predicate Called(s: Snapshot, turn: Turn, use: Option<Use>, t: Snapshot) {
    match turn
    case Allocate(capacity) =>
      if use == None then NoneFree(s, capacity) && t == s.(wpc := Consuming(capacity))
      else use.value.Allocated? && Serves(use.value.msg, capacity) && t == HandedOut(s, use.value.msg)
    case Release =>
      if s.writer == {} then use == None && t == s
      else exists m :: m in s.writer && use == Some(GivenBack(m))
             && t == s.(writer := s.writer - {m}, place := Returned(s.place, m, Free))
    case Write(incomplete) =>
      && use == None
      && if s.writer == {} then t == s else exists m :: m in s.writer && t == Written(s, m, incomplete)
    case Unwrite => use == None && t == TakenBack(s)
    case Terminate => use == None && t == Closed(s)
    case _ => true
  }

  ghost predicate AllTaken(trace: seq<Snapshot>, turns: seq<Turn>, uses: seq<Option<Use>>)
    decreases |turns|
  {
    && |uses| == |turns| && |trace| == |turns| + 1
    && (turns == [] ||
        (var n := |turns| - 1;
         Taken(trace[n], turns[n], uses[n], trace[n + 1]) && AllTaken(trace[..n + 1], turns[..n], uses[..n])))
  }

  function Present<X>(events: seq<Option<X>>): seq<X> {
    if events == [] then []
    else
      var before := Present(events[..|events| - 1]);
      if events[|events| - 1].Some? then before + [events[|events| - 1].value] else before
  }

  lemma OneMoreTurn(trace: seq<Snapshot>, turns: seq<Turn>, uses: seq<Option<Use>>, turn: Turn, use: Option<Use>,
                    after: Snapshot)
    requires AllTaken(trace, turns, uses) && Taken(trace[|turns|], turn, use, after)
    ensures AllTaken(trace + [after], turns + [turn], uses + [use])
    ensures Present(uses + [use]) == Present(uses) + if use.Some? then [use.value] else []
  {
    hide Taken;
    var n := |turns|;
    assert (trace + [after])[..n + 1] == trace && (turns + [turn])[..n] == turns && (uses + [use])[..n] == uses;
  }

  class MessageFlow {
    const allocator: MessageAllocator
    var pipe: Fifo<Option<Message>>
    var terminated: bool      // the writer's end
    var peerTerminated: bool  // the reader's end
    var wpc: WriterPc
    var rpc: ReaderPc
    var writer: set<Message>  // what the writing thread holds
    var reader: set<Message>  // what the reading thread holds

    /** Every message in use is with the writer, in the pipe or with the reader, and in one of them
        only; all others are where the allocator says. A thread that has seen an item still finds it. */
    ghost predicate Valid()
      reads this, allocator, allocator.freeLists, allocator.place.Keys
    {
      && allocator.Valid() && pipe.Valid() && Owned() && PipeOk() && Going()
    }

    /** The items written to the pipe and not read. */
    ghost function Underway(): seq<Option<Message>>
      reads this
      requires pipe.Valid()
    {
      pipe.items[pipe.taken..]
    }

    ghost predicate Owned()
      reads this, allocator
      requires pipe.Valid()
    {
      && Parted(allocator.InHands(), writer, Messages(Underway()), reader)
      && allocator.HeldByOwner() == if wpc.Holding? then {wpc.msg} else {}
    }

    ghost predicate PipeOk()
      reads this
      requires pipe.Valid()
    {
      && EachOnce(Underway())
      && (rpc.Taking? ==> pipe.taken < pipe.published)
    }

    ghost predicate Going()
      reads this, allocator
    {
      && (wpc.Consuming? || wpc.Fetching? || wpc.Holding? ==> allocator.enableRecycle && wpc.capacity <= LARGEST)
      && (wpc.Fetching? ==> allocator.idle.taken < allocator.idle.published)
      && (wpc.Holding? ==> wpc.msg.index >= 0)
    }

    ghost function Now(): Snapshot reads this, allocator {
      Snapshot(pipe, terminated, peerTerminated, wpc, rpc, writer, reader, allocator.idle, allocator.place)
    }

    constructor (enableRecycle: bool)
      ensures Valid() && fresh(allocator) && fresh(allocator.freeLists) && allocator.place == map[]
      ensures allocator.enableRecycle == enableRecycle
      ensures Now() == Snapshot(Empty(), false, false, WQuiet, RQuiet, {}, {}, Empty(), map[])
    {
      allocator := new MessageAllocator(enableRecycle);
      pipe, terminated, peerTerminated := Empty(), false, false;
      wpc, rpc, writer, reader := WQuiet, RQuiet, {}, {};
    }

    // ---- The writing thread

    /** Allocate returns a message from the free list, or else a new one. */
    method Hand(capacity: bv32) returns (use: Option<Use>)
      requires Valid() && capacity <= LARGEST && (wpc.WQuiet? || wpc.Consuming?)
      requires allocator.enableRecycle && allocator.freeLists[ClassOf(capacity)] == null ==>
        allocator.idle.taken == allocator.idle.published
      modifies this, allocator, allocator.freeLists, allocator.place.Keys
      ensures Valid() && fresh(allocator.place.Keys - old(allocator.place.Keys))
      ensures use.Some? && use.value.Allocated? && wpc == WQuiet
      ensures Used(old(allocator.InHands()), use, allocator.InHands())
      ensures use.Some? && use.value.Allocated? && Serves(use.value.msg, capacity)
      ensures use.value.msg !in old(allocator.place) ==> old(allocator.NoneLeft(ClassOf(capacity)))
      ensures Now() == HandedOut(old(Now()), use.value.msg)
    {
      hide Parted, Messages, EachOnce, MessageAllocator.Valid, MessageAllocator.InHands, MessageAllocator.HeldByOwner;
      hide RoomFor, ClassOf, ClassSize;
      ClassFits(capacity);
      var index := ClassOf(capacity);
      allocator.Head(index);
      var msg;
      if allocator.freeLists[index] != null {
        msg := allocator.PopFree(index);
      } else {
        allocator.EmptyList(index);
        msg := allocator.Make(index, ClassSize(index));
      }
      PartGrown(old(allocator.InHands()), writer, Messages(Underway()), reader, msg);
      writer, wpc := writer + {msg}, WQuiet;
      use := Some(Allocated(msg));
    }

    method StartAllocate(capacity: bv32) returns (use: Option<Use>)
      requires Valid() && wpc.WQuiet? && capacity < 0x8000_0000
      modifies this, allocator, allocator.freeLists, allocator.place.Keys
      ensures Valid() && fresh(allocator.place.Keys - old(allocator.place.Keys))
      ensures Used(old(allocator.InHands()), use, allocator.InHands())
      ensures if use == None then Now() == old(Now()).(wpc := Consuming(capacity)) && NoneFree(old(Now()), capacity)
        else use.value.Allocated? && Serves(use.value.msg, capacity) && Now() == HandedOut(old(Now()), use.value.msg)
    {
      hide Parted, Messages, EachOnce, MessageAllocator.Valid, MessageAllocator.InHands, MessageAllocator.HeldByOwner;
      hide ClassOf;
      if capacity > LARGEST {
        var msg := allocator.Make(-1, capacity);
        PartGrown(old(allocator.InHands()), writer, Messages(Underway()), reader, msg);
        writer := writer + {msg};
        return Some(Allocated(msg));
      }
      ClassFits(capacity);
      allocator.Head(ClassOf(capacity));
      if allocator.freeLists[ClassOf(capacity)] == null && allocator.enableRecycle {
        allocator.ListOfNone(ClassOf(capacity));
        wpc := Consuming(capacity);
        return None;
      }
      use := Hand(capacity);
    }

    /** The writer gives back a message itself. */
    method StartRelease(msg: Message) returns (use: Option<Use>)
      requires Valid() && wpc.WQuiet? && msg in writer
      modifies this, allocator, allocator.freeLists, allocator.place.Keys
      ensures Valid() && fresh(allocator.place.Keys - old(allocator.place.Keys))
      ensures Used(old(allocator.InHands()), use, allocator.InHands())
      ensures use == Some(GivenBack(msg))
      ensures Now() == old(Now()).(writer := old(writer) - {msg}, place := Returned(old(allocator.place), msg, Free))
    {
      hide Parted, Messages, EachOnce, MessageAllocator.Valid, MessageAllocator.InHands, MessageAllocator.HeldByOwner;
      allocator.Where(msg);
      PartGrown(allocator.InHands(), writer, Messages(Underway()), reader, msg);
      allocator.Release(msg);
      writer := writer - {msg};
      use := Some(GivenBack(msg));
    }

    /** After Terminate the message stays with the writer. */
    method StartWrite(msg: Message, incomplete: bool) returns (use: Option<Use>)
      requires Valid() && wpc.WQuiet? && msg in writer
      modifies this, allocator, allocator.freeLists, allocator.place.Keys
      ensures Valid() && fresh(allocator.place.Keys - old(allocator.place.Keys))
      ensures Used(old(allocator.InHands()), use, allocator.InHands())
      ensures use == None && Now() == Written(old(Now()), msg, incomplete)
    {
      hide Parted, Messages, EachOnce, MessageAllocator.Valid, MessageAllocator.InHands, MessageAllocator.HeldByOwner;
      use := None;
      if terminated { return; }
      allocator.Where(msg);
      PartGrown(allocator.InHands(), writer, Messages(Underway()), reader, msg);
      PartMoved(allocator.InHands(), writer, Messages(Underway()), reader, {msg});
      Joined(Underway(), Some(msg));
      pipe := pipe.Write(Some(msg), incomplete);
      assert Underway() == old(Underway()) + [Some(msg)];
      writer := writer - {msg};
      if !incomplete { wpc := Flushing(false); }
    }

    method StartUnwrite() returns (use: Option<Use>)
      requires Valid() && wpc.WQuiet?
      modifies this, allocator, allocator.freeLists, allocator.place.Keys
      ensures Valid() && fresh(allocator.place.Keys - old(allocator.place.Keys))
      ensures Used(old(allocator.InHands()), use, allocator.InHands())
      ensures use == None && Now() == TakenBack(old(Now()))
    {
      hide Parted, Messages, EachOnce, MessageAllocator.Valid, MessageAllocator.InHands, MessageAllocator.HeldByOwner;
      use := None;
      var (after, item) := pipe.Unwrite();
      if item == None { return; }
      assert item.value == Underway()[|Underway()| - 1];
      LastGone(Underway());
      PartMoved(allocator.InHands(), writer, Messages(Underway()), reader, Own(item.value));
      pipe := after;
      assert Underway() == old(Underway())[..|old(Underway())| - 1];
      writer := writer + Own(item.value);
    }

    method StartTerminate() returns (use: Option<Use>)
      requires Valid() && wpc.WQuiet?
      modifies this, allocator, allocator.freeLists, allocator.place.Keys
      ensures Valid() && fresh(allocator.place.Keys - old(allocator.place.Keys))
      ensures Used(old(allocator.InHands()), use, allocator.InHands())
      ensures use == None && Now() == Closed(old(Now()))
    {
      hide Parted, Messages, EachOnce, MessageAllocator.Valid, MessageAllocator.InHands, MessageAllocator.HeldByOwner;
      use := None;
      if terminated { return; }
      Joined(Underway(), None);
      pipe := pipe.Write(None, false);
      assert Underway() == old(Underway()) + [None];
      assert Messages(Underway()) == old(Messages(Underway()));
      wpc := Flushing(true);
    }

    method FlushPipe() returns (use: Option<Use>)
      requires Valid() && wpc.Flushing?
      modifies this, allocator, allocator.freeLists, allocator.place.Keys
      ensures Valid() && fresh(allocator.place.Keys - old(allocator.place.Keys))
      ensures Used(old(allocator.InHands()), use, allocator.InHands())
      ensures use == None
      ensures Now() == old(Now()).(
        pipe := old(pipe).Flush().0, terminated := old(terminated) || old(wpc).closing, wpc := WQuiet)
    {
      hide Parted, Messages, EachOnce, MessageAllocator.Valid, MessageAllocator.InHands, MessageAllocator.HeldByOwner;
      use := None;
      pipe := pipe.Flush().0;
      assert Underway() == old(Underway());
      terminated, wpc := terminated || wpc.closing, WQuiet;
    }

    /** The loop of ConsumeIdleQueue: the queue is looked at, a message is taken, and it is freed. */
    method LookForIdle() returns (use: Option<Use>)
      requires Valid() && wpc.Consuming?
      modifies this, allocator, allocator.freeLists, allocator.place.Keys
      ensures Valid() && fresh(allocator.place.Keys - old(allocator.place.Keys))
      ensures Used(old(allocator.InHands()), use, allocator.InHands())
      ensures var looked := old(Now()).(idle := old(allocator.idle).CheckRead().0);
        if old(allocator.idle).CheckRead().1
        then use == None && Now() == looked.(wpc := Fetching(old(wpc).capacity))
        else
          && use.Some? && use.value.Allocated? && Serves(use.value.msg, old(wpc).capacity)
          && Now() == HandedOut(looked, use.value.msg)
      ensures use.Some? && use.value.msg !in old(allocator.place) ==> old(allocator.NoneLeft(ClassOf(wpc.capacity)))
    {
      hide Parted, Messages, EachOnce, MessageAllocator.Valid, MessageAllocator.InHands, MessageAllocator.HeldByOwner;
      hide ClassOf, Loose;
      var capacity := wpc.capacity;
      allocator.ValidQueue();
      var available := allocator.CheckIdle();
      assert allocator.NoneLeft(ClassOf(capacity)) == old(allocator.NoneLeft(ClassOf(wpc.capacity)));
      if !available {
        use := Hand(capacity);
        return;
      }
      wpc := Fetching(capacity);
      use := None;
    }

    method FetchIdle() returns (use: Option<Use>)
      requires Valid() && wpc.Fetching?
      modifies this, allocator, allocator.freeLists, allocator.place.Keys
      ensures Valid() && fresh(allocator.place.Keys - old(allocator.place.Keys))
      ensures Used(old(allocator.InHands()), use, allocator.InHands())
      ensures use == None && old(allocator.idle).Take().1.Some? && Now() == Fetched(old(Now()))
    {
      hide Parted, Messages, EachOnce, MessageAllocator.Valid, MessageAllocator.InHands, MessageAllocator.HeldByOwner;
      var capacity := wpc.capacity;
      var msg := allocator.TakeIdle();
      wpc := Holding(capacity, msg);
      use := None;
    }

    method FreeHeld() returns (use: Option<Use>)
      requires Valid() && wpc.Holding?
      modifies this, allocator, allocator.freeLists, allocator.place.Keys
      ensures Valid() && fresh(allocator.place.Keys - old(allocator.place.Keys))
      ensures Used(old(allocator.InHands()), use, allocator.InHands())
      ensures use == None
      ensures Now() == old(Now()).(
        wpc := Consuming(old(wpc).capacity), place := old(allocator.place)[old(wpc).msg := Free])
    {
      hide Parted, Messages, EachOnce, MessageAllocator.Valid, MessageAllocator.InHands, MessageAllocator.HeldByOwner;
      allocator.Where(wpc.msg);
      allocator.PushFree(wpc.msg);
      assert allocator.InHands() == old(allocator.InHands()) && allocator.HeldByOwner() == {};
      wpc := Consuming(wpc.capacity);
      use := None;
    }

    /** The next step of a call that is under way. */
    method WriterGoes() returns (use: Option<Use>)
      requires Valid()
      modifies this, allocator, allocator.freeLists, allocator.place.Keys
      ensures Valid() && fresh(allocator.place.Keys - old(allocator.place.Keys))
      ensures Used(old(allocator.InHands()), use, allocator.InHands())
      ensures WriterWent(old(Now()), use, Now())
    {
      hide Valid;
      use := None;
      match wpc
      case WQuiet =>
      case Flushing(_) => use := FlushPipe();
      case Consuming(_) => use := LookForIdle();
      case Fetching(_) => use := FetchIdle();
      case Holding(_, _) => use := FreeHeld();
    }

    // ---- The reading thread

    method StartRead() returns (use: Option<Use>)
      requires Valid() && rpc.RQuiet?
      modifies this, allocator, allocator.freeLists, allocator.place.Keys
      ensures Valid() && fresh(allocator.place.Keys - old(allocator.place.Keys))
      ensures Used(old(allocator.InHands()), use, allocator.InHands())
      ensures use == None
      ensures Now() == if old(peerTerminated) then old(Now())
        else old(Now()).(pipe := old(pipe).CheckRead().0, rpc := if old(pipe).CheckRead().1 then Taking else RQuiet)
    {
      hide Parted, Messages, EachOnce, MessageAllocator.Valid, MessageAllocator.InHands, MessageAllocator.HeldByOwner;
      use := None;
      if peerTerminated { return; }
      var (after, available) := pipe.CheckRead();
      pipe := after;
      assert Underway() == old(Underway());
      if available { rpc := Taking; }
    }

    /** The reader gives back a message through the idle queue of the writer's allocator. */
    method StartRecycle(msg: Message) returns (use: Option<Use>)
      requires Valid() && rpc.RQuiet? && msg in reader
      modifies this, allocator, allocator.freeLists, allocator.place.Keys
      ensures Valid() && fresh(allocator.place.Keys - old(allocator.place.Keys))
      ensures Used(old(allocator.InHands()), use, allocator.InHands())
      ensures use == Some(GivenBack(msg)) && Now() == Recycled(old(Now()), msg)
    {
      hide Parted, Messages, EachOnce, MessageAllocator.Valid, MessageAllocator.InHands, MessageAllocator.HeldByOwner;
      allocator.Where(msg);
      PartGrown(allocator.InHands(), writer, Messages(Underway()), reader, msg);
      if msg.index < 0 {
        allocator.Drop(msg);
      } else {
        allocator.WriteIdle(msg);
        rpc := Recycling;
      }
      reader := reader - {msg};
      use := Some(GivenBack(msg));
    }

    method FinishRead() returns (use: Option<Use>)
      requires Valid() && rpc.Taking?
      modifies this, allocator, allocator.freeLists, allocator.place.Keys
      ensures Valid() && fresh(allocator.place.Keys - old(allocator.place.Keys))
      ensures Used(old(allocator.InHands()), use, allocator.InHands())
      ensures use == None && Now() == ReadOut(old(Now()))
    {
      hide Parted, Messages, EachOnce, MessageAllocator.Valid, MessageAllocator.InHands, MessageAllocator.HeldByOwner;
      use := None;
      FirstGone(Underway());
      var (after, item) := pipe.Take();
      PartMoved(allocator.InHands(), writer, Messages(Underway()), reader, Own(item.value));
      pipe := after;
      assert Underway() == old(Underway())[1..];
      if item.value == None { peerTerminated := true; }
      reader, rpc := reader + Own(item.value), RQuiet;
    }

    method FinishRecycle() returns (use: Option<Use>)
      requires Valid() && rpc.Recycling?
      modifies this, allocator, allocator.freeLists, allocator.place.Keys
      ensures Valid() && fresh(allocator.place.Keys - old(allocator.place.Keys))
      ensures Used(old(allocator.InHands()), use, allocator.InHands())
      ensures use == None && Now() == old(Now()).(idle := old(allocator.idle).Flush().0, rpc := RQuiet)
    {
      hide Parted, Messages, EachOnce, MessageAllocator.Valid, MessageAllocator.InHands, MessageAllocator.HeldByOwner;
      use := None;
      allocator.ValidQueue();
      allocator.FlushIdle();
      rpc := RQuiet;
    }

    method ReaderGoes() returns (use: Option<Use>)
      requires Valid()
      modifies this, allocator, allocator.freeLists, allocator.place.Keys
      ensures Valid() && fresh(allocator.place.Keys - old(allocator.place.Keys))
      ensures Used(old(allocator.InHands()), use, allocator.InHands())
      ensures ReaderWent(old(Now()), use, Now())
    {
      hide Valid;
      use := None;
      match rpc
      case RQuiet =>
      case Taking => use := FinishRead();
      case Recycling => use := FinishRecycle();
    }

    /** One turn; a thread that is not where the turn needs it does nothing. */
    method Go(turn: Turn) returns (use: Option<Use>)
      requires Valid() && (turn.Allocate? ==> turn.capacity < 0x8000_0000)
      modifies this, allocator, allocator.freeLists, allocator.place.Keys
      ensures Valid() && fresh(allocator.place.Keys - old(allocator.place.Keys))
      ensures Used(old(allocator.InHands()), use, allocator.InHands())
      ensures Taken(old(Now()), turn, use, Now())
    {
      hide Valid;
      use := None;
      match turn
      case Allocate(capacity) => if wpc.WQuiet? { use := StartAllocate(capacity); }
      case Release => if wpc.WQuiet? && writer != {} { var msg :| msg in writer; use := StartRelease(msg); }
      case Write(incomplete) =>
        if wpc.WQuiet? && writer != {} { var msg :| msg in writer; use := StartWrite(msg, incomplete); }
      case Unwrite => if wpc.WQuiet? { use := StartUnwrite(); }
      case Terminate => if wpc.WQuiet? { use := StartTerminate(); }
      case WriterGo => use := WriterGoes();
      case Read => if rpc.RQuiet? { use := StartRead(); }
      case Recycle => if rpc.RQuiet? && reader != {} { var msg :| msg in reader; use := StartRecycle(msg); }
      case ReaderGo => use := ReaderGoes();
    }
  }

  /** Two threads that take turns in any order: every turn that its thread can take is taken; a message
      that is handed out serves what was asked for and is not in use anywhere, one that is given back
      was, and every message is in exactly one place all the time. */
  method Interleave(enableRecycle: bool, turns: seq<Turn>)
    returns (flow: MessageFlow, history: seq<Use>, uses: seq<Option<Use>>, ghost trace: seq<Snapshot>)
    requires forall t :: t in turns && t.Allocate? ==> t.capacity < 0x8000_0000
    ensures fresh(flow) && flow.Valid()
    ensures AllTaken(trace, turns, uses) && trace[|turns|] == flow.Now()
    ensures trace[0] == Snapshot(Empty(), false, false, WQuiet, RQuiet, {}, {}, Empty(), map[])
    ensures history == Present(uses)
    ensures WellUsed(history) && flow.allocator.InHands() == InUseAfter(history)
  {
    hide MessageFlow.Valid, Taken, AllTaken;
    flow := new MessageFlow(enableRecycle);
    history, uses, trace := [], [], [flow.Now()];
    NoTurns(trace);
    for i := 0 to |turns|
      invariant fresh(flow) && fresh(flow.allocator) && fresh(flow.allocator.freeLists)
      invariant fresh(flow.allocator.place.Keys) && flow.Valid()
      invariant AllTaken(trace, turns[..i], uses) && |trace| == i + 1 && trace[i] == flow.Now()
      invariant trace[0] == Snapshot(Empty(), false, false, WQuiet, RQuiet, {}, {}, Empty(), map[])
      invariant history == Present(uses)
      invariant WellUsed(history) && flow.allocator.InHands() == InUseAfter(history)
    {
      var use := flow.Go(turns[i]);
      OneMoreTurn(trace, turns[..i], uses, turns[i], use, flow.Now());
      assert turns[..i + 1] == turns[..i] + [turns[i]];
      if use.Some? {
        OneMoreUse(history, use.value);
        history := history + [use.value];
      }
      uses, trace := uses + [use], trace + [flow.Now()];
    }
    assert turns[..|turns|] == turns;
  }

  lemma NoTurns(trace: seq<Snapshot>)
    requires |trace| == 1
    ensures AllTaken(trace, [], [])
  {
  }
}
