/** `SpscQueue` (src/spsc_queue.hpp) over the chunked memory. Each method is one step of the writer
    or of the reader: at most one atomic access to `contention_` or to the spare chunk. `q` is the
    state of the position protocol that the pointers stand for. */
module SpscQueues {

  import opened Options
  import opened Fifo
  import P = SpscProtocol
  import opened ChunkChains
  import opened BatchQueues

  /** Where the writer is: between calls, inside Write waiting for a chunk, or inside Flush between
      the failed compare-and-swap and the store. */
  datatype WriterState = Idle | Writing(incomplete: bool) | Storing

  class SpscQueue<T> {
    const queue: BatchQueue<T>
    var wItem: SlotPointer
    var rItem: SlotPointer
    var fItem: SlotPointer
    var contention: SlotPointer
    var writer: WriterState
    ghost var q: P.State<T>

    ghost predicate Points(item: SlotPointer, p: P.Pointer)
      reads this, queue
    {
      match p
      case Nil => item == Null
      case At(pos) => pos < |queue.mem.chain.place| && item == queue.mem.chain.place[pos]
    }

    ghost predicate Holds(i: int)
      reads this, queue
    {
      HeldIn(queue.mem.chain, q.slots, q.front, i)
    }

    static ghost predicate HeldIn(chain: Chain<T>, slots: seq<T>, front: nat, i: int) {
      front <= i < |slots| ==> chain.Live(i) && chain.SlotOk(i) && chain.ValueAt(i) == slots[i]
    }

    ghost predicate Valid()
      reads this, queue
    {
      && queue.Valid()
      && P.Inv(q)
      && queue.mem.chain.front == q.front && queue.mem.BackIndex() == |q.slots|
      && (forall i :: Holds(i))
      && Points(wItem, q.w) && Points(rItem, q.r) && Points(contention, q.c)
      && (!queue.pushing.Pushed? ==> writer.Writing?) && (writer.Storing? <==> q.storing)
      && (if writer == Writing(false) then q.f == |q.slots| else Points(fItem, P.At(q.f)))
    }

    /** The atomic queue that clients see. */
    ghost function View(): Fifo<T> reads this { P.Abs(q) }

    /** Init: one chunk, and the terminator pushed; a second chunk is needed only when N is 1. */
    constructor (n: nat, fresh1: Address, content1: Chunk<T>, fresh2: Address, content2: Chunk<T>)
      requires n >= 1 && NULL !in {fresh1, fresh2} && fresh1 != fresh2
      requires |content1.values| == n && |content2.values| == n
      ensures Valid() && q == P.Init() && writer.Idle? && queue.popping.Popped? && queue.N == n
      ensures fresh(queue)
    {
      hide Memory.Ok;
      var batch := new BatchQueue(n, fresh1, content1);
      batch.PushAdvance();
      if batch.pushing.NeedChunk? {
        batch.PushTake(fresh2, content2);
        batch.PushLink();
      }
      queue := batch;
      var back := Slot(batch.backChunk, batch.backPos);
      wItem, rItem, fItem, contention := back, back, back, back;
      writer := Idle;
      q := P.Init();
    }

    ghost predicate BackHolds(value: T)
      reads this, queue
    {
      var (chain, back) := (queue.mem.chain, |q.slots|);
      chain.Live(back) && chain.SlotOk(back) && chain.ValueAt(back) == value
    }

    /** Write assigns to the terminator slot, which no item occupies yet. */
    method StoreBack(value: T)
      requires Valid() && writer.Idle?
      modifies queue
      ensures q == old(q) && BackHolds(value)
      ensures queue.popping == old(queue.popping) && queue.pushing.Pushed? && queue.heap.Keys == old(queue.heap.Keys)
      ensures Valid()
    {
      ghost var m0 := queue.mem;
      m0.SetBackOk(value);
      queue.SetBack(value);
      forall i ensures Holds(i) {
        assert old(Holds(i)) && queue.mem.chain.SlotOk(i);
        assert i != |q.slots| ==> queue.mem.chain.SameAt(m0.chain, i);
      }
    }

    /** The terminator moves on, which turns the stored value into an item. */
    method AdvanceBack(value: T, incomplete: bool)
      requires Valid() && writer.Idle? && BackHolds(value)
      modifies this`writer, this`q, queue
      ensures q == P.Next(old(q), P.Write(value, incomplete)).0
      ensures writer == Writing(incomplete) && !queue.pushing.HaveChunk?
      ensures queue.popping == old(queue.popping) && queue.heap.Keys == old(queue.heap.Keys)
      ensures Valid()
    {
      hide Memory.Ok;
      ghost var m0 := queue.mem;
      m0.PushAdvanceOk();
      m0.OkMeans();
      m0.PushAdvance().OkMeans();
      queue.PushAdvance();
      ghost var chain := queue.mem.chain;
      assert chain.front == m0.chain.front && m0.chain.place <= chain.place;
      writer := Writing(incomplete);
      q := P.Next(q, P.Write(value, incomplete)).0;
      forall i ensures Holds(i) {
        assert old(Holds(i)) && chain.SlotOk(i) && chain.SameAt(m0.chain, i);
      }
    }

    /** First part of Write, up to the point where the push needs another chunk. */
    method BeginWrite(value: T, incomplete: bool)
      requires Valid() && writer.Idle?
      modifies this`writer, this`q, queue
      ensures q == P.Next(old(q), P.Write(value, incomplete)).0
      ensures writer == Writing(incomplete) && !queue.pushing.HaveChunk?
      ensures queue.popping == old(queue.popping) && queue.heap.Keys == old(queue.heap.Keys)
      ensures Valid()
    {
      StoreBack(value);
      AdvanceBack(value, incomplete);
    }

    /** Last part of Write: a complete item moves the flush limit. */
    method EndWrite()
      requires Valid() && writer.Writing? && queue.pushing.Pushed?
      modifies this`fItem, this`writer
      ensures q == old(q) && writer.Idle?
      ensures Valid()
    {
      if writer == Writing(false) { fItem := Slot(queue.backChunk, queue.backPos); }
      writer := Idle;
      forall i ensures Holds(i) { assert old(Holds(i)); }
    }

    method TakeChunk(fresh1: Address, content: Chunk<T>)
      requires Valid() && queue.pushing.NeedChunk?
      requires fresh1 != NULL && fresh1 !in queue.heap && |content.values| == queue.N
      modifies queue
      ensures q == old(q) && queue.pushing.HaveChunk? && queue.popping == old(queue.popping)
      ensures Valid()
    {
      ghost var m0 := queue.mem;
      m0.PushTakeOk(fresh1, content);
      queue.PushTake(fresh1, content);
      forall i ensures Holds(i) {
        assert old(Holds(i)) && queue.mem.chain.SlotOk(i) && queue.mem.chain.SameAt(m0.chain, i);
      }
    }

    method LinkChunk()
      requires Valid() && queue.pushing.HaveChunk?
      modifies queue
      ensures q == old(q) && queue.pushing.Pushed? && queue.popping == old(queue.popping)
      ensures Valid()
    {
      ghost var m0 := queue.mem;
      m0.PushLinkOk();
      queue.PushLink();
      forall i ensures Holds(i) {
        assert old(Holds(i)) && queue.mem.chain.SlotOk(i) && queue.mem.chain.SameAt(m0.chain, i);
      }
    }

    method Unwrite() returns (result: Option<T>)
      requires Valid() && writer.Idle?
      modifies this`q, queue
      ensures var (q', event) := P.Next(old(q), P.Unwrite);
        q == q' && event == Some(Unwrote(result))
      ensures writer.Idle? && queue.popping == old(queue.popping)
      ensures Valid()
    {
      hide Memory.Ok;
      queue.mem.PositionsOf(q.f, |q.slots|);
      if fItem == Slot(queue.backChunk, queue.backPos) { return None; }
      RetreatBack();
      var value := queue.Back();
      result := Some(value);
    }

    /** The terminator moves back onto the last item. */
    method RetreatBack()
      requires Valid() && writer.Idle? && q.f < |q.slots|
      modifies this`q, queue
      ensures q == P.Next(old(q), P.Unwrite).0 && BackHolds(old(q.slots)[|old(q.slots)| - 1])
      ensures writer.Idle? && queue.popping == old(queue.popping)
      ensures Valid()
    {
      hide Memory.Ok, Memory.Unpush;
      ghost var m0 := queue.mem;
      m0.OkMeans();
      m0.UnpushMeans();
      queue.Unpush();
      ghost var chain := queue.mem.chain;
      assert old(Holds(|q.slots| - 1));
      assert chain.SlotOk(|q.slots| - 1) && chain.SameAt(m0.chain, |q.slots| - 1);
      q := P.Next(q, P.Unwrite).0;
      forall i ensures Holds(i) {
        assert old(Holds(i)) && chain.SlotOk(i);
        StillHeld(m0.chain, chain, old(q.slots), q.front, i);
      }
    }

    static lemma StillHeld(before: Chain<T>, after: Chain<T>, slots: seq<T>, front: nat, i: int)
      requires |slots| > 0 && HeldIn(before, slots, front, i) && after.SlotOk(i) && after.SameAt(before, i)
      requires after.front == before.front && |after.place| + 1 == |before.place| && |slots| <= |after.place|
      ensures HeldIn(after, slots[..|slots| - 1], front, i)
    {
    }

    /** Flush up to and including its compare-and-swap; `result` is empty if the reader sleeps. */
    method FlushCas() returns (result: Option<bool>)
      requires Valid() && writer.Idle?
      modifies this`wItem, this`contention, this`writer, this`q
      ensures var (q', event) := P.Next(old(q), P.FlushCas);
        && q == q'
        && (match result
            case None => event == None && writer.Storing?
            case Some(readerAwake) => event == Some(Flushed(readerAwake)) && writer.Idle?)
      ensures Valid()
    {
      hide Memory.Ok;
      queue.mem.PositionsOf(q.w.pos, q.f);
      ghost var before := q;
      q := P.Next(q, P.FlushCas).0;
      if wItem == fItem { return Some(true); }
      if contention == wItem {
        contention := fItem;
        wItem := fItem;
        result := Some(true);
      } else {
        wItem := contention;
        writer := Storing;
        result := None;
      }
      forall i ensures Holds(i) { assert old(Holds(i)); }
    }

    /** The store after a failed compare-and-swap; Flush then returns false. */
    method FlushStore()
      requires Valid() && writer.Storing?
      modifies this`wItem, this`contention, this`writer, this`q
      ensures q == P.Next(old(q), P.FlushStore).0 && writer.Idle?
      ensures Valid()
    {
      contention := fItem;
      wItem := fItem;
      writer := Idle;
      q := P.Next(q, P.FlushStore).0;
      forall i ensures Holds(i) { assert old(Holds(i)); }
    }

    /** The test at the head of CheckRead. */
    method HasPrefetched() returns (b: bool)
      requires Valid()
      ensures b == (P.Prefetched(q))
    {
      hide Memory.Ok;
      if q.r.At? { queue.mem.PositionsOf(q.front, q.r.pos); }
      b := Slot(queue.beginChunk, queue.beginPos) != rItem && rItem != Null;
    }

    method CheckRead() returns (available: bool)
      requires Valid() && queue.popping.Popped?
      modifies this`rItem, this`contention, this`q
      ensures var (q', event) := P.Next(old(q), P.CheckRead);
        q == q' && event == Some(Checked(available))
      ensures Valid()
    {
      var front := Slot(queue.beginChunk, queue.beginPos);
      hide Memory.Ok;
      if q.c.At? { queue.mem.PositionsOf(q.front, q.c.pos); }
      var prefetched := HasPrefetched();
      q := P.Next(q, P.CheckRead).0;
      if prefetched { return true; }
      var firstItem := front;
      if contention == firstItem { contention := Null; } else { firstItem := contention; }
      rItem := firstItem;
      available := !(front == rItem || rItem == Null);
      forall i ensures Holds(i) { assert old(Holds(i)); }
    }

    /** Read after a successful CheckRead: the front value is copied and popped. */
    method Pop() returns (value: T)
      requires Valid() && queue.popping.Popped? && P.Prefetched(q)
      modifies this`q, queue
      ensures P.Enabled(old(q), P.Pop)
      ensures var (q', event) := P.Next(old(q), P.Pop);
        q == q' && event == Some(Took(value))
      ensures writer == old(writer) && queue.pushing == old(queue.pushing) && queue.heap.Keys == old(queue.heap.Keys)
      ensures Valid()
    {
      hide Memory.Ok;
      ghost var m0 := queue.mem;
      m0.PopAdvanceOk();
      m0.OkMeans();
      m0.PopAdvance().OkMeans();
      assert Holds(q.front);
      value := queue.Front();
      queue.PopAdvance();
      q := P.Next(q, P.Pop).0;
      forall i ensures Holds(i) {
        assert old(Holds(i)) && queue.mem.chain.SlotOk(i) && queue.mem.chain.SameAt(m0.chain, i);
      }
    }

    method OfferChunk()
      requires Valid() && queue.popping.MustOffer?
      modifies queue
      ensures q == old(q) && !queue.popping.MustOffer? && queue.pushing == old(queue.pushing)
      ensures queue.heap == old(queue.heap)
      ensures Valid()
    {
      queue.PopOffer();
      forall i ensures Holds(i) { assert old(Holds(i)); }
    }

    method FreeChunk()
      requires Valid() && queue.popping.MustFree?
      modifies queue
      ensures q == old(q) && queue.popping.Popped? && queue.pushing == old(queue.pushing)
      ensures Valid()
    {
      ghost var m0 := queue.mem;
      m0.PopFreeOk();
      queue.PopFree();
      forall i ensures Holds(i) {
        assert old(Holds(i)) && queue.mem.chain.SlotOk(i) && queue.mem.chain.SameAt(m0.chain, i);
      }
    }

    lemma ValidIsInv()
      requires Valid()
      ensures P.Inv(q) && (writer.Storing? <==> q.storing)
    {
    }

    lemma ContentionIsCell()
      requires Valid()
      ensures contention.Null? <==> q.c.Nil?
    {
      hide Memory.Ok;
      if q.c.At? { queue.mem.PositionsOf(q.c.pos, q.c.pos); }
    }

    /** The whole call Write; malloc answers `fresh1`, should it be asked. */
    method Write(value: T, incomplete: bool, fresh1: Address, content: Chunk<T>)
      requires Valid() && writer.Idle?
      requires fresh1 != NULL && fresh1 !in queue.heap && |content.values| == queue.N
      modifies this, queue
      ensures Valid() && writer.Idle? && queue.popping == old(queue.popping)
      ensures View() == old(View()).Write(value, incomplete) && View().Valid()
    {
      hide Valid;
      ValidIsInv();
      P.NextRefinesFifo(q, P.Write(value, incomplete));
      BeginWrite(value, incomplete);
      if queue.pushing.NeedChunk? {
        TakeChunk(fresh1, content);
        LinkChunk();
      }
      EndWrite();
      ValidIsInv();
      P.NextRefinesFifo(q, P.CheckRead);
    }

    /** The whole call Flush, while the reader does nothing. */
    method Flush() returns (readerAwake: bool)
      requires Valid() && writer.Idle?
      modifies this
      ensures Valid() && writer.Idle?
      ensures (View(), readerAwake) == old(View()).Flush() && View().Valid()
    {
      hide Valid;
      ValidIsInv();
      P.NextRefinesFifo(q, P.FlushCas);
      var done := FlushCas();
      if done == None {
        ValidIsInv();
        P.NextRefinesFifo(q, P.FlushStore);
        FlushStore();
      }
      readerAwake := done.Some? && done.value;
      ValidIsInv();
      P.NextRefinesFifo(q, P.CheckRead);
    }

    /** The whole call Read. */
    method Read() returns (result: Option<T>)
      requires Valid() && queue.popping.Popped?
      modifies this, queue
      ensures Valid() && queue.popping.Popped? && writer == old(writer)
      ensures var (checked, available) := old(View()).CheckRead();
        (View(), result) == if available then checked.Take() else (checked, None)
      ensures old(View()).Valid() && View().Valid()
    {
      hide Valid, P.Abs;
      ValidIsInv();
      P.NextRefinesFifo(q, P.CheckRead);
      var available := CheckRead();
      if !available { return None; }
      ValidIsInv();
      P.NextRefinesFifo(q, P.Pop);
      var value := Pop();
      if queue.popping.MustOffer? { OfferChunk(); }
      if queue.popping.MustFree? { FreeChunk(); }
      result := Some(value);
      ValidIsInv();
      P.NextRefinesFifo(q, P.CheckRead);
    }

    /** What a scheduler can see of the two threads between two turns. */
    ghost function Now(): Snapshot<T> reads this, queue {
      Snapshot(q, writer, queue.pushing, queue.popping, queue.heap.Keys, queue.N)
    }

    method WriterGoesOn(turn: WriterTurn<T>) returns (event: Option<Event<T>>)
      requires Valid()
      modifies this, queue
      ensures Valid() && WriterTook(old(Now()), turn, event, Now())
    {
      hide Valid, P.Next;
      event := None;
      match turn {
        case Put(value, incomplete) =>
          if writer.Idle? {
            ValidIsInv();
            BeginWrite(value, incomplete);
            event := Some(Wrote(value, incomplete));
            EventOfWrite(old(q), value, incomplete);
          }
        case GetChunk(fresh1, content) =>
          if queue.pushing.NeedChunk? && fresh1 != NULL && fresh1 !in queue.heap && |content.values| == queue.N {
            ChunkIsForWrite();
            TakeChunk(fresh1, content);
          }
        case Link =>
          if queue.pushing.HaveChunk? {
            ChunkIsForWrite();
            LinkChunk();
          }
        case Finish =>
          if writer.Writing? && queue.pushing.Pushed? { EndWrite(); }
        case TakeBack =>
          if writer.Idle? {
            ValidIsInv();
            var result := Unwrite();
            event := Some(Unwrote(result));
          }
        case Publish =>
          if writer.Idle? {
            ValidIsInv();
            var result := FlushCas();
            event := if result.Some? then Some(Flushed(result.value)) else None;
          } else if writer.Storing? {
            ValidIsInv();
            FlushStore();
            event := Some(Flushed(false));
            EventOfStore(old(q));
          }
      }
    }

    static lemma EventOfWrite(q: P.State<T>, value: T, incomplete: bool)
      requires !q.storing
      ensures P.Next(q, P.Write(value, incomplete)).1 == Some(Wrote(value, incomplete))
    {
    }

    static lemma EventOfStore(q: P.State<T>)
      requires q.storing
      ensures P.Next(q, P.FlushStore).1 == Some(Flushed(false))
    {
    }

    lemma ChunkIsForWrite()
      requires Valid() && !queue.pushing.Pushed?
      ensures writer.Writing?
    {
    }

    method ReaderGoesOn(turn: ReaderTurn) returns (event: Option<Event<T>>)
      requires Valid()
      modifies this, queue
      ensures Valid() && ReaderTook(old(Now()), turn, event, Now())
    {
      hide Valid, P.Next;
      event := None;
      match queue.popping
      case MustOffer(_) => OfferChunk();
      case MustFree(_) => FreeChunk();
      case Popped =>
        var prefetched := HasPrefetched();
        if turn.Look? {
          var available := CheckRead();
          event := Some(Checked(available));
        } else if prefetched {
          var value := Pop();
          event := Some(Took(value));
        }
    }

    method GoOn(turn: Turn<T>) returns (event: Option<Event<T>>)
      requires Valid()
      modifies this, queue
      ensures Valid() && TurnTaken(old(Now()), turn, event, Now())
    {
      hide Valid, WriterTook, ReaderTook;
      match turn {
        case Writer(w) => event := WriterGoesOn(w);
        case Reader(r) => event := ReaderGoesOn(r);
      }
    }
  }

  /** What the scheduler may let the writer do next; malloc answers any address not in use. */
  datatype WriterTurn<T> =
    | Put(value: T, incomplete: bool)
    | GetChunk(fresh1: Address, content: Chunk<T>)
    | Link
    | Finish
    | TakeBack
    | Publish

  /** A reader that is inside Pop goes on with it whatever its turn says. */
  datatype ReaderTurn = Look | Take

  datatype Turn<T> = Writer(w: WriterTurn<T>) | Reader(r: ReaderTurn)

  datatype Snapshot<T> = Snapshot(
    q: P.State<T>, writer: WriterState, pushing: PushState, popping: PopState, used: set<Address>, chunkSize: nat)

  /** One step of the position protocol, with what its thread observes. */
  ghost predicate Did<T>(before: P.State<T>, step: P.Step<T>, event: Option<Event<T>>, after: P.State<T>) {
    P.Enabled(before, step) && (after, event) == P.Next(before, step)
  }

  /** The writer's turn: a turn that it can take is taken, with its own arguments, and goes on to
      where the next one can be; any other does nothing. */
  ghost predicate WriterTook<T>(s: Snapshot<T>, turn: WriterTurn<T>, event: Option<Event<T>>, t: Snapshot<T>) {
    && t.popping == s.popping
    && match turn
       case Put(value, incomplete) =>
         if s.writer.Idle? then
           && event == Some(Wrote(value, incomplete)) && Did(s.q, P.Write(value, incomplete), event, t.q)
           && t.writer == Writing(incomplete) && !t.pushing.HaveChunk?
         else t == s && event == None
       case GetChunk(fresh1, content) =>
         if s.pushing.NeedChunk? && fresh1 != NULL && fresh1 !in s.used && |content.values| == s.chunkSize then
           event == None && t.q == s.q && t.writer == s.writer && t.pushing.HaveChunk?
         else t == s && event == None
       case Link =>
         if s.pushing.HaveChunk? then event == None && t.q == s.q && t.writer == s.writer && t.pushing.Pushed?
         else t == s && event == None
       case Finish =>
         if s.writer.Writing? && s.pushing.Pushed? then event == None && t == s.(writer := Idle)
         else t == s && event == None
       case TakeBack =>
         if s.writer.Idle? then
           event.Some? && event.value.Unwrote? && Did(s.q, P.Unwrite, event, t.q) && t.writer.Idle?
         else t == s && event == None
       case Publish =>
         if s.writer.Idle? then
           && Did(s.q, P.FlushCas, event, t.q)
           && t.writer == if event.Some? then Idle else Storing
         else if s.writer.Storing? then
           event == Some(Flushed(false)) && Did(s.q, P.FlushStore, event, t.q) && t.writer.Idle?
         else t == s && event == None
  }

  /** The reader's turn. */
  ghost predicate ReaderTook<T>(s: Snapshot<T>, turn: ReaderTurn, event: Option<Event<T>>, t: Snapshot<T>) {
    && t.writer == s.writer && t.pushing == s.pushing
    && match s.popping
       case MustOffer(_) => event == None && t.q == s.q && !t.popping.MustOffer?
       case MustFree(_) => event == None && t.q == s.q && t.popping.Popped?
       case Popped =>
         if turn.Look? then
           event.Some? && event.value.Checked? && Did(s.q, P.CheckRead, event, t.q) && t.popping.Popped?
         else if P.Prefetched(s.q) then
           event.Some? && event.value.Took? && Did(s.q, P.Pop, event, t.q)
         else t == s && event == None
  }

  ghost predicate TurnTaken<T>(s: Snapshot<T>, turn: Turn<T>, event: Option<Event<T>>, t: Snapshot<T>) {
    match turn
    case Writer(w) => WriterTook(s, w, event, t)
    case Reader(r) => ReaderTook(s, r, event, t)
  }

  /** Turn after turn, from the first snapshot to the last. */
  ghost predicate AllTaken<T>(trace: seq<Snapshot<T>>, turns: seq<Turn<T>>, events: seq<Option<Event<T>>>)
    decreases |turns|
  {
    && |events| == |turns| && |trace| == |turns| + 1
    && (turns == [] ||
        (var n := |turns| - 1;
         TurnTaken(trace[n], turns[n], events[n], trace[n + 1]) && AllTaken(trace[..n + 1], turns[..n], events[..n])))
  }

  function Present<X>(events: seq<Option<X>>): seq<X> {
    if events == [] then []
    else
      var before := Present(events[..|events| - 1]);
      if events[|events| - 1].Some? then before + [events[|events| - 1].value] else before
  }

  /** Any trace of turns is a run of the position protocol. */
  lemma {:induction false} TraceIsRun<T>(trace: seq<Snapshot<T>>, turns: seq<Turn<T>>, events: seq<Option<Event<T>>>)
    returns (schedule: seq<P.Step<T>>)
    requires AllTaken(trace, turns, events) && trace[0].q == P.Init()
    ensures P.Run(schedule) == (trace[|turns|].q, Present(events))
    decreases |turns|
  {
    hide TurnTaken, P.Next, P.Enabled;
    if turns == [] { return []; }
    var n := |turns| - 1;
    var before := TraceIsRun(trace[..n + 1], turns[..n], events[..n]);
    var step := StepOf(trace[n], turns[n], events[n], trace[n + 1]);
    schedule := if step.Some? then before + [step.value] else before;
    if step.Some? { assert schedule[..|schedule| - 1] == before; }
  }

  /** The step of the position protocol that a turn is, if it is one. */
  lemma StepOf<T>(s: Snapshot<T>, turn: Turn<T>, event: Option<Event<T>>, t: Snapshot<T>)
    returns (step: Option<P.Step<T>>)
    requires TurnTaken(s, turn, event, t)
    ensures if step.Some? then Did(s.q, step.value, event, t.q) else t.q == s.q && event == None
  {
    hide P.Next, P.Enabled;
    step := None;
    match turn {
      case Writer(w) =>
        match w {
          case Put(value, incomplete) => if s.writer.Idle? { step := Some(P.Write(value, incomplete)); }
          case TakeBack => if s.writer.Idle? { step := Some(P.Unwrite); }
          case Publish =>
            if s.writer.Idle? { step := Some(P.FlushCas); } else if s.writer.Storing? { step := Some(P.FlushStore); }
          case _ =>
        }
      case Reader(r) =>
        if s.popping.Popped? {
          if r.Look? { step := Some(P.CheckRead); } else if P.Prefetched(s.q) { step := Some(P.Pop); }
        }
    }
  }

  /** Runs any interleaving of the two threads on the chunked memory. Every turn that its thread can
      take is taken, any other is skipped, and what the threads observe is what the atomic queue
      would have answered. */
  method Interleave<T>(queue: SpscQueue<T>, turns: seq<Turn<T>>)
    returns (history: seq<Event<T>>, events: seq<Option<Event<T>>>, ghost trace: seq<Snapshot<T>>)
    requires queue.Valid() && queue.q == P.Init()
    modifies queue, queue.queue
    ensures queue.Valid()
    ensures AllTaken(trace, turns, events) && trace[0] == old(queue.Now()) && trace[|turns|] == queue.Now()
    ensures history == Present(events)
    ensures Explained(history) && Replay(history) == P.Abs(queue.q)
    ensures |Delivered(history)| <= PublishedCount(history) <= CompleteCount(history) <= |Kept(history)|
    ensures Delivered(history) == Kept(history)[..|Delivered(history)|]
    ensures queue.contention.Null? ==> |Delivered(history)| == PublishedCount(history)
    ensures Sleeps(history) == WakeCalls(history) + (if queue.contention.Null? then 1 else 0)
  {
    hide SpscQueue.Valid, TurnTaken, AllTaken;
    history, events, trace := [], [], [queue.Now()];
    NoTurns(trace);
    for k := 0 to |turns|
      invariant queue.Valid()
      invariant AllTaken(trace, turns[..k], events) && |events| == k && |trace| == k + 1
      invariant trace[0] == old(queue.Now()) && trace[k] == queue.Now() && history == Present(events)
    {
      var event := queue.GoOn(turns[k]);
      OneMoreTurn(trace, turns[..k], events, turns[k], event, queue.Now());
      assert turns[..k + 1] == turns[..k] + [turns[k]];
      if event.Some? { history := history + [event.value]; }
      events, trace := events + [event], trace + [queue.Now()];
    }
    assert turns[..|turns|] == turns;
    EndOfTrace(queue, turns, events, trace);
  }

  lemma NoTurns<T>(trace: seq<Snapshot<T>>)
    requires |trace| == 1
    ensures AllTaken(trace, [], [])
  {
  }

  lemma OneMoreTurn<T>(trace: seq<Snapshot<T>>, turns: seq<Turn<T>>, events: seq<Option<Event<T>>>,
                       turn: Turn<T>, event: Option<Event<T>>, after: Snapshot<T>)
    requires AllTaken(trace, turns, events) && TurnTaken(trace[|turns|], turn, event, after)
    ensures AllTaken(trace + [after], turns + [turn], events + [event])
    ensures Present(events + [event]) == Present(events) + if event.Some? then [event.value] else []
  {
    hide TurnTaken;
    var n := |turns|;
    assert (trace + [after])[..n + 1] == trace && (turns + [turn])[..n] == turns && (events + [event])[..n] == events;
  }

  lemma EndOfTrace<T>(queue: SpscQueue<T>, turns: seq<Turn<T>>, events: seq<Option<Event<T>>>, trace: seq<Snapshot<T>>)
    requires queue.Valid() && AllTaken(trace, turns, events)
    requires trace[0].q == P.Init() && trace[|turns|] == queue.Now()
    ensures var history := Present(events);
      && Explained(history) && Replay(history) == P.Abs(queue.q)
      && |Delivered(history)| <= PublishedCount(history) <= CompleteCount(history) <= |Kept(history)|
      && Delivered(history) == Kept(history)[..|Delivered(history)|]
      && (queue.contention.Null? ==> |Delivered(history)| == PublishedCount(history))
      && Sleeps(history) == WakeCalls(history) + (if queue.contention.Null? then 1 else 0)
  {
    hide SpscQueue.Valid, TurnTaken;
    var schedule := TraceIsRun(trace, turns, events);
    queue.ContentionIsCell();
    P.RunIsLinearizable(schedule);
    P.RunDeliversPublishedPrefix(schedule);
  }
}
