/** The queue that clients of `SpscQueue` may imagine: a list of items of which a prefix is
    published and a shorter prefix is taken. One call is one atomic operation. */
module Fifo {

  import opened Options

  datatype Fifo<T> = Fifo(items: seq<T>, complete: nat, published: nat, taken: nat, asleep: bool) {

    ghost predicate Valid() {
      && taken <= published <= complete <= |items|
      && (asleep ==> taken == published)
    }

    function Write(value: T, incomplete: bool): Fifo<T> {
      this.(items := items + [value], complete := if incomplete then complete else |items| + 1)
    }

    function Unwrite(): (Fifo<T>, Option<T>) {
      if complete >= |items| then (this, None)
      else (this.(items := items[..|items| - 1]), Some(items[|items| - 1]))
    }

    // The flag is false when the reader went to sleep since the last publication.
    function Flush(): (Fifo<T>, bool) {
      if published == complete then (this, true)
      else (this.(published := complete, asleep := false), !asleep)
    }

    // Finding nothing to read puts the reader to sleep.
    function CheckRead(): (Fifo<T>, bool) {
      if taken < published then (this, true) else (this.(asleep := true), false)
    }

    function Take(): (Fifo<T>, Option<T>) {
      if taken < published && taken < |items|
      then (this.(taken := taken + 1), Some(items[taken])) else (this, None)
    }
  }

  function Empty<T>(): Fifo<T> { Fifo([], 0, 0, 0, false) }

  /** What one thread observes of one call. */
  datatype Event<T> =
    | Wrote(value: T, incomplete: bool)
    | Unwrote(result: Option<T>)
    | Flushed(readerAwake: bool)
    | Checked(available: bool)
    | Took(value: T)

  /** The atomic queue after a history of calls. */
  function Replay<T>(history: seq<Event<T>>): Fifo<T>
    decreases |history|
  {
    if history == [] then Empty()
    else Apply(Replay(history[..|history| - 1]), history[|history| - 1])
  }

  function Apply<T>(q: Fifo<T>, e: Event<T>): Fifo<T> {
    match e
    case Wrote(value, incomplete) => q.Write(value, incomplete)
    case Unwrote(_) => q.Unwrite().0
    case Flushed(_) => q.Flush().0
    case Checked(_) => q.CheckRead().0
    case Took(_) => q.Take().0
  }

  /** The observed result of `e` is the one the atomic queue gives in state `q`. */
  predicate Answers<T(==)>(q: Fifo<T>, e: Event<T>) {
    match e
    case Wrote(_, _) => true
    case Unwrote(result) => q.Unwrite().1 == result
    case Flushed(readerAwake) => q.Flush().1 == readerAwake
    case Checked(available) => q.CheckRead().1 == available
    case Took(value) => q.Take().1 == Some(value)
  }

  /** Every call of the history got the answer of the atomic queue. */
  ghost predicate Explained<T>(history: seq<Event<T>>)
    decreases |history|
  {
    history == [] ||
    (var before := history[..|history| - 1];
     Explained(before) && Answers(Replay(before), history[|history| - 1]))
  }

  /** The items written and not unwritten, from the events alone. */
  function Kept<T>(history: seq<Event<T>>): seq<T>
    decreases |history|
  {
    if history == [] then []
    else
      var before := Kept(history[..|history| - 1]);
      match history[|history| - 1]
      case Wrote(value, _) => before + [value]
      case Unwrote(Some(_)) => if before == [] then [] else before[..|before| - 1]
      case _ => before
  }

  /** How many items had been written when the last complete one was. */
  function CompleteCount<T>(history: seq<Event<T>>): nat
    decreases |history|
  {
    if history == [] then 0
    else if history[|history| - 1].Wrote? && !history[|history| - 1].incomplete then |Kept(history)|
    else CompleteCount(history[..|history| - 1])
  }

  /** How many complete items there were at the last flush. */
  function PublishedCount<T>(history: seq<Event<T>>): nat
    decreases |history|
  {
    if history == [] then 0
    else if history[|history| - 1].Flushed? then CompleteCount(history)
    else PublishedCount(history[..|history| - 1])
  }

  /** The values handed to the reader, in order. */
  function Delivered<T>(history: seq<Event<T>>): seq<T>
    decreases |history|
  {
    if history == [] then []
    else
      var before := Delivered(history[..|history| - 1]);
      if history[|history| - 1].Took? then before + [history[|history| - 1].value] else before
  }

  /** The number of times the reader went from awake to asleep. */
  function Sleeps<T>(history: seq<Event<T>>): nat
    decreases |history|
  {
    if history == [] then 0
    else
      var before := history[..|history| - 1];
      Sleeps(before) +
      (if history[|history| - 1] == Checked(false) && !Replay(before).asleep then 1 else 0)
  }

  /** The number of flushes that told the writer to wake the reader. */
  function WakeCalls<T>(history: seq<Event<T>>): nat
    decreases |history|
  {
    if history == [] then 0
    else WakeCalls(history[..|history| - 1]) + (if history[|history| - 1] == Flushed(false) then 1 else 0)
  }

  lemma {:induction false} ReplayKeeps<T>(history: seq<Event<T>>)
    requires Explained(history)
    ensures Replay(history).Valid()
    ensures Replay(history).items == Kept(history)
    ensures Replay(history).complete == CompleteCount(history)
    ensures Replay(history).published == PublishedCount(history)
    decreases |history|
  {
    if history != [] {
      var before, event := history[..|history| - 1], history[|history| - 1];
      ReplayKeeps(before);
      assert Answers(Replay(before), event) && Replay(history) == Apply(Replay(before), event);
      hide Replay, Explained;
      match event
      case Wrote(_, _) =>
      case Unwrote(_) =>
      case Flushed(_) =>
      case Checked(_) =>
      case Took(_) =>
    }
  }

  lemma {:induction false} ReplayDelivers<T>(history: seq<Event<T>>)
    requires Explained(history)
    ensures Replay(history).taken == |Delivered(history)| <= |Kept(history)|
    ensures Delivered(history) == Kept(history)[..|Delivered(history)|]
    decreases |history|
  {
    hide CompleteCount, PublishedCount;
    ReplayKeeps(history);
    if history != [] {
      ReplayKeeps(history[..|history| - 1]);
      ReplayDelivers(history[..|history| - 1]);
    }
  }

  lemma {:induction false} SleepsAreWokenOnce<T>(history: seq<Event<T>>)
    requires Explained(history)
    ensures Sleeps(history) == WakeCalls(history) + (if Replay(history).asleep then 1 else 0)
    decreases |history|
  {
    if history != [] {
      SleepsAreWokenOnce(history[..|history| - 1]);
    }
  }

  /** In an explained history the reader got, in order and once each, a prefix of what was
      written, kept, completed and flushed; and every sleep costs at most one wake-up call. */
  lemma ExplainedHistoryIsFifo<T>(history: seq<Event<T>>)
    requires Explained(history)
    ensures |Delivered(history)| <= PublishedCount(history) <= CompleteCount(history) <= |Kept(history)|
    ensures Delivered(history) == Kept(history)[..|Delivered(history)|]
    ensures Replay(history).taken == |Delivered(history)| && Replay(history).published == PublishedCount(history)
    ensures Sleeps(history) == WakeCalls(history) + (if Replay(history).asleep then 1 else 0)
  {
    ReplayKeeps(history);
    ReplayDelivers(history);
    SleepsAreWokenOnce(history);
  }
}

/** `SpscQueue` (src/spsc_queue.hpp) with a pointer to a queue slot replaced by the position of
    the slot. One step is at most one atomic access to `contention_`; everything else a step
    touches belongs to the thread that takes it. */
module SpscProtocol {

  import opened Options
  import opened Fifo

  datatype Pointer = Nil | At(pos: nat)

  /** `slots` holds the items, the terminator slot `Back()` is at position |slots|.
      `storing` says the writer is between the failed compare-and-swap of Flush and its store. */
  datatype State<T> = State(
    slots: seq<T>, w: Pointer, f: nat, r: Pointer, front: nat, c: Pointer, storing: bool)

  datatype Step<T> = Write(value: T, incomplete: bool) | Unwrite | FlushCas | FlushStore | CheckRead | Pop

  function Init<T>(): State<T> { State([], At(0), 0, At(0), 0, At(0), false) }

  ghost predicate Inv<T>(s: State<T>) {
    && s.front <= s.f <= |s.slots|
    && (s.storing <==> s.w == Nil)
    && (s.w.At? ==> s.front <= s.w.pos <= s.f)
    && (s.c.At? ==> s.c == s.w)
    && (s.c.Nil? ==> s.w in {Nil, At(s.front)} && s.r in {Nil, At(s.front)})
    && (s.storing ==> s.c.Nil? && s.front < s.f)
    && (s.r.At? ==> s.front <= s.r.pos && (s.w.At? ==> s.r.pos <= s.w.pos))
  }

  /** A value has been prefetched: the test at the head of CheckRead. */
  predicate Prefetched<T>(s: State<T>) { s.r.At? && s.r != At(s.front) }

  predicate Enabled<T>(s: State<T>, step: Step<T>) {
    match step
    case Write(_, _) => !s.storing
    case Unwrite => !s.storing
    case FlushCas => !s.storing
    case FlushStore => s.storing
    case CheckRead => true
    case Pop => Prefetched(s) && s.front < |s.slots|
  }

  /** Each step: the next state and what the caller observes, if anything. */
  function Next<T>(s: State<T>, step: Step<T>): (State<T>, Option<Event<T>>)
    requires Enabled(s, step)
  {
    match step
    case Write(value, incomplete) =>
      var slots := s.slots + [value];
      (s.(slots := slots, f := if incomplete then s.f else |slots|), Some(Wrote(value, incomplete)))
    case Unwrite =>
      if s.f >= |s.slots| then (s, Some(Unwrote(None)))
      else
        (s.(slots := s.slots[..|s.slots| - 1]), Some(Unwrote(Some(s.slots[|s.slots| - 1]))))
    case FlushCas =>
      if s.w == At(s.f) then (s, Some(Flushed(true)))
      else if s.c == s.w then (s.(c := At(s.f), w := At(s.f)), Some(Flushed(true)))
      else (s.(w := s.c, storing := true), None)
    case FlushStore =>
      (s.(c := At(s.f), w := At(s.f), storing := false), Some(Flushed(false)))
    case CheckRead =>
      if Prefetched(s) then (s, Some(Checked(true)))
      else if s.c == At(s.front) then (s.(c := Nil, r := At(s.front)), Some(Checked(false)))
      else
        var s' := s.(r := s.c);
        (s', Some(Checked(Prefetched(s'))))
    case Pop =>
      (s.(front := s.front + 1), Some(Took(s.slots[s.front])))
  }

  /** The atomic queue that a pointer state stands for. A nil `w` says the reader is asleep, and
      then everything published has been read. */
  function Abs<T>(s: State<T>): Fifo<T> {
    Fifo(s.slots, s.f, if s.w.At? then s.w.pos else s.front, s.front, s.c.Nil?)
  }

  lemma NextKeepsInv<T>(s: State<T>, step: Step<T>)
    requires Inv(s) && Enabled(s, step)
    ensures Inv(Next(s, step).0)
  {
  }

  /** Linearizability, one step at a time: a step either is one whole call of the atomic queue
      with the same answer, or changes nothing a client can see. */
  lemma NextRefinesFifo<T>(s: State<T>, step: Step<T>)
    requires Inv(s) && Enabled(s, step)
    ensures Abs(s).Valid()
    ensures var (s', e) := Next(s, step);
      match e
      case None => Abs(s') == Abs(s)
      case Some(event) => Answers(Abs(s), event) && Abs(s') == Apply(Abs(s), event)
  {
  }

  /** Any interleaving: the scheduler names the next step, a step that is not enabled is skipped. */
  function Run<T>(schedule: seq<Step<T>>): (State<T>, seq<Event<T>>)
    decreases |schedule|
  {
    if schedule == [] then (Init(), [])
    else
      var (s, history) := Run(schedule[..|schedule| - 1]);
      var step := schedule[|schedule| - 1];
      if !Enabled(s, step) then (s, history)
      else
        var (s', e) := Next(s, step);
        (s', if e.Some? then history + [e.value] else history)
  }

  /** Every interleaving of writer and reader steps is explained by the atomic queue. */
  lemma {:induction false} RunIsLinearizable<T>(schedule: seq<Step<T>>)
    ensures var (s, history) := Run(schedule);
      Inv(s) && Explained(history) && Replay(history) == Abs(s)
    decreases |schedule|
  {
    if schedule != [] {
      var before := schedule[..|schedule| - 1];
      RunIsLinearizable(before);
      var (s, history) := Run(before);
      var step := schedule[|schedule| - 1];
      if Enabled(s, step) {
        NextKeepsInv(s, step);
        NextRefinesFifo(s, step);
        var (s', e) := Next(s, step);
        if e.Some? {
          assert (history + [e.value])[..|history|] == history;
        }
      }
    }
  }

  /** The reader receives, in order, without loss or duplicate, a prefix of the items that were
      written, not unwritten, completed and published; and a nil `contention_` with no flush under
      way means that every published item has been read. */
  lemma RunDeliversPublishedPrefix<T>(schedule: seq<Step<T>>)
    ensures var (s, history) := Run(schedule);
      && |Delivered(history)| <= PublishedCount(history) <= CompleteCount(history) <= |Kept(history)|
      && Delivered(history) == Kept(history)[..|Delivered(history)|]
      && (s.c.Nil? ==> |Delivered(history)| == PublishedCount(history))
      && Sleeps(history) == WakeCalls(history) + (if s.c.Nil? then 1 else 0)
  {
    RunIsLinearizable(schedule);
    ExplainedHistoryIsFifo(Run(schedule).1);
  }
}
