/** One direction of a pipe pair (src/pipe.cpp): a writer thread, a reader thread, the queue between
    them, and the mutex and condition variable the reader waits on. A null message is the delimiter
    that ends the stream. */
module PipeProtocol {

  import opened Options
  import opened Fifo
  import P = SpscProtocol

  datatype Timeout = NoWait | Timed | Forever

  /** Flushing covers the compare-and-swap and the store of Flush. A false Flush obliges the writer
      to lock the reader's mutex and notify. */
  datatype WriterPc = WIdle | Flushing | MustLock | MustNotify

  /** Which DoRead of Read: before locking, after locking, or after a wait. */
  datatype Stage = First | Locked | Again

  datatype ReaderPc =
    | RIdle
    | Trying(timeout: Timeout, stage: Stage)
    | Taking(stage: Stage)
    | WantLock(timeout: Timeout)
    | GoingToWait(timeout: Timeout)
    | Waiting(timeout: Timeout)
    | Relocking(timeout: Timeout)

  datatype Owner = Free | HeldByWriter | HeldByReader

  datatype State<M> = State(
    q: P.State<Option<M>>, terminated: bool, closing: bool, peerTerminated: bool,
    wpc: WriterPc, rpc: ReaderPc, lock: Owner, delivered: seq<M>)

  datatype Step<M> =
    | StartWrite(message: Option<M>, incomplete: bool)
    | StartTerminate
    | StartUnwrite
    | WriterGo
    | StartRead(timeout: Timeout)
    | ReaderGo
    | WakeUp  // a timeout, or the condition variable waking a thread for no reason

  /** What a call returns. */
  datatype Result<M> =
    | WriteDone
    | WriteRefused
    | UnwriteDone(item: Option<M>)
    | UnwriteFailed
    | ReadDone(message: M)
    | ReadFailed

  function Init<M>(): State<M> {
    State(P.Init(), false, false, false, WIdle, RIdle, Free, [])
  }

  /** A step of one of the threads; a thread that is blocked, or not where the step needs it, stays. */
  function Next<M>(s: State<M>, step: Step<M>): (State<M>, Option<Result<M>>) {
    match step
    case StartWrite(message, incomplete) =>
      if !s.wpc.WIdle? || s.q.storing then (s, None)
      else if s.terminated then (s, Some(WriteRefused))
      else
        var q := P.Next(s.q, P.Write(message, incomplete)).0;
        if incomplete then (s.(q := q), Some(WriteDone)) else (s.(q := q, wpc := Flushing), None)
    case StartTerminate =>
      if !s.wpc.WIdle? || s.q.storing || s.terminated then (s, None)
      else (s.(q := P.Next(s.q, P.Write(None, false)).0, wpc := Flushing, closing := true), None)
    case StartUnwrite =>
      if !s.wpc.WIdle? || s.q.storing then (s, None)
      else
        var (q, e) := P.Next(s.q, P.Unwrite);
        (s.(q := q), Some(if e.Some? then TookBack(e.value) else UnwriteFailed))
    case WriterGo => WriterGoes(s)
    case StartRead(timeout) => if s.rpc.RIdle? then (s.(rpc := Trying(timeout, First)), None) else (s, None)
    case ReaderGo => ReaderGoes(s)
    case WakeUp => if s.rpc.Waiting? then (s.(rpc := Relocking(s.rpc.timeout)), None) else (s, None)
  }

  function TookBack<M>(e: Event<Option<M>>): Result<M> {
    match e
    case Unwrote(Some(item)) => UnwriteDone(item)
    case _ => UnwriteFailed
  }

  function WriterGoes<M>(s: State<M>): (State<M>, Option<Result<M>>) {
    match s.wpc
    case WIdle => (s, None)
    case Flushing =>
      if s.q.storing then (s.(q := P.Next(s.q, P.FlushStore).0, wpc := MustLock), None)
      else
        var (q, e) := P.Next(s.q, P.FlushCas);
        if e.None? then (s.(q := q), None) else WriterReturns(s.(q := q))
    case MustLock => if s.lock.Free? then (s.(lock := HeldByWriter, wpc := MustNotify), None) else (s, None)
    case MustNotify =>
      var rpc := if s.rpc.Waiting? then Relocking(s.rpc.timeout) else s.rpc;
      WriterReturns(s.(lock := Free, rpc := rpc))
  }

  function WriterReturns<M>(s: State<M>): (State<M>, Option<Result<M>>) {
    (s.(wpc := WIdle, terminated := s.terminated || s.closing, closing := false), Some(WriteDone))
  }

  function ReaderGoes<M>(s: State<M>): (State<M>, Option<Result<M>>) {
    match s.rpc
    case RIdle => (s, None)
    case Waiting(_) => (s, None)
    case Trying(timeout, stage) => Look(s, timeout, stage)
    case Taking(stage) => Take(s, stage)
    case WantLock(timeout) =>
      if s.lock.Free? then (s.(lock := HeldByReader, rpc := Trying(timeout, Locked)), None) else (s, None)
    case GoingToWait(timeout) => (s.(lock := Free, rpc := Waiting(timeout)), None)
    case Relocking(timeout) =>
      if s.lock.Free? then (s.(lock := HeldByReader, rpc := Trying(timeout, Again)), None) else (s, None)
  }

  /** DoRead as far as the answer of CheckRead, and what Read does when DoRead finds nothing. */
  function Look<M>(s: State<M>, timeout: Timeout, stage: Stage): (State<M>, Option<Result<M>>) {
    if s.peerTerminated then (ReaderReturns(s, stage), Some(ReadFailed))
    else
      var s' := s.(q := P.Next(s.q, P.CheckRead).0);
      if P.Prefetched(s'.q) then (s'.(rpc := Taking(stage)), None) else NothingFound(s', timeout, stage)
  }

  function NothingFound<M>(s: State<M>, timeout: Timeout, stage: Stage): (State<M>, Option<Result<M>>) {
    match stage
    case First =>
      if timeout.NoWait? then (ReaderReturns(s, stage), Some(ReadFailed)) else (s.(rpc := WantLock(timeout)), None)
    case Locked => (s.(rpc := GoingToWait(timeout)), None)
    case Again =>
      if timeout.Timed? then (ReaderReturns(s, stage), Some(ReadFailed)) else (s.(rpc := GoingToWait(timeout)), None)
  }

  /** The rest of DoRead: the item is popped, and Read returns. */
  function Take<M>(s: State<M>, stage: Stage): (State<M>, Option<Result<M>>) {
    if !P.Enabled(s.q, P.Pop) then (s, None)
    else
      var item := s.q.slots[s.q.front];
      var s' := ReaderReturns(s.(q := s.q.(front := s.q.front + 1)), stage);
      if item.None? then (s'.(peerTerminated := true), Some(ReadFailed))
      else (s'.(delivered := s.delivered + [item.value]), Some(ReadDone(item.value)))
  }

  function ReaderReturns<M>(s: State<M>, stage: Stage): State<M> {
    s.(rpc := RIdle, lock := if stage.First? then s.lock else Free)
  }

  ghost predicate ReaderHolds<M>(s: State<M>) {
    match s.rpc
    case Trying(_, stage) => !stage.First?
    case Taking(stage) => !stage.First?
    case GoingToWait(_) => true
    case _ => false
  }

  /** The delivered messages are the items read so far, up to the delimiter. */
  ghost predicate DeliveredOk<M>(s: State<M>) {
    && s.q.front == |s.delivered| + (if s.peerTerminated then 1 else 0)
    && s.q.front <= |s.q.slots|
    && (forall i :: 0 <= i < |s.delivered| ==> s.q.slots[i] == Some(s.delivered[i]))
    && (s.peerTerminated ==> s.q.slots[|s.delivered|] == None)
  }

  ghost predicate Inv<M>(s: State<M>) {
    && P.Inv(s.q)
    && DeliveredOk(s)
    && ControlOk(s)
  }

  ghost predicate ControlOk<M>(s: State<M>) {
    && (s.q.storing ==> s.wpc.Flushing?)
    && (!s.wpc.Flushing? ==> s.q.w == P.At(s.q.f))
    && (s.lock.HeldByWriter? <==> s.wpc.MustNotify?)
    && (s.lock.HeldByReader? <==> ReaderHolds(s))
    && (s.rpc.Taking? ==> P.Prefetched(s.q) && !s.peerTerminated)
    && (s.rpc.GoingToWait? || s.rpc.Waiting? ==>
          !s.rpc.timeout.NoWait? && !s.peerTerminated && (s.q.c.Nil? || s.wpc.MustLock? || s.wpc.MustNotify?))
    && (s.rpc.WantLock? || s.rpc.Relocking? || (s.rpc.Trying? && !s.rpc.stage.First?) ==> !s.rpc.timeout.NoWait?)
    && (s.closing ==> !s.wpc.WIdle?)
    && (s.terminated ==> s.wpc.WIdle?)
    && (s.terminated || s.closing ==> |s.q.slots| > 0 && s.q.f == |s.q.slots| && s.q.slots[|s.q.slots| - 1] == None)
  }

  lemma FlushKeepsInv<M>(s: State<M>)
    requires Inv(s) && s.wpc.Flushing?
    ensures Inv(WriterGoes(s).0)
  {
    var step := if s.q.storing then P.FlushStore else P.FlushCas;
    P.NextKeepsInv(s.q, step);
    var (q, e) := P.Next(s.q, step);
    assert q.slots == s.q.slots && q.f == s.q.f && q.front == s.q.front && q.r == s.q.r;
  }

  lemma CheckReadKeepsInv<M>(s: State<M>)
    requires Inv(s) && s.rpc.Trying?
    ensures var s' := s.(q := P.Next(s.q, P.CheckRead).0);
      Inv(s') && (P.Prefetched(s'.q) || s'.q.c.Nil?)
  {
    P.NextKeepsInv(s.q, P.CheckRead);
    var q := P.Next(s.q, P.CheckRead).0;
    assert q.slots == s.q.slots && q.f == s.q.f && q.front == s.q.front && q.w == s.q.w && q.storing == s.q.storing;
  }

  lemma NothingFoundKeepsInv<M>(s: State<M>, timeout: Timeout, stage: Stage)
    requires Inv(s) && s.rpc == Trying(timeout, stage) && !s.peerTerminated && s.q.c.Nil?
    ensures Inv(NothingFound(s, timeout, stage).0)
  {
  }

  lemma LookKeepsInv<M>(s: State<M>, timeout: Timeout, stage: Stage)
    requires Inv(s) && s.rpc == Trying(timeout, stage)
    ensures Inv(Look(s, timeout, stage).0)
  {
    if !s.peerTerminated {
      CheckReadKeepsInv(s);
      var s' := s.(q := P.Next(s.q, P.CheckRead).0);
      if !P.Prefetched(s'.q) { NothingFoundKeepsInv(s', timeout, stage); }
    }
  }

  lemma TakeKeepsInv<M>(s: State<M>, stage: Stage)
    requires Inv(s) && s.rpc == Taking(stage)
    ensures Inv(Take(s, stage).0)
  {
    if P.Enabled(s.q, P.Pop) {
      P.NextKeepsInv(s.q, P.Pop);
      assert P.Next(s.q, P.Pop).0 == s.q.(front := s.q.front + 1);
    }
  }

  /** Write, Terminate and Unwrite as far as their queue operation. */
  lemma CallKeepsInv<M>(s: State<M>, step: Step<M>)
    requires Inv(s) && (step.StartWrite? || step.StartTerminate? || step.StartUnwrite?)
    ensures Inv(Next(s, step).0)
  {
    if !s.q.storing {
      var action :=
        match step
        case StartWrite(message, incomplete) => P.Write(message, incomplete)
        case StartTerminate => P.Write(None, false)
        case _ => P.Unwrite;
      P.NextKeepsInv(s.q, action);
    }
  }

  lemma NotifyKeepsInv<M>(s: State<M>)
    requires Inv(s) && !s.wpc.Flushing?
    ensures Inv(WriterGoes(s).0)
  {
  }

  lemma LockingKeepsInv<M>(s: State<M>)
    requires Inv(s) && !s.rpc.Trying? && !s.rpc.Taking?
    ensures Inv(ReaderGoes(s).0)
  {
  }

  lemma NextKeepsInv<M>(s: State<M>, step: Step<M>)
    requires Inv(s)
    ensures Inv(Next(s, step).0)
  {
    match step
    case StartWrite(_, _) => CallKeepsInv(s, step);
    case StartTerminate => CallKeepsInv(s, step);
    case StartUnwrite => CallKeepsInv(s, step);
    case WriterGo => if s.wpc.Flushing? { FlushKeepsInv(s); } else { NotifyKeepsInv(s); }
    case StartRead(_) =>
    case ReaderGo =>
      if s.rpc.Trying? { LookKeepsInv(s, s.rpc.timeout, s.rpc.stage); }
      else if s.rpc.Taking? { TakeKeepsInv(s, s.rpc.stage); }
      else { LockingKeepsInv(s); }
    case WakeUp =>
  }

  function ToSeq<X>(r: Option<X>): seq<X> { if r.Some? then [r.value] else [] }

  /** Any run from a state: its last state and what the calls returned, in order. */
  function RunFrom<M>(s: State<M>, schedule: seq<Step<M>>): (State<M>, seq<Result<M>>)
    decreases |schedule|
  {
    if schedule == [] then (s, [])
    else
      var (s', r) := Next(s, schedule[0]);
      var (end, results) := RunFrom(s', schedule[1..]);
      (end, ToSeq(r) + results)
  }

  lemma {:induction false} RunKeepsInv<M>(s: State<M>, schedule: seq<Step<M>>)
    requires Inv(s)
    ensures Inv(RunFrom(s, schedule).0)
    decreases |schedule|
  {
    if schedule != [] {
      NextKeepsInv(s, schedule[0]);
      RunKeepsInv(Next(s, schedule[0]).0, schedule[1..]);
    }
  }

  /** The position up to which items are published. */
  ghost predicate HasUnread<M>(s: State<M>) {
    s.q.w.At? && s.q.front < s.q.w.pos
  }

  /** No lost wake-up: whenever the reader sleeps although a published item is unread, the writer is
      on its way to notify it; and while the writer is idle, a sleeping reader has read every
      complete item. */
  lemma NoLostWakeUp<M>(schedule: seq<Step<M>>)
    ensures var s := RunFrom(Init(), schedule).0;
      s.rpc.Waiting? ==>
        && (HasUnread(s) ==> (s.wpc.MustLock? && s.lock.Free?) || s.wpc.MustNotify?)
        && (s.wpc.WIdle? ==> s.q.front == s.q.f)
  {
    RunKeepsInv(Init<M>(), schedule);
  }

  /** What Read returns for an item of the queue. */
  function ResultOf<M>(item: Option<M>): Result<M> {
    if item.Some? then ReadDone(item.value) else ReadFailed
  }

  lemma {:induction false} RunConcat<M>(s: State<M>, a: seq<Step<M>>, b: seq<Step<M>>)
    ensures RunFrom(s, a + b) == (RunFrom(RunFrom(s, a).0, b).0, RunFrom(s, a).1 + RunFrom(RunFrom(s, a).0, b).1)
    decreases |a|
  {
    if a == [] {
      assert a + b == b && RunFrom(s, a).1 + RunFrom(s, b).1 == RunFrom(s, b).1;
    } else {
      assert (a + b)[1..] == a[1..] + b;
      var (s', r) := Next(s, a[0]);
      RunConcat(s', a[1..], b);
      var (middle, r1) := RunFrom(s', a[1..]);
      assert ToSeq(r) + (r1 + RunFrom(middle, b).1) == (ToSeq(r) + r1) + RunFrom(middle, b).1;
    }
  }

  lemma RunOne<M>(s: State<M>, step: Step<M>)
    ensures RunFrom(s, [step]) == (Next(s, step).0, ToSeq(Next(s, step).1))
  {
    assert [step][1..] == [];
    assert ToSeq(Next(s, step).1) + [] == ToSeq(Next(s, step).1);
  }

  lemma RunThree<M>(s: State<M>, a: Step<M>, b: Step<M>, c: Step<M>)
    ensures var (s1, r1) := Next(s, a); var (s2, r2) := Next(s1, b); var (s3, r3) := Next(s2, c);
      RunFrom(s, [a, b, c]) == (s3, ToSeq(r1) + ToSeq(r2) + ToSeq(r3))
  {
    var (s1, r1) := Next(s, a);
    var (s2, r2) := Next(s1, b);
    RunOne(s2, c);
    assert [b, c][1..] == [c];
    assert RunFrom(s1, [b, c]).1 == ToSeq(r2) + ToSeq(Next(s2, c).1);
    assert [a, b, c][1..] == [b, c];
    assert ToSeq(r1) + (ToSeq(r2) + ToSeq(Next(s2, c).1)) == ToSeq(r1) + ToSeq(r2) + ToSeq(Next(s2, c).1);
  }

  /** The writer's two next steps wake the reader. */
  lemma WriterWakes<M>(s: State<M>)
    requires Inv(s) && s.rpc.Waiting? && HasUnread(s)
    ensures var (s1, r1) := Next(s, WriterGo); var (s2, r2) := Next(s1, WriterGo);
      && s2.rpc.Relocking? && s2.lock.Free? && s2.q == s.q && !s2.peerTerminated
      && ToSeq(r1) + ToSeq(r2) == [WriteDone]
  {
    assert s.wpc.MustLock? || s.wpc.MustNotify?;
  }

  /** An awake reader takes the lock, looks and returns the item. */
  lemma WokenReaderReads<M>(s: State<M>)
    requires Inv(s) && s.rpc.Relocking? && s.lock.Free? && !s.peerTerminated && HasUnread(s)
    ensures var (end, results) := RunFrom(s, [ReaderGo, ReaderGo, ReaderGo]);
      && end.rpc.RIdle? && end.q.front == s.q.front + 1 && results == [ResultOf(s.q.slots[s.q.front])]
  {
    hide RunFrom, WriterGoes;
    RunThree(s, ReaderGo, ReaderGo, ReaderGo);
  }

  /** The wake-up is not only owed, it works: from a state in which the reader sleeps on an unread
      item, the writer's two next steps and three of the reader make Read return that item. */
  lemma WakeUpDelivers<M>(s: State<M>)
    requires Inv(s) && s.rpc.Waiting? && HasUnread(s)
    ensures var (end, results) := RunFrom(s, [WriterGo, WriterGo] + [ReaderGo, ReaderGo, ReaderGo]);
      && end.rpc.RIdle? && end.q.front == s.q.front + 1
      && results == [WriteDone, ResultOf(s.q.slots[s.q.front])]
  {
    var (s1, r1) := Next(s, WriterGo);
    WriterWakes(s);
    NextKeepsInv(s, WriterGo);
    NextKeepsInv(s1, WriterGo);
    RunConcat(s, [WriterGo, WriterGo], [ReaderGo, ReaderGo, ReaderGo]);
    RunOne(s1, WriterGo);
    var two: seq<Step<M>> := [WriterGo, WriterGo];
    assert two[1..] == [WriterGo];
    WokenReaderReads(Next(s1, WriterGo).0);
  }

  /** The messages in front of the delimiter. */
  function UpToDelimiter<M>(items: seq<Option<M>>): seq<M> {
    if items == [] || items[0].None? then [] else [items[0].value] + UpToDelimiter(items[1..])
  }

  lemma {:induction false} UpToDelimiterAt<M>(items: seq<Option<M>>, messages: seq<M>)
    requires |messages| <= |items| && forall i :: 0 <= i < |messages| ==> items[i] == Some(messages[i])
    ensures messages <= UpToDelimiter(items)
    ensures |messages| < |items| && items[|messages|] == None ==> messages == UpToDelimiter(items)
    decreases |messages|
  {
    if messages != [] {
      assert items[0] == Some(messages[0]);
      UpToDelimiterAt(items[1..], messages[1..]);
      assert messages == [messages[0]] + messages[1..];
    }
  }

  /** At every moment the messages read are a prefix of those in front of the delimiter, and once a
      read has met the delimiter they are all of them. */
  lemma ReadsUpToDelimiter<M>(schedule: seq<Step<M>>)
    ensures var s := RunFrom(Init(), schedule).0;
      && s.delivered <= UpToDelimiter(s.q.slots)
      && (s.peerTerminated ==> s.delivered == UpToDelimiter(s.q.slots))
  {
    RunKeepsInv(Init<M>(), schedule);
    var s := RunFrom(Init<M>(), schedule).0;
    UpToDelimiterAt(s.q.slots, s.delivered);
  }

  lemma NoReadStep<M>(s: State<M>, step: Step<M>)
    requires Inv(s) && s.peerTerminated
    ensures var (s', r) := Next(s, step);
      s'.peerTerminated && s'.delivered == s.delivered && (r.Some? ==> !r.value.ReadDone?)
  {
    if !step.WriterGo? { hide WriterGoes; }
    if !step.ReaderGo? { hide ReaderGoes; }
  }

  /** After a read has met the delimiter, no read succeeds any more. */
  lemma {:induction false} NothingAfterDelimiter<M>(s: State<M>, schedule: seq<Step<M>>)
    requires Inv(s) && s.peerTerminated
    ensures var (end, results) := RunFrom(s, schedule);
      end.peerTerminated && end.delivered == s.delivered && forall m :: ReadDone(m) !in results
    decreases |schedule|
  {
    if schedule != [] {
      hide Next, Inv;
      NextKeepsInv(s, schedule[0]);
      NoReadStep(s, schedule[0]);
      NothingAfterDelimiter(Next(s, schedule[0]).0, schedule[1..]);
    }
  }

  lemma NoWriteStep<M>(s: State<M>, step: Step<M>)
    requires Inv(s) && s.terminated
    ensures var (s', r) := Next(s, step);
      s'.terminated && s'.q.slots == s.q.slots && r != Some(WriteDone)
  {
    if !step.ReaderGo? { hide ReaderGoes; }
  }

  /** After Terminate has returned, every write is refused and the queued items stay as they are. */
  lemma {:induction false} NothingAfterTerminate<M>(s: State<M>, schedule: seq<Step<M>>)
    requires Inv(s) && s.terminated
    ensures var (end, results) := RunFrom(s, schedule);
      end.terminated && end.q.slots == s.q.slots && WriteDone !in results
    decreases |schedule|
  {
    if schedule != [] {
      hide Next, Inv;
      NextKeepsInv(s, schedule[0]);
      NoWriteStep(s, schedule[0]);
      NothingAfterTerminate(Next(s, schedule[0]).0, schedule[1..]);
    }
  }

  /** `n` non-blocking reads. */
  function Reads<M>(n: nat): seq<Step<M>> {
    if n == 0 then [] else [StartRead(NoWait), ReaderGo, ReaderGo] + Reads(n - 1)
  }

  lemma ReadOne<M>(s: State<M>)
    requires Inv(s) && s.rpc.RIdle? && !s.peerTerminated && HasUnread(s)
    ensures var (end, results) := RunFrom(s, [StartRead(NoWait), ReaderGo, ReaderGo]);
      && Inv(end) && end.rpc.RIdle? && end.q.front == s.q.front + 1
      && end.q.slots == s.q.slots && end.q.w == s.q.w && end.terminated == s.terminated
      && results == [ResultOf(s.q.slots[s.q.front])]
      && end.peerTerminated == s.q.slots[s.q.front].None?
  {
    hide RunFrom;
    RunThree(s, StartRead(NoWait), ReaderGo, ReaderGo);
    RunKeepsInv(s, [StartRead(NoWait), ReaderGo, ReaderGo]);
  }

  function Done<M>(messages: seq<M>): seq<Result<M>> {
    if messages == [] then [] else [ReadDone(messages[0])] + Done(messages[1..])
  }

  /** A terminated stream can be read to its end: the reads return the remaining messages in order,
      and the next one fails. */
  lemma {:induction false} TerminatedStreamIsReadOut<M>(s: State<M>)
    requires Inv(s) && s.terminated && s.rpc.RIdle? && !s.peerTerminated
    ensures var rest := UpToDelimiter(s.q.slots[s.q.front..]);
      var (end, results) := RunFrom(s, Reads(|rest| + 1));
      end.peerTerminated && results == Done(rest) + [ReadFailed]
    decreases |s.q.slots| - s.q.front
  {
    var items := s.q.slots[s.q.front..];
    ReadOne(s);
    var one := [StartRead(NoWait), ReaderGo, ReaderGo];
    var (s', results) := RunFrom(s, one);
    var rest := UpToDelimiter(items);
    RunConcat(s, one, Reads(|rest|));
    if items[0].Some? {
      assert items[1..] == s'.q.slots[s'.q.front..];
      TerminatedStreamIsReadOut(s');
      assert rest[1..] == UpToDelimiter(items[1..]);
    }
  }
}
