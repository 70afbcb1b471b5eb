/** What a pipe promises (src/pipe.cpp), in terms of the calls and their answers alone: the messages
    that were written come out, in order, up to the delimiter. */
module PipeStream {

  import opened Options
  import opened Fifo
  import P = SpscProtocol
  import opened PipeProtocol

  /** What can be known from the steps of a run and what they answered: the items written and not
      taken back, how many of them are complete, what was read, and which calls are under way. */
  datatype Log<M> = Log(
    items: seq<Option<M>>, complete: nat, read: seq<M>,
    writing: bool, closing: bool, closed: bool, reading: Option<Timeout>)

  function NewLog<M>(): Log<M> { Log([], 0, [], false, false, false, None) }

  /** A step and its answer are noted. */
  function Note<M(==)>(log: Log<M>, step: Step<M>, answer: Option<Result<M>>): Log<M> {
    match step
    case StartWrite(message, incomplete) =>
      if log.writing || answer == Some(WriteRefused) then log
      else
        var items := log.items + [message];
        log.(items := items, complete := if incomplete then log.complete else |items|, writing := !incomplete)
    case StartTerminate =>
      if log.writing || log.closed then log
      else log.(items := log.items + [None], complete := |log.items| + 1, writing := true, closing := true)
    case StartUnwrite =>
      if answer.Some? && answer.value.UnwriteDone? && log.items != []
      then log.(items := log.items[..|log.items| - 1]) else log
    case WriterGo =>
      if answer == Some(WriteDone)
      then log.(writing := false, closing := false, closed := log.closed || log.closing) else log
    case StartRead(timeout) => if log.reading == None then log.(reading := Some(timeout)) else log
    case ReaderGo =>
      (match answer
       case Some(ReadDone(message)) => log.(read := log.read + [message], reading := None)
       case Some(_) => log.(reading := None)
       case None => log)
    case WakeUp => log
  }

  /** The right answers. A thread that is inside a call starts no other. Writing is refused after
      Terminate, and only then; an incomplete message is done at once. Taking back gives the last
      incomplete item. A read gives the next item; it fails at the delimiter, and, unless it waits
      forever, when there is none. */
  ghost predicate Right<M>(log: Log<M>, step: Step<M>, answer: Option<Result<M>>) {
    match step
    case StartWrite(message, incomplete) =>
      answer == if log.writing then None else if log.closed then Some(WriteRefused)
                else if incomplete then Some(WriteDone) else None
    case StartTerminate => answer == None
    case StartUnwrite =>
      answer == if log.writing then None
                else if log.complete < |log.items| then Some(UnwriteDone(log.items[|log.items| - 1]))
                else Some(UnwriteFailed)
    case WriterGo => answer == None || (log.writing && answer == Some(WriteDone))
    case StartRead(_) => answer == None
    case ReaderGo =>
      (match answer
       case None => true
       case Some(ReadDone(message)) =>
         log.reading.Some? && |log.read| < log.complete <= |log.items| && log.items[|log.read|] == Some(message)
       case Some(ReadFailed) =>
         log.reading.Some? && |log.read| <= log.complete <= |log.items| &&
         ((|log.read| < log.complete && log.items[|log.read|] == None) ||
          (log.reading.value != Forever && (log.writing || |log.read| == log.complete)))
       case Some(_) => false)
    case WakeUp => answer == None
  }

  /** The log tells the state. */
  ghost predicate Tells<M>(log: Log<M>, s: State<M>) {
    && Inv(s)
    && log.items == s.q.slots && log.complete == s.q.f && log.read == s.delivered
    && log.writing == !s.wpc.WIdle? && log.closing == s.closing && log.closed == s.terminated
    && ReadTold(log, s)
  }

  ghost predicate ReadTold<M>(log: Log<M>, s: State<M>) {
    && (log.reading == None <==> s.rpc.RIdle?)
    && (!s.rpc.RIdle? && !s.rpc.Taking? ==> log.reading == Some(s.rpc.timeout))
  }

  lemma WriterCallTold<M>(log: Log<M>, s: State<M>, step: Step<M>)
    requires Tells(log, s) && (step.StartWrite? || step.StartTerminate? || step.StartUnwrite?)
    ensures var (s', r) := Next(s, step);
      Right(log, step, r) && Tells(Note(log, step, r), s')
  {
    NextKeepsInv(s, step);
  }

  lemma WriterGoTold<M>(log: Log<M>, s: State<M>)
    requires Tells(log, s)
    ensures var (s', r) := Next(s, WriterGo);
      Right(log, WriterGo, r) && Tells(Note(log, WriterGo, r), s')
  {
    NextKeepsInv(s, WriterGo);
  }

  /** A look that finds nothing: everything published is read. */
  lemma LookSays<M>(s: State<M>)
    requires Inv(s) && s.rpc.Trying?
    ensures var q := P.Next(s.q, P.CheckRead).0;
      && q.slots == s.q.slots && q.f == s.q.f && q.front == s.q.front <= q.f <= |q.slots|
      && (!P.Prefetched(q) && s.wpc.WIdle? ==> q.front == q.f)
    ensures |s.delivered| + (if s.peerTerminated then 1 else 0) == s.q.front
    ensures s.peerTerminated ==> s.q.slots[|s.delivered|] == None
    ensures s.rpc.stage != First ==> s.rpc.timeout != NoWait
  {
    hide WriterGoes, ReaderGoes;
  }

  lemma LookTold<M>(log: Log<M>, s: State<M>)
    requires Tells(log, s) && s.rpc.Trying?
    ensures var (s', r) := Next(s, ReaderGo);
      Right(log, ReaderGo, r) && Tells(Note(log, ReaderGo, r), s')
  {
    hide WriterGoes, Take;
    NextKeepsInv(s, ReaderGo);
    LookSays(s);
    hide Inv, P.Next, P.Prefetched;
  }

  lemma TakeTold<M>(log: Log<M>, s: State<M>)
    requires Tells(log, s) && !s.rpc.Trying?
    ensures var (s', r) := Next(s, ReaderGo);
      Right(log, ReaderGo, r) && Tells(Note(log, ReaderGo, r), s')
  {
    hide WriterGoes, Look;
    NextKeepsInv(s, ReaderGo);
  }

  /** Every step has a right answer, and the log goes on telling the state. */
  lemma StepTold<M>(log: Log<M>, s: State<M>, step: Step<M>)
    requires Tells(log, s)
    ensures var (s', r) := Next(s, step);
      Right(log, step, r) && Tells(Note(log, step, r), s')
  {
    match step
    case StartWrite(_, _) => WriterCallTold(log, s, step);
    case StartTerminate => WriterCallTold(log, s, step);
    case StartUnwrite => WriterCallTold(log, s, step);
    case WriterGo => WriterGoTold(log, s);
    case ReaderGo => if s.rpc.Trying? { LookTold(log, s); } else { TakeTold(log, s); }
    case StartRead(_) => NextKeepsInv(s, step);
    case WakeUp => NextKeepsInv(s, step);
  }

  /** What the steps of a run answer, one by one. */
  function Answers<M>(s: State<M>, schedule: seq<Step<M>>): (answers: seq<Option<Result<M>>>)
    ensures |answers| == |schedule|
    decreases |schedule|
  {
    if schedule == [] then []
    else [Next(s, schedule[0]).1] + Answers(Next(s, schedule[0]).0, schedule[1..])
  }

  function Given<X>(answers: seq<Option<X>>): seq<X> {
    if answers == [] then [] else ToSeq(answers[0]) + Given(answers[1..])
  }

  /** Those that are there are what the calls returned. */
  lemma {:induction false} AnswersAreResults<M>(s: State<M>, schedule: seq<Step<M>>)
    ensures Given(Answers(s, schedule)) == RunFrom(s, schedule).1
    decreases |schedule|
  {
    if schedule != [] {
      hide Next;
      var s' := Next(s, schedule[0]).0;
      assert Answers(s, schedule)[1..] == Answers(s', schedule[1..]);
      AnswersAreResults(s', schedule[1..]);
    }
  }

  function Logged<M(==)>(log: Log<M>, schedule: seq<Step<M>>, answers: seq<Option<Result<M>>>): Log<M>
    requires |schedule| == |answers|
    decreases |schedule|
  {
    if schedule == [] then log else Logged(Note(log, schedule[0], answers[0]), schedule[1..], answers[1..])
  }

  ghost predicate AllRight<M>(log: Log<M>, schedule: seq<Step<M>>, answers: seq<Option<Result<M>>>)
    requires |schedule| == |answers|
    decreases |schedule|
  {
    schedule == [] ||
    (Right(log, schedule[0], answers[0]) && AllRight(Note(log, schedule[0], answers[0]), schedule[1..], answers[1..]))
  }

  lemma {:induction false} RunTold<M>(log: Log<M>, s: State<M>, schedule: seq<Step<M>>)
    requires Tells(log, s)
    ensures var answers := Answers(s, schedule);
      AllRight(log, schedule, answers) && Tells(Logged(log, schedule, answers), RunFrom(s, schedule).0)
    decreases |schedule|
  {
    if schedule != [] {
      hide Next, Tells, Right, Note;
      var (s', r) := Next(s, schedule[0]);
      StepTold(log, s, schedule[0]);
      assert Answers(s, schedule)[1..] == Answers(s', schedule[1..]);
      RunTold(Note(log, schedule[0], r), s', schedule[1..]);
    }
  }

  /** In every run every call is answered rightly, the queue holds what was written and not taken
      back, and the reads give, in order, a prefix of it up to the delimiter: all of that once a read
      has met the delimiter. */
  lemma ReadsAreWhatWasWritten<M>(schedule: seq<Step<M>>)
    ensures var s := RunFrom(Init(), schedule).0;
      var answers := Answers(Init(), schedule);
      var log := Logged(NewLog(), schedule, answers);
      && AllRight(NewLog(), schedule, answers)
      && s.q.slots == log.items && s.delivered == log.read
      && log.read <= UpToDelimiter(log.items)
      && (s.peerTerminated ==> log.read == UpToDelimiter(log.items))
  {
    hide Next, AllRight, Logged, Answers;
    RunTold(NewLog<M>(), Init<M>(), schedule);
    ReadsUpToDelimiter(schedule);
  }

  // ---- Calls end

  /** How many items are published or read. */
  function Public<M>(s: State<M>): nat { if s.q.w.At? then s.q.w.pos else s.q.front }

  lemma PublicGrows<M>(s: State<M>, step: Step<M>)
    requires Inv(s)
    ensures Public(s) <= Public(Next(s, step).0)
  {
    if !step.ReaderGo? { hide ReaderGoes; }
    if !step.WriterGo? { hide WriterGoes; }
  }

  /** A flush under way ends with everything complete published; no step of the reader stops it. */
  lemma FlushStep<M>(s: State<M>, step: Step<M>)
    requires Inv(s) && s.wpc.Flushing?
    ensures var s' := Next(s, step).0;
      if step.WriterGo? then
        Public(s') >= s.q.f || (!s.q.storing && s'.wpc.Flushing? && s'.q.storing && s'.q.f == s.q.f)
      else
        s'.wpc.Flushing? && s'.q.storing == s.q.storing && s'.q.f == s.q.f
  {
    if !step.ReaderGo? { hide ReaderGoes; }
    if !step.WriterGo? { hide WriterGoes; }
  }

  function Turns<M(==)>(schedule: seq<Step<M>>, step: Step<M>): nat {
    if schedule == [] then 0 else (if schedule[0] == step then 1 else 0) + Turns(schedule[1..], step)
  }

  lemma {:induction false} PublicStays<M>(s: State<M>, schedule: seq<Step<M>>)
    requires Inv(s)
    ensures Public(s) <= Public(RunFrom(s, schedule).0)
    decreases |schedule|
  {
    if schedule != [] {
      hide Next, Public, Inv;
      NextKeepsInv(s, schedule[0]);
      PublicGrows(s, schedule[0]);
      PublicStays(Next(s, schedule[0]).0, schedule[1..]);
    }
  }

  /** Whatever the reader does, after two turns of a flushing writer all complete items are published. */
  lemma {:induction false} FlushPublishes<M>(s: State<M>, schedule: seq<Step<M>>)
    requires Inv(s) && s.wpc.Flushing? && Turns(schedule, WriterGo) >= if s.q.storing then 1 else 2
    ensures Public(RunFrom(s, schedule).0) >= s.q.f
    decreases |schedule|
  {
    hide Next, Public, Inv;
    var s' := Next(s, schedule[0]).0;
    NextKeepsInv(s, schedule[0]);
    FlushStep(s, schedule[0]);
    if Public(s') >= s.q.f {
      PublicStays(s', schedule[1..]);
    } else {
      FlushPublishes(s', schedule[1..]);
    }
  }

  /** No deadlock: a writer that waits for the lock gets it from the reader, and returns. */
  lemma LockIsLetGo<M>(s: State<M>)
    requires Inv(s) && s.wpc.MustLock?
    ensures var t := Reader4(s); t.lock.Free? && t.wpc.MustLock? && Inv(t)
  {
    ReaderKeeps(s);
    var a := Next(s, ReaderGo).0;
    ReaderKeeps(a);
    var b := Next(a, ReaderGo).0;
    ReaderKeeps(b);
    ReaderKeeps(Next(b, ReaderGo).0);
  }

  /** Four turns of the reader. */
  function Reader4<M>(s: State<M>): State<M> {
    Next(Next(Next(Next(s, ReaderGo).0, ReaderGo).0, ReaderGo).0, ReaderGo).0
  }

  /** How many turns the reader needs to be without the lock for good. */
  function Holding<M>(s: State<M>): nat {
    match s.rpc
    case Trying(_, First) => 4
    case WantLock(_) => 3
    case Relocking(_) => 3
    case Trying(_, _) => 2
    case GoingToWait(_) => 1
    case Taking(_) => 1
    case _ => 0
  }

  lemma ReaderKeeps<M>(s: State<M>)
    requires Inv(s) && s.wpc.MustLock?
    ensures var s' := Next(s, ReaderGo).0;
      Inv(s') && s'.wpc.MustLock? && (Holding(s') < Holding(s) || Holding(s) == 0 == Holding(s'))
      && (Holding(s) == 0 ==> s.lock.Free?)
  {
    NextKeepsInv(s, ReaderGo);
  }

  lemma WriterReturns<M>(s: State<M>)
    requires Inv(s) && s.wpc.MustLock? && s.lock.Free?
    ensures var (s1, r1) := Next(s, WriterGo); var (s2, r2) := Next(s1, WriterGo);
      r1 == None && r2 == Some(WriteDone) && s2.wpc.WIdle?
  {
  }

  /** A read that does not wait takes at most two turns; one that waits for a time ends when the
      time is over. */
  lemma NoWaitReturns<M>(s: State<M>)
    requires Inv(s) && s.rpc == Trying(NoWait, First)
    ensures Next(s, ReaderGo).0.rpc.RIdle? || Next(Next(s, ReaderGo).0, ReaderGo).0.rpc.RIdle?
  {
    NextKeepsInv(s, ReaderGo);
  }

  lemma TimeIsOver<M>(s: State<M>)
    requires Inv(s) && s.rpc == Relocking(Timed) && s.lock.Free?
    ensures var (s1, s2) := (Next(s, ReaderGo).0, Next(Next(s, ReaderGo).0, ReaderGo).0);
      s2.rpc.RIdle? || Next(s2, ReaderGo).0.rpc.RIdle?
  {
    NextKeepsInv(s, ReaderGo);
    NextKeepsInv(Next(s, ReaderGo).0, ReaderGo);
  }
}
