/** Progress of the pipe (src/pipe.cpp): PipeProtocol says that no wake-up is lost; here every schedule
    in which both threads get enough turns makes a Read return the item that is there. */
module PipeFairness {

  import opened Options
  import opened Fifo
  import P = SpscProtocol
  import opened PipeProtocol

  /** A Read is under way, and a published item is there for it. */
  ghost predicate Owed<M>(s: State<M>) {
    Inv(s) && HasUnread(s) && !s.rpc.RIdle? && !s.peerTerminated
  }

  /** How far the reader is from the item. */
  function Rank<M>(s: State<M>): (n: nat)
    ensures 1 <= n <= 8
  {
    match s.rpc
    case GoingToWait(_) => 8
    case Waiting(_) => if s.wpc.MustLock? then 7 else 5
    case Relocking(_) => if s.wpc.MustLock? then 6 else if s.wpc.MustNotify? then 4 else 3
    case WantLock(_) => if s.wpc.MustLock? then 6 else if s.wpc.MustNotify? then 4 else 3
    case Trying(_, _) => 2
    case _ => 1
  }

  /** The thread whose turn brings it nearer. */
  function Helper<M>(s: State<M>): Step<M> { if 4 <= Rank(s) <= 7 then WriterGo else ReaderGo }

  /** Read has returned the item. */
  ghost predicate Got<M>(s: State<M>, end: State<M>, results: seq<Result<M>>) {
    s.q.front < |s.q.slots| && s.q.front < end.q.front && ResultOf(s.q.slots[s.q.front]) in results
  }

  /** The item is still there, and the reader has not gone back. */
  ghost predicate Nearer<M>(s: State<M>, end: State<M>, helped: bool) {
    && Owed(s) && Owed(end) && end.q.front == s.q.front && end.q.slots[s.q.front] == s.q.slots[s.q.front]
    && (if helped then Rank(end) < Rank(s) else Rank(end) <= Rank(s))
  }

  lemma CallsKeepItem<M>(s: State<M>, step: Step<M>)
    requires Owed(s) && (step.StartWrite? || step.StartTerminate? || step.StartUnwrite?)
    ensures Nearer(s, Next(s, step).0, false)
  {
    NextKeepsInv(s, step);
  }

  lemma WriterHelps<M>(s: State<M>)
    requires Owed(s)
    ensures Nearer(s, Next(s, WriterGo).0, Helper(s) == WriterGo)
  {
    NextKeepsInv(s, WriterGo);
  }

  lemma LookHelps<M>(s: State<M>)
    requires Owed(s) && s.rpc.Trying?
    ensures Nearer(s, Next(s, ReaderGo).0, true)
  {
    hide Inv, WriterGoes, Take, NothingFound;
    LookFinds(s);
    NextKeepsInv(s, ReaderGo);
  }

  lemma LookFinds<M>(s: State<M>)
    requires Owed(s) && s.rpc.Trying?
    ensures !s.q.storing && s.q.front < |s.q.slots| && !s.rpc.RIdle?
    ensures var s' := Next(s, ReaderGo).0;
      && s'.rpc == Taking(s.rpc.stage) && s'.q.front == s.q.front && s'.q.slots == s.q.slots
      && HasUnread(s') && !s'.peerTerminated
  {
    hide WriterGoes, Take;
  }

  lemma TakeHelps<M>(s: State<M>)
    requires Owed(s) && s.rpc.Taking?
    ensures var (s', r) := Next(s, ReaderGo); Got(s, s', ToSeq(r))
  {
    hide WriterGoes, Look;
  }

  lemma LockHelps<M>(s: State<M>)
    requires Owed(s) && !s.rpc.Trying? && !s.rpc.Taking?
    ensures Nearer(s, Next(s, ReaderGo).0, Helper(s) == ReaderGo)
  {
    hide WriterGoes, Look, Take;
    NextKeepsInv(s, ReaderGo);
  }

  lemma ReaderHelps<M>(s: State<M>)
    requires Owed(s)
    ensures var (s', r) := Next(s, ReaderGo);
      Got(s, s', ToSeq(r)) || Nearer(s, s', Helper(s) == ReaderGo)
  {
    if s.rpc.Trying? {
      LookHelps(s);
      assert Helper(s) == ReaderGo;
    } else {
      hide Next;
      if s.rpc.Taking? { TakeHelps(s); } else { LockHelps(s); }
    }
  }

  /** No step loses ground, and a step of the helper gains some. */
  lemma StepGetsNearer<M>(s: State<M>, step: Step<M>)
    requires Owed(s)
    ensures var (s', r) := Next(s, step);
      Got(s, s', ToSeq(r)) || Nearer(s, s', step == Helper(s))
  {
    match step
    case StartWrite(_, _) => CallsKeepItem(s, step);
    case StartTerminate => CallsKeepItem(s, step);
    case StartUnwrite => CallsKeepItem(s, step);
    case WriterGo => WriterHelps(s);
    case ReaderGo => ReaderHelps(s);
    case StartRead(_) =>
    case WakeUp => NextKeepsInv(s, step);
  }

  lemma FrontStep<M>(s: State<M>, step: Step<M>)
    ensures s.q.front <= Next(s, step).0.q.front
  {
    if step.WriterGo? {
      hide ReaderGoes;
    } else if step.ReaderGo? {
      hide WriterGoes;
    } else {
      hide ReaderGoes, WriterGoes;
    }
  }

  lemma {:induction false} FrontGrows<M>(s: State<M>, schedule: seq<Step<M>>)
    ensures s.q.front <= RunFrom(s, schedule).0.q.front
    decreases |schedule|
  {
    if schedule != [] {
      hide Next;
      FrontStep(s, schedule[0]);
      FrontGrows(Next(s, schedule[0]).0, schedule[1..]);
    }
  }

  /** Any schedule keeps the distance, and one with a turn of the helper shortens it. */
  lemma {:induction false} ScheduleGetsNearer<M>(s: State<M>, schedule: seq<Step<M>>)
    requires Owed(s)
    ensures var (end, results) := RunFrom(s, schedule);
      Got(s, end, results) || Nearer(s, end, Helper(s) in schedule)
    decreases |schedule|
  {
    if schedule != [] {
      hide Next, Owed, Rank;
      var (s', r) := Next(s, schedule[0]);
      StepGetsNearer(s, schedule[0]);
      if Got(s, s', ToSeq(r)) {
        FrontGrows(s', schedule[1..]);
      } else {
        ScheduleGetsNearer(s', schedule[1..]);
      }
    }
  }

  function Flatten<X>(blocks: seq<seq<X>>): seq<X> {
    if blocks == [] then [] else blocks[0] + Flatten(blocks[1..])
  }

  /** Fairness: both threads get a turn in every block. */
  ghost predicate Fair<M>(blocks: seq<seq<Step<M>>>) {
    forall k :: 0 <= k < |blocks| ==> WriterGo in blocks[k] && ReaderGo in blocks[k]
  }

  lemma ItemIsThere<M>(s: State<M>)
    requires Owed(s)
    ensures s.q.front < |s.q.slots|
  {
  }

  /** Progress: whatever else the threads do in between, a Read that is under way while an item is
      there, asleep or not, returns it by the end of the eighth block. */
  lemma {:induction false} FairSchedulesDeliver<M>(s: State<M>, blocks: seq<seq<Step<M>>>)
    requires Owed(s) && Fair(blocks) && |blocks| >= Rank(s)
    ensures var (end, results) := RunFrom(s, Flatten(blocks)); Got(s, end, results)
    decreases |blocks|
  {
    hide Owed, Rank, RunFrom;
    ItemIsThere(s);
    var (middle, first) := RunFrom(s, blocks[0]);
    RunConcat(s, blocks[0], Flatten(blocks[1..]));
    ScheduleGetsNearer(s, blocks[0]);
    if Got(s, middle, first) {
      FrontGrows(middle, Flatten(blocks[1..]));
    } else {
      assert Fair(blocks[1..]) by {
        forall k | 0 <= k < |blocks[1..]| ensures WriterGo in blocks[1..][k] && ReaderGo in blocks[1..][k] {
          assert blocks[1..][k] == blocks[k + 1];
        }
      }
      FairSchedulesDeliver(middle, blocks[1..]);
    }
  }

  /** In particular a sleeping reader, whatever run has put it to sleep. */
  lemma SleeperIsServed<M>(before: seq<Step<M>>, blocks: seq<seq<Step<M>>>)
    requires var s := RunFrom(Init<M>(), before).0; s.rpc.Waiting? && HasUnread(s)
    requires Fair(blocks) && |blocks| >= 7
    ensures var s := RunFrom(Init<M>(), before).0;
      var (end, results) := RunFrom(s, Flatten(blocks)); Got(s, end, results)
  {
    RunKeepsInv(Init<M>(), before);
    FairSchedulesDeliver(RunFrom(Init<M>(), before).0, blocks);
  }
}
