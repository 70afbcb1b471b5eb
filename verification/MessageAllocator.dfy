/** The message pool (src/message_allocator.cpp, src/message.hpp): a linked free list for every size
    class, and an idle queue through which the other thread gives messages back. `place` says for
    every message of the pool where it is, and a message has one place only. Free lists belong to the
    owning thread. The idle queue is the atomic queue of module Fifo, and each of its calls is a
    method of its own, so that the two threads may take turns between any two of them. */
module MessageAllocators {

  import opened Options
  import opened Fifo
  import opened SizeClasses

  /** Index and capacity are set once, when the message is made. */
  class Message {
    const index: int
    const capacity: bv32
    var size: int
    var next: Message?

    constructor Init(index: int, capacity: bv32)
      ensures this.index == index && this.capacity == capacity && size == 0 && next == null
    {
      this.index, this.capacity, size, next := index, capacity, 0, null;
    }
  }

  /** The message after message j. */
  function After(list: seq<Message>, j: nat): Message? { if j + 1 < |list| then list[j + 1] else null }

  /** The messages of a free list are linked in order, and none is there twice. */
  ghost predicate ListOk(list: seq<Message>)
    reads list
  {
    && (forall j :: 0 <= j < |list| ==> list[j].next == After(list, j))
    && (forall j, k :: 0 <= j < k < |list| ==> list[j] != list[k])
  }

  /** A message of class i holds ClassSize(i) bytes; class -1 is for those too large for the pool. */
  ghost predicate Sized(m: Message) {
    -1 <= m.index < CLASSES && (m.index >= 0 ==> m.capacity == ClassSize(m.index))
  }

  /** Held: by the owning thread, on the way from the idle queue to a free list. */
  datatype Place = Free | Idle | Held | InUse

  /** On no list and not idle. */
  predicate Loose(place: map<Message, Place>, m: Message) { m !in place || place[m].Held? || place[m].InUse? }

  /** Nothing but that some idle messages are free now. */
  ghost predicate OnlyFreed(was: map<Message, Place>, place: map<Message, Place>) {
    && place.Keys == was.Keys
    && forall m :: m in place ==> place[m] == was[m] || (was[m] == Idle && place[m] == Free)
  }

  lemma FreeOneMore(was: map<Message, Place>, place: map<Message, Place>, m: Message)
    requires OnlyFreed(was, place) && m in place && place[m] == Idle
    ensures OnlyFreed(was, place[m := Held][m := Free])
  {
  }

  lemma FreedNone(place: map<Message, Place>)
    ensures OnlyFreed(place, place)
  {
  }

  lemma FreedKeepsUse(was: map<Message, Place>, place: map<Message, Place>)
    requires OnlyFreed(was, place)
    ensures At(place, InUse) == At(was, InUse)
  {
  }

  function At(place: map<Message, Place>, p: Place): set<Message> { set m | m in place && place[m] == p }

  /** Every message is where its place says, and nowhere else. */
  ghost predicate Placed(place: map<Message, Place>, lists: seq<seq<Message>>, idle: seq<Message>) {
    && |lists| == CLASSES
    && (forall m :: m in place ==> Sized(m) && (m.index < 0 ==> place[m] == InUse))
    && (forall m :: m in place && place[m] == Free ==> m in lists[m.index])
    && (forall i, j :: 0 <= i < CLASSES && 0 <= j < |lists[i]| ==>
          lists[i][j] in place && place[lists[i][j]] == Free && lists[i][j].index == i)
    && (forall m :: m in place && place[m] == Idle ==> m in idle)
    && (forall k :: 0 <= k < |idle| ==> idle[k] in place && place[idle[k]] == Idle)
    && (forall j, k :: 0 <= j < k < |idle| ==> idle[j] != idle[k])
  }

  ghost predicate HeadsOk(heads: seq<Message?>, lists: seq<seq<Message>>) {
    && |heads| == |lists| == CLASSES
    && forall i :: 0 <= i < |lists| ==> heads[i] == if lists[i] == [] then null else lists[i][0]
  }

  lemma NowhereElse(place: map<Message, Place>, lists: seq<seq<Message>>, idle: seq<Message>, m: Message)
    requires Placed(place, lists, idle) && Loose(place, m)
    ensures m !in idle && forall i :: 0 <= i < CLASSES ==> m !in lists[i]
  {
  }

  lemma PushKeepsPlaced(place: map<Message, Place>, lists: seq<seq<Message>>, idle: seq<Message>, m: Message)
    requires Placed(place, lists, idle) && m in place && Loose(place, m) && m.index >= 0
    ensures m.index < CLASSES
    ensures Placed(place[m := Free], lists[m.index := [m] + lists[m.index]], idle)
  {
    hide ClassSize;
    var lists' := lists[m.index := [m] + lists[m.index]];
    forall n | n in place && n != m && place[n] == Free ensures n in lists'[n.index] {
      assert n in lists[n.index];
    }
  }

  lemma PopKeepsPlaced(place: map<Message, Place>, lists: seq<seq<Message>>, idle: seq<Message>, i: nat)
    requires Placed(place, lists, idle) && i < CLASSES && lists[i] != [] && lists[i][0] !in lists[i][1..]
    ensures lists[i][0] in place && place[lists[i][0]] == Free
    ensures Placed(place[lists[i][0] := InUse], lists[i := lists[i][1..]], idle)
  {
    hide ClassSize;
    var m, lists' := lists[i][0], lists[i := lists[i][1..]];
    forall n | n in place && n != m && place[n] == Free ensures n in lists'[n.index] {
      assert n in lists[n.index];
      if n.index == i {
        var j :| 0 <= j < |lists[i]| && lists[i][j] == n;
        assert n == lists[i][1..][j - 1];
      }
    }
    forall i', j | 0 <= i' < CLASSES && 0 <= j < |lists'[i']| ensures lists'[i'][j] in place && lists'[i'][j] != m {
      assert i' == i ==> lists'[i'][j] == lists[i][j + 1] && lists[i][j + 1] in lists[i][1..];
      assert m.index == i;
    }
  }

  lemma HeadsPush(heads: seq<Message?>, lists: seq<seq<Message>>, i: nat, m: Message)
    requires HeadsOk(heads, lists) && i < CLASSES
    ensures |lists| == |heads| == CLASSES
    ensures HeadsOk(heads[i := m], lists[i := [m] + lists[i]])
  {
  }

  lemma HeadsPop(heads: seq<Message?>, lists: seq<seq<Message>>, i: nat)
    requires HeadsOk(heads, lists) && i < |lists| && lists[i] != []
    ensures HeadsOk(heads[i := if |lists[i]| > 1 then lists[i][1] else null], lists[i := lists[i][1..]])
  {
  }

  lemma ListPush(list: seq<Message>, m: Message)
    requires ListOk(list) && m !in list && m.next == if list == [] then null else list[0]
    ensures ListOk([m] + list)
  {
    var longer := [m] + list;
    forall j | 0 <= j < |longer| ensures longer[j].next == After(longer, j) {
      if j > 0 { assert longer[j] == list[j - 1] && After(longer, j) == After(list, j - 1); }
    }
  }

  lemma AddKeepsPlaced(place: map<Message, Place>, lists: seq<seq<Message>>, idle: seq<Message>, m: Message)
    requires Placed(place, lists, idle) && m !in place && Sized(m)
    ensures Placed(place[m := InUse], lists, idle)
  {
    hide Sized;
  }

  lemma DropKeepsPlaced(place: map<Message, Place>, lists: seq<seq<Message>>, idle: seq<Message>, m: Message)
    requires Placed(place, lists, idle) && m in place && place[m] == InUse
    ensures Placed(place - {m}, lists, idle)
  {
    hide Sized;
  }

  lemma EnqueueKeepsPlaced(place: map<Message, Place>, lists: seq<seq<Message>>, idle: seq<Message>, m: Message)
    requires Placed(place, lists, idle) && m in place && place[m] == InUse && m.index >= 0
    ensures Placed(place[m := Idle], lists, idle + [m])
  {
    hide Sized;
    NowhereElse(place, lists, idle, m);
  }

  lemma DequeueKeepsPlaced(place: map<Message, Place>, lists: seq<seq<Message>>, idle: seq<Message>)
    requires Placed(place, lists, idle) && idle != []
    ensures idle[0] in place && place[idle[0]] == Idle && idle[0].index >= 0
    ensures Placed(place[idle[0] := Held], lists, idle[1..])
  {
    hide Sized;
    var m, rest := idle[0], idle[1..];
    forall n | n in place && n != m && place[n] == Idle ensures n in rest {
      var k :| 0 <= k < |idle| && idle[k] == n;
      assert n == rest[k - 1];
    }
  }

  class MessageAllocator {
    const enableRecycle: bool
    const freeLists: array<Message?>
    var idle: Fifo<Message>  // the idle queue
    ghost var lists: seq<seq<Message>>
    ghost var place: map<Message, Place>

    ghost predicate Valid()
      reads this, freeLists, place.Keys
    {
      && idle.Valid()
      && Placed(place, lists, Waiting())
      && HeadsOk(freeLists[..], lists)
      && |lists| == CLASSES
      && (forall i :: 0 <= i < CLASSES ==> ListIn(i) && ListOk(lists[i]))
    }

    ghost predicate ListIn(i: nat)
      requires i < |lists|
      reads this
    {
      forall m :: m in lists[i] ==> m in place.Keys
    }

    /** Given back and not taken out again, oldest first. */
    ghost function Waiting(): seq<Message>
      reads this
      requires idle.Valid()
    {
      idle.items[idle.taken..]
    }

    /** What clients hold: handed out and not given back. */
    ghost function InHands(): set<Message> reads this`place { At(place, InUse) }

    ghost function HeldByOwner(): set<Message> reads this`place { At(place, Held) }

    lemma Where(msg: Message)
      ensures msg in InHands() <==> msg in place && place[msg] == InUse
      ensures msg in HeldByOwner() <==> msg in place && place[msg] == Held
    {
    }

    constructor (enableRecycle: bool)
      ensures Valid() && place == map[] && idle == Empty() && fresh(freeLists)
      ensures this.enableRecycle == enableRecycle
    {
      this.enableRecycle := enableRecycle;
      freeLists := new Message?[CLASSES](_ => null);
      idle := Empty();
      lists := seq(CLASSES, _ => []);
      place := map[];
    }

    lemma Head(i: nat)
      requires Valid() && i < CLASSES
      ensures |lists| == CLASSES == freeLists.Length && freeLists[i] == if lists[i] == [] then null else lists[i][0]
    {
      HeadIs(i);
    }

    lemma ListOfNone(index: nat)
      requires Valid() && index < CLASSES && freeLists[index] == null
      ensures forall m :: m in place && m.index == index ==> place[m] != Free
    {
      hide ClassSize;
      HeadIs(index);
    }

    lemma HeadIs(i: nat)
      requires i < CLASSES && HeadsOk(freeLists[..], lists)
      ensures |lists| == CLASSES == freeLists.Length && freeLists[i] == if lists[i] == [] then null else lists[i][0]
    {
      assert freeLists[..][i] == freeLists[i];
    }

    /** The messages of a list after its first one are a list without it; no other list has it. */
    lemma FirstOf(index: nat)
      requires Valid() && index < CLASSES && lists[index] != []
      ensures var list := lists[index];
        && list[0].index == index && list[0].capacity == ClassSize(index)
        && list[0].next == (if |list| > 1 then list[1] else null)
        && list[0] !in list[1..] && ListOk(list[1..])
      ensures forall i :: 0 <= i < CLASSES && i != index ==> lists[index][0] !in lists[i]
    {
      hide ClassSize;
      var list := lists[index];
      assert ListOk(list) && list[0].next == After(list, 0);
      var rest := list[1..];
      forall j | 0 <= j < |rest| ensures rest[j].next == After(rest, j) {
        assert rest[j] == list[j + 1] && After(rest, j) == After(list, j + 1);
      }
    }

    // ---- Steps of the thread that allocates

    /** Putting a message at the front of its free list. */
    method PushFree(msg: Message)
      requires Valid() && msg in place && Loose(place, msg) && msg.index >= 0
      modifies this`lists, this`place, freeLists, msg`next
      ensures Valid() && place == old(place)[msg := Free]
      ensures InHands() == old(InHands()) - {msg} && HeldByOwner() == old(HeldByOwner()) - {msg}
    {
      hide Placed, HeadsOk, ListOk;
      var index := msg.index;
      NowhereElse(place, lists, Waiting(), msg);
      PushKeepsPlaced(place, lists, Waiting(), msg);
      HeadIs(index);
      HeadsPush(freeLists[..], lists, index, msg);
      msg.next := freeLists[index];
      freeLists[index] := msg;
      ListPush(lists[index], msg);
      assert freeLists[..] == old(freeLists[..])[index := msg];
      lists := lists[index := [msg] + lists[index]];
      place := place[msg := Free];
      forall i | 0 <= i < CLASSES ensures ListIn(i) && ListOk(lists[i]) {
        assert old(ListIn(i) && ListOk(lists[i]));
      }
    }

    /** Taking the first message off a free list. */
    method PopFree(index: nat) returns (msg: Message)
      requires Valid() && index < CLASSES && lists[index] != []
      modifies this`lists, this`place, freeLists, place.Keys
      ensures Valid() && msg in old(place) && old(place)[msg] == Free && place == old(place)[msg := InUse]
      ensures msg !in old(InHands()) && InHands() == old(InHands()) + {msg} && HeldByOwner() == old(HeldByOwner())
      ensures msg.index == index && msg.capacity == ClassSize(index) && msg.next == null
    {
      hide Placed, HeadsOk, ListOk;
      HeadIs(index);
      FirstOf(index);
      PopKeepsPlaced(place, lists, Waiting(), index);
      HeadsPop(freeLists[..], lists, index);
      msg := freeLists[index];
      var rest := msg.next;
      msg.next := null;
      freeLists[index] := rest;
      assert freeLists[..] == old(freeLists[..])[index := rest];
      lists := lists[index := lists[index][1..]];
      place := place[msg := InUse];
      forall i | 0 <= i < CLASSES ensures ListIn(i) && ListOk(lists[i]) {
        assert old(ListIn(i) && ListOk(lists[i]));
      }
    }

    /** A new message, in the hands of the caller. */
    method Make(index: int, capacity: bv32) returns (msg: Message)
      requires Valid() && -1 <= index < CLASSES && (index >= 0 ==> capacity == ClassSize(index))
      modifies this`place
      ensures Valid() && fresh(msg) && place == old(place)[msg := InUse] && msg !in old(place)
      ensures msg !in old(InHands()) && InHands() == old(InHands()) + {msg} && HeldByOwner() == old(HeldByOwner())
      ensures msg.index == index && msg.capacity == capacity
    {
      hide Placed, HeadsOk, ListOk, ClassSize;
      msg := new Message.Init(index, capacity);
      AddKeepsPlaced(place, lists, Waiting(), msg);
      place := place[msg := InUse];
      forall i | 0 <= i < CLASSES ensures ListIn(i) && ListOk(lists[i]) {
        assert old(ListIn(i) && ListOk(lists[i]));
      }
    }

    /** Is there something to take out of the idle queue? */
    method CheckIdle() returns (available: bool)
      requires Valid()
      modifies this`idle
      ensures Valid() && (idle, available) == old(idle).CheckRead()
    {
      hide Placed, HeadsOk, ListOk;
      var checked := idle.CheckRead();
      idle, available := checked.0, checked.1;
      assert Waiting() == old(Waiting());
    }

    /** A message leaves the idle queue. */
    method TakeIdle() returns (msg: Message)
      requires Valid() && idle.taken < idle.published
      modifies this`place, this`idle
      ensures Valid() && (idle, Some(msg)) == old(idle).Take() && msg.index >= 0
      ensures msg in old(place) && old(place)[msg] == Idle && place == old(place)[msg := Held]
      ensures InHands() == old(InHands()) && HeldByOwner() == old(HeldByOwner()) + {msg}
    {
      hide Placed, HeadsOk, ListOk, ClassSize;
      DequeueKeepsPlaced(place, lists, Waiting());
      msg := idle.Take().1.value;
      idle := idle.Take().0;
      assert Waiting() == old(Waiting())[1..];
      place := place[msg := Held];
      forall i | 0 <= i < CLASSES ensures ListIn(i) && ListOk(lists[i]) {
        assert old(ListIn(i) && ListOk(lists[i]));
      }
    }

    // ---- Steps of the other thread

    /** A message goes into the idle queue. */
    method WriteIdle(msg: Message)
      requires Valid() && msg in InHands() && msg.index >= 0
      modifies this`place, this`idle
      ensures Valid() && idle == old(idle).Write(msg, false) && place == old(place)[msg := Idle]
      ensures InHands() == old(InHands()) - {msg} && HeldByOwner() == old(HeldByOwner())
    {
      hide Placed, HeadsOk, ListOk;
      EnqueueKeepsPlaced(place, lists, Waiting(), msg);
      idle := idle.Write(msg, false);
      assert Waiting() == old(Waiting()) + [msg];
      place := place[msg := Idle];
      forall i | 0 <= i < CLASSES ensures ListIn(i) && ListOk(lists[i]) {
        assert old(ListIn(i) && ListOk(lists[i]));
      }
    }

    method FlushIdle()
      requires Valid()
      modifies this`idle
      ensures Valid() && idle == old(idle).Flush().0
    {
      hide Placed, HeadsOk, ListOk;
      idle := idle.Flush().0;
      assert Waiting() == old(Waiting());
    }

    /** By either thread: a message too large for the pool is deleted. */
    ghost method Drop(msg: Message)
      requires Valid() && msg in place && place[msg] == InUse
      modifies this`place
      ensures Valid() && place == old(place) - {msg}
      ensures InHands() == old(InHands()) - {msg} && HeldByOwner() == old(HeldByOwner())
    {
      hide Placed, HeadsOk, ListOk, Sized;
      NowhereElse(place, lists, Waiting(), msg);
      DropKeepsPlaced(place, lists, Waiting(), msg);
      place := place - {msg};
      forall i | 0 <= i < CLASSES ensures ListIn(i) && ListOk(lists[i]) {
        assert old(ListIn(i) && ListOk(lists[i]));
      }
    }

    // ---- Whole calls, while the other thread does nothing

    /** ConsumeIdleQueue: what the other thread gave back and published becomes free. */
    method ConsumeIdleQueue()
      requires Valid()
      modifies this`lists, this`place, this`idle, freeLists, place.Keys
      ensures Valid() && OnlyFreed(old(place), place) && InHands() == old(InHands())
      ensures idle.items == old(idle.items) && idle.published == old(idle.published)
      ensures if enableRecycle then idle.taken == idle.published else idle == old(idle) && place == old(place)
    {
      hide Placed, HeadsOk, ListOk, Valid, OnlyFreed, At;
      FreedNone(place);
      if !enableRecycle { return; }
      var available := CheckIdle();
      ValidQueue();
      while available
        invariant Valid() && OnlyFreed(old(place), place) && place.Keys == old(place.Keys)
        invariant idle.items == old(idle.items) && idle.published == old(idle.published)
        invariant idle.taken <= idle.published && available == (idle.taken < idle.published)
        decreases idle.published - idle.taken
      {
        ghost var before := place;
        var msg := TakeIdle();
        FreeOneMore(old(place), before, msg);
        PushFree(msg);
        available := CheckIdle();
      }
      FreedKeepsUse(old(place), place);
    }

    lemma ValidQueue()
      requires Valid()
      ensures idle.Valid()
    {
    }

    /** No message of a class could be handed out: all are in use, on their way, or given back and
        out of reach. */
    ghost predicate NoneLeft(index: nat)
      reads this
    {
      forall m :: m in place && m.index == index ==>
        Loose(place, m) || (place[m] == Idle && (enableRecycle ==> m in idle.items[OutOfReach()..]))
    }

    /** From where on the idle queue is not published. */
    ghost function OutOfReach(): nat
      reads this
    {
      if idle.published <= |idle.items| then idle.published else |idle.items|
    }

    lemma EmptyList(index: nat)
      requires Valid() && index < CLASSES && freeLists[index] == null
      requires enableRecycle ==> idle.taken == idle.published
      ensures NoneLeft(index)
    {
      hide ClassSize;
      HeadIs(index);
    }

    /** Allocate: a message that nobody else has, with room for the capacity, and a new one only if
        there is none to reuse. */
    method Allocate(capacity: bv32) returns (ret: Message)
      requires Valid() && capacity < 0x8000_0000
      modifies this`lists, this`place, this`idle, freeLists, place.Keys
      ensures Valid() && ret !in old(InHands()) && InHands() == old(InHands()) + {ret}
      ensures place.Keys == old(place.Keys) + {ret} && (ret in old(place.Keys) || fresh(ret))
      ensures capacity <= LARGEST ==> ret.index == ClassOf(capacity) && RoomFor(capacity, ret.capacity)
      ensures capacity > LARGEST ==> ret.index == -1 && ret.capacity == capacity && fresh(ret)
      ensures capacity <= LARGEST && fresh(ret) ==> old(NoneLeft(ClassOf(capacity)))
    {
      hide Placed, HeadsOk, ListOk, ClassOf, ClassSize, RoomFor;
      if capacity > LARGEST {
        ret := Make(-1, capacity);
        return;
      }
      ClassFits(capacity);
      var index := ClassOf(capacity);
      HeadIs(index);
      var freeHead := freeLists[index];
      if freeHead == null {
        ConsumeIdleQueue();
        HeadIs(index);
        freeHead := freeLists[index];
      }
      if freeHead != null {
        ret := PopFree(index);
      } else {
        EmptyList(index);
        ret := Make(index, ClassSize(index));
      }
    }

    /** Release, by the thread that allocates. */
    method Release(msg: Message)
      requires Valid() && msg in InHands()
      modifies this`lists, this`place, freeLists, msg
      ensures Valid() && InHands() == old(InHands()) - {msg} && HeldByOwner() == old(HeldByOwner())
      ensures if msg.index < 0 then place == old(place) - {msg} else place == old(place)[msg := Free] && msg.size == 0
    {
      hide Placed, HeadsOk, ListOk;
      if msg.index < 0 {
        Drop(msg);
        return;
      }
      NowhereElse(place, lists, Waiting(), msg);
      msg.size, msg.next := 0, null;
      forall i | 0 <= i < CLASSES ensures ListIn(i) && ListOk(lists[i]) {
        assert old(ListIn(i) && ListOk(lists[i]));
      }
      PushFree(msg);
    }

    /** Recycle, by the other thread: the message waits in the idle queue, as it is. */
    method Recycle(msg: Message)
      requires Valid() && msg in InHands()
      modifies this`place, this`idle
      ensures Valid() && InHands() == old(InHands()) - {msg} && HeldByOwner() == old(HeldByOwner())
      ensures if msg.index < 0 then place == old(place) - {msg} && idle == old(idle)
        else place == old(place)[msg := Idle] && idle == old(idle).Write(msg, false).Flush().0
    {
      hide Placed, HeadsOk, ListOk, Valid;
      if msg.index < 0 {
        Drop(msg);
        return;
      }
      WriteIdle(msg);
      FlushIdle();
    }
  }
}
