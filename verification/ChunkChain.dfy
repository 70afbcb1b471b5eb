/** The memory of a batch queue: linked chunks of N slots, and which of their slots are live.
    `place[i]` is the slot of the i-th element ever pushed; positions from `front` on are live. */
module ChunkChains {

  type Address = nat
  const NULL: Address := 0

  datatype Chunk<T> = Chunk(values: seq<T>, prev: Address, next: Address)
  datatype SlotPointer = Null | Slot(chunk: Address, offset: nat)

  datatype Chain<T> = Chain(
    N: nat, heap: map<Address, Chunk<T>>, place: seq<SlotPointer>, front: nat,
    liveSlot: map<Address, nat>)  // each chunk of the list, with the position of a live slot in it
  {
    ghost predicate Live(i: int) { front <= i < |place| }

    ghost predicate SlotOk(i: int) {
      Live(i) ==>
        && place[i].Slot? && place[i].offset < N
        && place[i].chunk in liveSlot && place[i].chunk in heap && |heap[place[i].chunk].values| == N
    }

    /** Slots of one chunk are as far apart as their positions. */
    ghost predicate Apart(i: int, j: int) {
      Live(i) && Live(j) && place[i].Slot? && place[j].Slot? && place[i].chunk == place[j].chunk
      ==> j - i == place[j].offset - place[i].offset
    }

    /** The slot after slot i is the next one of its chunk, or the first one of a chunk linked both ways. */
    ghost predicate Follows(i: int) {
      Live(i) && Live(i + 1) && place[i].Slot? && place[i + 1].Slot? ==>
        if place[i].offset + 1 < N then place[i + 1] == Slot(place[i].chunk, place[i].offset + 1)
        else
          && place[i + 1].offset == 0
          && place[i].chunk in heap && heap[place[i].chunk].next == place[i + 1].chunk
          && place[i + 1].chunk in heap && heap[place[i + 1].chunk].prev == place[i].chunk
    }

    ghost predicate ListedOk(a: Address) {
      a in liveSlot ==> Live(liveSlot[a]) && place[liveSlot[a]].Slot? && place[liveSlot[a]].chunk == a
    }

    ghost predicate Ok() {
      && N >= 1
      && front < |place|
      && (forall i :: SlotOk(i))
      && (forall i, j :: Apart(i, j))
      && (forall i :: Follows(i))
      && (forall a :: ListedOk(a))
    }

    ghost function ValueAt(i: int): T
      requires SlotOk(i) && Live(i)
    {
      heap[place[i].chunk].values[place[i].offset]
    }

    ghost predicate SameAt(other: Chain<T>, i: int) {
      Live(i) && other.Live(i) && SlotOk(i) && other.SlotOk(i) ==> ValueAt(i) == other.ValueAt(i)
    }

    ghost predicate SameValues(other: Chain<T>) {
      forall i :: SameAt(other, i)
    }

    ghost function Last(): SlotPointer requires |place| > 0 { place[|place| - 1] }

    /** Two live slots have the same address exactly when they are the same position. */
    lemma AddressIsPosition(i: int, j: int)
      requires Ok() && Live(i) && Live(j)
      ensures place[i] == place[j] <==> i == j
    {
      assert Apart(i, j) && SlotOk(i) && SlotOk(j);
    }

    ghost function Store(i: int, value: T): Chain<T>
      requires SlotOk(i) && Live(i)
    {
      var c := heap[place[i].chunk];
      this.(heap := heap[place[i].chunk := c.(values := c.values[place[i].offset := value])])
    }

    lemma StoreOk(k: int, value: T)
      requires Ok() && Live(k) && SlotOk(k)
      ensures var s := Store(k, value);
        && s.Ok()
        && forall i :: Live(i) ==> SlotOk(i) && s.SlotOk(i) && s.ValueAt(i) == if i == k then value else ValueAt(i)
    {
      var s := Store(k, value);
      forall i ensures s.SlotOk(i) && s.Follows(i) { assert SlotOk(i) && Follows(i) && SlotOk(i + 1); }
      forall i, j ensures s.Apart(i, j) { assert Apart(i, j); }
      forall a ensures s.ListedOk(a) { assert ListedOk(a); }
      forall i | Live(i)
        ensures SlotOk(i) && s.SlotOk(i) && s.ValueAt(i) == if i == k then value else ValueAt(i)
      {
        AddressIsPosition(i, k);
        assert SlotOk(i);
      }
    }

    /** One more slot in the last chunk. */
    ghost function Extend(): Chain<T>
      requires |place| > 0 && Last().Slot?
    {
      this.(place := place + [Slot(Last().chunk, Last().offset + 1)])
    }

    lemma ExtendOk()
      requires Ok() && Last().Slot? && Last().offset + 1 < N
      ensures Extend().Ok() && Extend().SameValues(this)
    {
      var s := Extend();
      var n := |place| - 1;
      assert SlotOk(n);
      forall i ensures s.SlotOk(i) && s.Follows(i) { assert SlotOk(i) && Follows(i); }
      forall i, j ensures s.Apart(i, j) { assert Apart(i, j) && Apart(i, n) && Apart(n, j); }
      forall a ensures s.ListedOk(a) { assert ListedOk(a); }
    }

    /** A chunk outside the list is linked behind the last one and gives the next slot. */
    ghost function Link(sc: Address): Chain<T>
      requires |place| > 0 && Last().Slot? && Last().chunk in heap && sc in heap && sc != Last().chunk
    {
      var end := Last().chunk;
      this.(heap := heap[end := heap[end].(next := sc)][sc := heap[sc].(prev := end)],
            place := place + [Slot(sc, 0)],
            liveSlot := liveSlot[sc := |place|])
    }

    lemma LinkOk(sc: Address)
      requires Ok() && Last().Slot? && Last().offset + 1 == N
      requires sc in heap && sc !in liveSlot && |heap[sc].values| == N
      ensures Last().chunk in heap && sc != Last().chunk
      ensures Link(sc).Ok() && Link(sc).SameValues(this)
    {
      var n := |place| - 1;
      assert SlotOk(n);
      var s := Link(sc);
      forall i ensures s.SlotOk(i) { assert SlotOk(i); }
      forall i ensures s.Follows(i) { assert Follows(i) && SlotOk(i) && SlotOk(i + 1) && Apart(i, n); }
      forall i, j ensures s.Apart(i, j) { assert Apart(i, j) && SlotOk(i) && SlotOk(j); }
      forall a ensures s.ListedOk(a) { assert ListedOk(a); }
    }

    /** The last slot is given back; a chunk that held no other slot is freed. */
    ghost function Shrink(): Chain<T>
      requires |place| > 1 && place[|place| - 2].Slot? && place[|place| - 2].chunk in heap && Last().Slot?
    {
      var before := place[|place| - 2].chunk;
      if Last().offset > 0
      then this.(place := place[..|place| - 1], liveSlot := liveSlot[before := |place| - 2])
      else
        this.(heap := (heap - {Last().chunk})[before := heap[before].(next := NULL)],
              place := place[..|place| - 1],
              liveSlot := liveSlot - {Last().chunk})
    }

    lemma ShrinkOk()
      requires Ok() && front + 1 < |place|
      ensures SlotOk(|place| - 2) && SlotOk(|place| - 1)
      ensures Shrink().Ok() && Shrink().SameValues(this)
    {
      var n := |place| - 1;
      assert SlotOk(n) && SlotOk(n - 1) && Follows(n - 1);
      var s := Shrink();
      forall i ensures s.SlotOk(i) { assert SlotOk(i) && Apart(i, n); }
      forall i ensures s.Follows(i) {
        assert Follows(i) && SlotOk(i) && Apart(i, n) && Apart(i, n - 1) && Apart(i + 1, n);
      }
      forall i, j ensures s.Apart(i, j) { assert Apart(i, j); }
      forall a ensures s.ListedOk(a) { assert ListedOk(a) && Apart(n - 1, n); }
    }

    /** The first slot is consumed; a chunk whose last slot it was leaves the list. */
    ghost function Advance(): Chain<T>
      requires Live(front) && Live(front + 1) && place[front].Slot? && place[front + 1].Slot?
    {
      var now := place[front + 1].chunk;
      if place[front].offset + 1 < N
      then this.(front := front + 1, liveSlot := liveSlot[now := front + 1])
      else
        this.(heap := if now in heap then heap[now := heap[now].(prev := NULL)] else heap,
              front := front + 1,
              liveSlot := liveSlot - {place[front].chunk})
    }

    lemma AdvanceOk()
      requires Ok() && front + 1 < |place|
      ensures SlotOk(front) && SlotOk(front + 1)
      ensures Advance().Ok() && Advance().SameValues(this)
    {
      assert SlotOk(front) && SlotOk(front + 1) && Follows(front);
      var s := Advance();
      forall i ensures s.SlotOk(i) { assert SlotOk(i) && Apart(front, i); }
      forall i ensures s.Follows(i) { assert Follows(i) && SlotOk(i) && SlotOk(i + 1) && Apart(front + 1, i + 1); }
      forall i, j ensures s.Apart(i, j) { assert Apart(i, j); }
      forall a ensures s.ListedOk(a) { assert ListedOk(a) && Apart(front, front + 1); }
    }

    /** Memory outside the list may change at will. */
    lemma OtherMemory(h: map<Address, Chunk<T>>)
      requires Ok()
      requires forall a :: a in liveSlot && a in heap ==> a in h && h[a] == heap[a]
      ensures this.(heap := h).Ok() && this.(heap := h).SameValues(this)
    {
      var s := this.(heap := h);
      forall i ensures s.SlotOk(i) && s.Follows(i) { assert SlotOk(i) && Follows(i) && SlotOk(i + 1); }
      forall i, j ensures s.Apart(i, j) { assert Apart(i, j); }
      forall a ensures s.ListedOk(a) { assert ListedOk(a); }
    }
  }

  /** Where the writer is inside Push, and the reader inside Pop. */
  datatype PushState = Pushed | NeedChunk | HaveChunk(chunk: Address)
  datatype PopState = Popped | MustOffer(chunk: Address) | MustFree(chunk: Address)

  /** The list of chunks, the spare chunk, and what the two threads hold between atomic accesses. */
  datatype Memory<T> = Memory(chain: Chain<T>, spare: Address, pushing: PushState, popping: PopState) {

    ghost function WritersChunk(): Address { if pushing.HaveChunk? then pushing.chunk else NULL }

    ghost function ReadersChunk(): Address { if popping.Popped? then NULL else popping.chunk }

    ghost function BackIndex(): int { if pushing.Pushed? then |chain.place| - 2 else |chain.place| - 1 }

    ghost predicate Placed(a: Address) {
      a in chain.heap ==>
        && |chain.heap[a].values| == chain.N
        && (a in chain.liveSlot || a == spare || a == WritersChunk() || a == ReadersChunk())
    }

    ghost predicate Loose(a: Address) { a in chain.heap && a !in chain.liveSlot }

    /** Every allocated chunk is in exactly one place: the live list, the spare slot, or the hands
        of the thread that is about to link, offer or free it. */
    ghost predicate OnePlaceEach() {
      var writers, readers := WritersChunk(), ReadersChunk();
      && NULL !in chain.heap
      && chain.liveSlot.Keys <= chain.heap.Keys
      && (forall a :: Placed(a))
      && (spare != NULL ==> Loose(spare))
      && (pushing.HaveChunk? ==> Loose(writers) && writers != spare)
      && (!popping.Popped? ==> Loose(readers) && readers != spare && readers != writers)
    }

    ghost predicate Ok() {
      && chain.Ok()
      && OnePlaceEach()
      && (!pushing.Pushed? ==> chain.front <= BackIndex() && chain.Last().Slot? && chain.Last().offset + 1 == chain.N)
    }

    /** What the queue needs of Ok. */
    lemma OkMeans()
      requires Ok()
      ensures chain.N >= 1 && chain.front < |chain.place| && forall i :: chain.SlotOk(i)
    {
    }

    /** Comparing addresses is comparing positions. */
    lemma PositionsOf(i: int, j: int)
      requires Ok() && chain.Live(i) && chain.Live(j)
      ensures chain.place[i].Slot? && chain.place[j].Slot? && (chain.place[i] == chain.place[j] <==> i == j)
    {
      chain.AddressIsPosition(i, j);
      assert chain.SlotOk(i) && chain.SlotOk(j);
    }

    ghost function SetBack(value: T): Memory<T> {
      if chain.Live(BackIndex()) && chain.SlotOk(BackIndex())
      then this.(chain := chain.Store(BackIndex(), value)) else this
    }

    lemma SetBackOk(value: T)
      requires Ok() && chain.front <= BackIndex()
      ensures chain.SlotOk(BackIndex()) && SetBack(value).Ok()
      ensures var c := SetBack(value).chain;
        && c.place == chain.place && c.SlotOk(BackIndex()) && c.ValueAt(BackIndex()) == value
        && forall i :: i != BackIndex() ==> c.SameAt(chain, i)
    {
      assert chain.SlotOk(BackIndex());
      chain.StoreOk(BackIndex(), value);
      var s := SetBack(value);
      forall a ensures s.Placed(a) { assert Placed(a); }
    }

    ghost function PushAdvance(): Memory<T> {
      if |chain.place| == 0 || !chain.Last().Slot? then this
      else if chain.Last().offset + 1 != chain.N then this.(chain := chain.Extend())
      else this.(pushing := NeedChunk)
    }

    lemma PushAdvanceOk()
      requires Ok() && pushing.Pushed?
      ensures PushAdvance().Ok() && PushAdvance().chain.SameValues(chain)
      ensures chain.Last().Slot? && chain.Last().offset < chain.N
    {
      assert chain.SlotOk(|chain.place| - 1);
      if chain.Last().offset + 1 != chain.N { chain.ExtendOk(); }
      var s := PushAdvance();
      forall a ensures s.Placed(a) { assert Placed(a); }
      forall i ensures s.chain.SameAt(chain, i) { }
    }

    /** The atomic exchange of the spare chunk with null, and malloc if there was none. */
    ghost function PushTake(fresh1: Address, content: Chunk<T>): Memory<T> {
      if spare != NULL then this.(spare := NULL, pushing := HaveChunk(spare))
      else this.(chain := chain.(heap := chain.heap[fresh1 := content]), pushing := HaveChunk(fresh1))
    }

    lemma PushTakeOk(fresh1: Address, content: Chunk<T>)
      requires Ok() && pushing.NeedChunk?
      requires fresh1 != NULL && fresh1 !in chain.heap && |content.values| == chain.N
      ensures PushTake(fresh1, content).Ok() && PushTake(fresh1, content).chain.SameValues(chain)
    {
      chain.OtherMemory(chain.heap[fresh1 := content]);
      var s := PushTake(fresh1, content);
      forall a ensures s.Placed(a) { assert Placed(a); }
    }

    ghost function PushLink(): Memory<T> {
      if |chain.place| > 0 && chain.Last().Slot? && chain.Last().chunk in chain.heap
         && pushing.HaveChunk? && pushing.chunk in chain.heap && pushing.chunk != chain.Last().chunk
      then this.(chain := chain.Link(pushing.chunk), pushing := Pushed) else this
    }

    lemma PushLinkOk()
      requires Ok() && pushing.HaveChunk?
      ensures chain.Last().chunk in chain.heap && pushing.chunk in chain.heap && pushing.chunk != chain.Last().chunk
      ensures PushLink().Ok() && PushLink().chain.SameValues(chain)
    {
      assert Placed(pushing.chunk);
      chain.LinkOk(pushing.chunk);
      var s := PushLink();
      forall a ensures s.Placed(a) { assert Placed(a); }
    }

    ghost function Unpush(): Memory<T> {
      var n := |chain.place| - 1;
      if n > 0 && chain.place[n - 1].Slot? && chain.Last().Slot? && chain.place[n - 1].chunk in chain.heap
      then this.(chain := chain.Shrink()) else this
    }

    /** The back slot is reached by its offset, or by the back link of its chunk; likewise the end slot. */
    lemma UnpushOk()
      requires Ok() && pushing.Pushed? && chain.front <= BackIndex()
      ensures Unpush().Ok() && Unpush().chain.SameValues(chain)
      ensures var n := |chain.place| - 1;
        && chain.place[n - 1].Slot? && chain.place[n].Slot? && chain.place[n - 1].chunk in chain.heap
        && Unpush().chain == chain.Shrink()
        && StepsBack(n)
        && (chain.front <= n - 2 ==> chain.place[n - 2].Slot? && StepsBack(n - 1))
    {
      chain.ShrinkOk();
      var n := |chain.place| - 1;
      assert chain.Follows(n - 1) && chain.Apart(n - 1, n);
      assert chain.Follows(n - 2) && chain.Apart(n - 2, n - 1) && chain.SlotOk(n - 2);
      var s := Unpush();
      forall a ensures s.Placed(a) { assert Placed(a); }
    }

    /** In short: one slot less, and all else as it was. */
    lemma UnpushMeans()
      requires Ok() && pushing.Pushed? && chain.front <= BackIndex()
      ensures Unpush().Ok() && Unpush().chain.front == chain.front && Unpush().chain.N == chain.N
      ensures Unpush().chain.place == chain.place[..|chain.place| - 1]
      ensures Unpush().pushing == pushing && Unpush().popping == popping
      ensures forall i :: Unpush().chain.SlotOk(i) && Unpush().chain.SameAt(chain, i)
    {
      UnpushOk();
      OkMeans();
      Unpush().OkMeans();
    }

    /** How slot i - 1 is found from slot i. */
    ghost predicate StepsBack(i: int)
      requires 0 < i < |chain.place| && chain.place[i].Slot?
    {
      var here := chain.place[i];
      if here.offset > 0 then chain.place[i - 1] == Slot(here.chunk, here.offset - 1)
      else
        && here.chunk in chain.heap && chain.heap[here.chunk].prev in chain.heap
        && chain.heap[here.chunk].prev != here.chunk && chain.N > 0
        && chain.place[i - 1] == Slot(chain.heap[here.chunk].prev, chain.N - 1)
        && chain.heap[chain.heap[here.chunk].prev].next == here.chunk
    }

    ghost function PopAdvance(): Memory<T> {
      if chain.front + 1 < |chain.place| && chain.place[chain.front].Slot? && chain.place[chain.front + 1].Slot?
      then
        var exhausted := chain.place[chain.front].offset + 1 == chain.N;
        this.(chain := chain.Advance(),
              popping := if exhausted then MustOffer(chain.place[chain.front].chunk) else Popped)
      else this
    }

    lemma PopAdvanceOk()
      requires Ok() && popping.Popped? && chain.front + 1 < |chain.place|
      ensures PopAdvance().Ok() && PopAdvance().chain.SameValues(chain)
      ensures var (here, there) := (chain.place[chain.front], chain.place[chain.front + 1]);
        && here.Slot? && there.Slot? && PopAdvance().chain == chain.Advance()
        && (if here.offset + 1 < chain.N then there == Slot(here.chunk, here.offset + 1)
            else
              && here.offset + 1 == chain.N && there.offset == 0 && there.chunk in chain.heap
              && here.chunk in chain.heap && chain.heap[here.chunk].next == there.chunk)
    {
      chain.AdvanceOk();
      assert chain.Follows(chain.front) && chain.Apart(chain.front, chain.front + 1);
      var s := PopAdvance();
      forall a ensures s.Placed(a) { assert Placed(a); }
    }

    /** The atomic exchange of the spare chunk with the exhausted one. */
    ghost function PopOffer(): Memory<T> {
      if popping.MustOffer?
      then this.(spare := popping.chunk, popping := if spare == NULL then Popped else MustFree(spare))
      else this
    }

    lemma PopOfferOk()
      requires Ok() && popping.MustOffer?
      ensures PopOffer().Ok()
    {
      var s := PopOffer();
      assert Placed(popping.chunk) && Placed(spare);
      forall a ensures s.Placed(a) { assert Placed(a); }
    }

    ghost function PopFree(): Memory<T> {
      if popping.MustFree?
      then this.(chain := chain.(heap := chain.heap - {popping.chunk}), popping := Popped) else this
    }

    lemma PopFreeOk()
      requires Ok() && popping.MustFree?
      ensures PopFree().Ok() && PopFree().chain.SameValues(chain)
    {
      chain.OtherMemory(chain.heap - {popping.chunk});
      var s := PopFree();
      forall a ensures s.Placed(a) { assert Placed(a); }
    }
  }
}
