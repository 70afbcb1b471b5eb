/** `BatchQueue` (src/spsc_queue.hpp). The heap is a field, so malloc may return any address that
    is not in use, freed ones included, holding any contents. Push and Pop are cut at their atomic
    exchange of the spare chunk, so that a writer and a reader can be interleaved. */
module BatchQueues {
  import opened ChunkChains

  class BatchQueue<T> {
    const N: nat
    var heap: map<Address, Chunk<T>>
    var beginChunk: Address
    var beginPos: nat
    var backChunk: Address
    var backPos: nat
    var endChunk: Address
    var endPos: nat
    var spare: Address
    var pushing: PushState
    var popping: PopState
    ghost var mem: Memory<T>

    /** The fields hold what `mem` says, and the cursors point at the first, the last written and
        the next free slot. */
    ghost predicate Valid()
      reads this
    {
      && mem.Ok()
      && mem.chain.N == N && mem.chain.heap == heap
      && mem.spare == spare && mem.pushing == pushing && mem.popping == popping
      && mem.chain.place[mem.chain.front] == Slot(beginChunk, beginPos)
      && (if pushing.Pushed? then mem.chain.Last() == Slot(endChunk, endPos)
          else mem.chain.Last() == Slot(endChunk, N - 1) && endPos == N)
      && (mem.chain.front <= mem.BackIndex() ==> mem.chain.place[mem.BackIndex()] == Slot(backChunk, backPos))
    }

    constructor (n: nat, fresh1: Address, content: Chunk<T>)
      requires n >= 1 && fresh1 != NULL && |content.values| == n
      ensures Valid() && N == n
      ensures mem == Memory(
        Chain(n, map[fresh1 := content], [Slot(fresh1, 0)], 0, map[fresh1 := 0]), NULL, Pushed, Popped)
    {
      N := n;
      heap := map[fresh1 := content];
      beginChunk, beginPos := fresh1, 0;
      backChunk, backPos := NULL, 0;
      endChunk, endPos := fresh1, 0;
      spare := NULL;
      pushing, popping := Pushed, Popped;
      mem := Memory(Chain(n, map[fresh1 := content], [Slot(fresh1, 0)], 0, map[fresh1 := 0]), NULL, Pushed, Popped);
    }

    method Front() returns (value: T)
      requires Valid()
      ensures mem.chain.SlotOk(mem.chain.front) && value == mem.chain.ValueAt(mem.chain.front)
    {
      assert mem.chain.SlotOk(mem.chain.front);
      value := heap[beginChunk].values[beginPos];
    }

    method Back() returns (value: T)
      requires Valid() && mem.chain.front <= mem.BackIndex()
      ensures mem.chain.SlotOk(mem.BackIndex()) && value == mem.chain.ValueAt(mem.BackIndex())
    {
      assert mem.chain.SlotOk(mem.BackIndex());
      value := heap[backChunk].values[backPos];
    }

    /** Assigning to the back element. */
    method SetBack(value: T)
      requires Valid() && pushing.Pushed? && mem.chain.front <= mem.BackIndex()
      modifies this`heap, this`mem
      ensures mem == old(mem).SetBack(value)
      ensures Valid()
    {
      mem.SetBackOk(value);
      ghost var after := mem.SetBack(value);
      var c := heap[backChunk];
      heap := heap[backChunk := c.(values := c.values[backPos := value])];
      mem := after;
    }

    /** First part of Push: the terminator becomes the back; without a boundary this is all of it. */
    method PushAdvance()
      requires Valid() && pushing.Pushed?
      modifies this`backChunk, this`backPos, this`endPos, this`pushing, this`mem
      ensures mem == old(mem).PushAdvance()
      ensures Valid()
    {
      mem.PushAdvanceOk();
      ghost var after := mem.PushAdvance();
      backChunk, backPos := endChunk, endPos;
      endPos := endPos + 1;
      if endPos != N {
        pushing := Pushed;
      } else {
        pushing := NeedChunk;
      }
      mem := after;
    }

    /** The atomic exchange of the spare chunk with null; an empty spare makes the writer call malloc. */
    method PushTake(fresh1: Address, content: Chunk<T>)
      requires Valid() && pushing.NeedChunk?
      requires fresh1 != NULL && fresh1 !in heap && |content.values| == N
      modifies this`spare, this`pushing, this`heap, this`mem
      ensures mem == old(mem).PushTake(fresh1, content)
      ensures Valid()
    {
      mem.PushTakeOk(fresh1, content);
      ghost var after := mem.PushTake(fresh1, content);
      var sc := spare;
      spare := NULL;
      if sc == NULL {
        sc := fresh1;
        heap := heap[fresh1 := content];
      }
      pushing := HaveChunk(sc);
      mem := after;
    }

    /** Last part of Push: the chunk is linked behind the end chunk and becomes the end chunk. */
    method PushLink()
      requires Valid() && pushing.HaveChunk?
      modifies this`heap, this`endChunk, this`endPos, this`pushing, this`mem
      ensures mem == old(mem).PushLink()
      ensures Valid()
    {
      hide Memory.Ok;
      mem.PushLinkOk();
      mem.OkMeans();
      ghost var after := mem.PushLink();
      var sc := pushing.chunk;
      heap := heap[endChunk := heap[endChunk].(next := sc)];
      heap := heap[sc := heap[sc].(prev := endChunk)];
      endChunk := heap[endChunk].next;
      endPos := 0;
      pushing := Pushed;
      mem := after;
    }

    /** Rolls back the last Push; the queue must hold an element. */
    method Unpush()
      requires Valid() && pushing.Pushed? && mem.chain.front <= mem.BackIndex()
      modifies this`backChunk, this`backPos, this`endChunk, this`endPos, this`heap, this`mem
      ensures mem == old(mem).Unpush()
      ensures Valid()
    {
      hide Memory.Ok, Memory.StepsBack;
      mem.UnpushOk();
      mem.OkMeans();
      ghost var after := mem.Unpush();
      BackStepsBack();
      EndStepsBack();
      mem := after;
    }

    method BackStepsBack()
      requires Valid() && pushing.Pushed? && mem.chain.front <= mem.BackIndex()
      modifies this`backChunk, this`backPos
      ensures var n := mem.BackIndex() - 1;
        mem.chain.front <= n ==> mem.chain.place[n] == Slot(backChunk, backPos)
    {
      hide Memory.Ok;
      mem.UnpushOk();
      mem.OkMeans();
      if backPos != 0 {
        backPos := backPos - 1;
      } else {
        backPos := N - 1;
        assert mem.chain.SlotOk(mem.BackIndex());
        backChunk := heap[backChunk].prev;
      }
    }

    method EndStepsBack()
      requires mem.Ok() && pushing.Pushed? && mem.pushing == pushing && mem.chain.front <= mem.BackIndex()
      requires mem.chain.N == N && mem.chain.heap == heap && mem.chain.Last() == Slot(endChunk, endPos)
      modifies this`endChunk, this`endPos, this`heap
      ensures heap == mem.Unpush().chain.heap && mem.chain.place[|mem.chain.place| - 2] == Slot(endChunk, endPos)
    {
      hide Memory.Ok;
      mem.UnpushOk();
      mem.OkMeans();
      if endPos != 0 {
        endPos := endPos - 1;
      } else {
        endPos := N - 1;
        endChunk := heap[endChunk].prev;
        heap := heap - {heap[endChunk].next};
        heap := heap[endChunk := heap[endChunk].(next := NULL)];
      }
    }

    /** First part of Pop: the front moves on, and an exhausted chunk is unlinked. */
    method PopAdvance()
      requires Valid() && popping.Popped? && mem.chain.front + 1 < |mem.chain.place|
      modifies this`beginChunk, this`beginPos, this`heap, this`popping, this`mem
      ensures mem == old(mem).PopAdvance()
      ensures Valid()
    {
      hide Memory.Ok;
      mem.PopAdvanceOk();
      mem.OkMeans();
      ghost var after := mem.PopAdvance();
      beginPos := beginPos + 1;
      if beginPos == N {
        var o := beginChunk;
        beginChunk := heap[beginChunk].next;
        heap := heap[beginChunk := heap[beginChunk].(prev := NULL)];
        beginPos := 0;
        popping := MustOffer(o);
      }
      mem := after;
    }

    /** The atomic exchange of the spare chunk with the exhausted one. */
    method PopOffer()
      requires Valid() && popping.MustOffer?
      modifies this`spare, this`popping, this`mem
      ensures mem == old(mem).PopOffer()
      ensures Valid()
    {
      mem.PopOfferOk();
      ghost var after := mem.PopOffer();
      var cs := spare;
      spare := popping.chunk;
      popping := if cs == NULL then Popped else MustFree(cs);
      mem := after;
    }

    method PopFree()
      requires Valid() && popping.MustFree?
      modifies this`heap, this`popping, this`mem
      ensures mem == old(mem).PopFree()
      ensures Valid()
    {
      mem.PopFreeOk();
      ghost var after := mem.PopFree();
      heap := heap - {popping.chunk};
      popping := Popped;
      mem := after;
    }
  }
}
