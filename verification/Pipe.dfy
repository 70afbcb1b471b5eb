/** `pipe_t` (src/pipe.cpp): one end of a pipe pair, over two queues. These are the calls as one
    thread makes them; what happens between the steps of two threads is in PipeProtocol. */
module Pipes {

  import opened Options
  import opened Fifo
  import P = SpscProtocol
  import opened ChunkChains
  import opened SpscQueues

  class Pipe<M> {
    const inQueue: SpscQueue<Option<M>>
    const outQueue: SpscQueue<Option<M>>
    var terminated: bool
    var peerTerminated: bool

    ghost function Sent(): Fifo<Option<M>> reads outQueue { outQueue.View() }
    ghost function Received(): Fifo<Option<M>> reads inQueue { inQueue.View() }

    /** The writer side of one queue and the reader side of the other are between calls. A terminated
        end has the delimiter as its last, published item; an end that has read it stays behind it. */
    ghost predicate Valid()
      reads this, inQueue, outQueue, inQueue.queue, outQueue.queue
    {
      && inQueue != outQueue && inQueue.queue != outQueue.queue
      && inQueue.Valid() && outQueue.Valid()
      && outQueue.writer.Idle? && inQueue.queue.popping.Popped?
      && (terminated ==>
            && |Sent().items| > 0 && Sent().items[|Sent().items| - 1] == None
            && Sent().complete == |Sent().items| == Sent().published)
      && (peerTerminated ==> 0 < Received().taken && Received().items[Received().taken - 1] == None)
    }

    constructor (inQueue: SpscQueue<Option<M>>, outQueue: SpscQueue<Option<M>>)
      requires inQueue != outQueue && inQueue.queue != outQueue.queue && inQueue.Valid() && outQueue.Valid()
      requires outQueue.writer.Idle? && inQueue.queue.popping.Popped?
      ensures Valid() && this.inQueue == inQueue && this.outQueue == outQueue && !terminated && !peerTerminated
    {
      this.inQueue, this.outQueue := inQueue, outQueue;
      terminated, peerTerminated := false, false;
    }

    /** Write; `wakePeer` says that the caller had to notify the peer. */
    method Write(message: Option<M>, incomplete: bool, fresh1: Address, content: Chunk<Option<M>>)
      returns (ok: bool, wakePeer: bool)
      requires Valid()
      requires fresh1 != NULL && fresh1 !in outQueue.queue.heap && |content.values| == outQueue.queue.N
      modifies outQueue, outQueue.queue
      ensures Valid() && ok == !terminated
      ensures !ok ==> Sent() == old(Sent()) && !wakePeer
      ensures ok && incomplete ==> Sent() == old(Sent()).Write(message, true) && !wakePeer
      ensures ok && !incomplete ==> (Sent(), !wakePeer) == old(Sent()).Write(message, false).Flush()
    {
      hide SpscQueue.Valid, P.Abs;
      wakePeer := false;
      if terminated { return false, false; }
      ok := true;
      outQueue.Write(message, incomplete, fresh1, content);
      if !incomplete {
        var readerAwake := outQueue.Flush();
        wakePeer := !readerAwake;
      }
    }

    method Unwrite() returns (result: Option<Option<M>>)
      requires Valid()
      modifies outQueue, outQueue.queue
      ensures Valid() && (Sent(), result) == old(Sent()).Unwrite()
      ensures terminated ==> result == None && Sent() == old(Sent())
    {
      hide SpscQueue.Valid;
      outQueue.ValidIsInv();
      P.NextRefinesFifo(outQueue.q, P.Unwrite);
      result := outQueue.Unwrite();
    }

    /** The stream is closed with the delimiter, once. */
    method Terminate(fresh1: Address, content: Chunk<Option<M>>) returns (wakePeer: bool)
      requires Valid()
      requires fresh1 != NULL && fresh1 !in outQueue.queue.heap && |content.values| == outQueue.queue.N
      modifies this`terminated, outQueue, outQueue.queue
      ensures Valid() && terminated
      ensures old(terminated) ==> Sent() == old(Sent()) && !wakePeer
      ensures !old(terminated) ==> (Sent(), !wakePeer) == old(Sent()).Write(None, false).Flush()
    {
      hide SpscQueue.Valid, P.Abs;
      if terminated { return false; }
      outQueue.Write(None, false, fresh1, content);
      var readerAwake := outQueue.Flush();
      wakePeer := !readerAwake;
      terminated := true;
    }

    /** DoRead: whether Read is done, and with which message; no message means that it failed. */
    method DoRead() returns (done: bool, message: Option<M>)
      requires Valid()
      modifies this`peerTerminated, inQueue, inQueue.queue
      ensures Valid()
      ensures old(peerTerminated) ==> done && message == None && peerTerminated && Received() == old(Received())
      ensures !old(peerTerminated) ==>
        var before := old(Received());
        if before.taken < before.published
        then
          && done && message == before.items[before.taken] && peerTerminated == message.None?
          && Received() == before.(taken := before.taken + 1)
        else !done && message == None && !peerTerminated && Received() == before.(asleep := true)
    {
      hide SpscQueue.Valid, P.Abs;
      if peerTerminated { return true, None; }
      var item := inQueue.Read();
      if item == None { return false, None; }
      message := item.value;
      if message == None { peerTerminated := true; }
      done := true;
    }

    /** Read(0): one DoRead, without waiting. */
    method TryRead() returns (message: Option<M>)
      requires Valid()
      modifies this`peerTerminated, inQueue, inQueue.queue
      ensures Valid()
      ensures message.Some? ==>
        && !old(peerTerminated) && !peerTerminated
        && Received() == old(Received()).(taken := old(Received()).taken + 1)
        && old(Received()).taken < old(Received()).published
        && message == old(Received()).items[old(Received()).taken]
      ensures message == None && !peerTerminated ==> old(Received()).taken == old(Received()).published
    {
      var done;
      done, message := DoRead();
    }
  }
}
