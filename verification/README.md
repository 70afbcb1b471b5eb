# FlashForwarder: a verified model of its core

FlashForwarder is a market-data gateway. This project models five of its subsystems in Dafny and
proves what they are for, over all inputs, all runs and, where two threads are involved, all
interleavings of their atomic steps.

* **Lock-free transport.** `Fifo` is the queue that clients of `SpscQueue` may imagine. `SpscProtocol`
  is the algorithm of `src/spsc_queue.hpp` with pointers replaced by positions: every interleaving of
  its atomic steps is explained by the atomic queue. `ChunkChains`, `BatchQueues` and `SpscQueues` are
  the algorithm as it runs, on chunks that are allocated, linked, recycled and freed. `PipeProtocol`
  adds the mutex, the condition variable and the delimiter of `src/pipe.cpp`, `PipeStream` says what
  the calls of a pipe answer and that they end, `PipeFairness` that readers make progress, and `Pipes`
  are the calls themselves. `SizeClasses` and `MessageAllocators` are the message pool, and
  `MessageFlows` the way of a message between two threads, through the pipe and back through the idle
  queue.
* **Delta compressor.** `Words` is two's complement, `WireFormat` has varints and ZigZag (Protocol
  Buffers Encoding, sections "Base 128 Varints" and "Signed Integers"), `Compressor` fields, `Records`
  records and templates, `ContextRuns` whole runs of an encoding and a decoding context, `Contexts` the
  code that runs. `RecordLayout` says what stands where in the bytes.
* **PGM packets.** `PgmPackets` is the six-byte header and what it means for packets to cut a stream,
  `PgmSenders` the sender and its coalescing front, `PgmReceivers` joining and un-joining,
  `PgmTransfers` both together over a network that drops packets.
* **Streaming frames.** `SzBinaryFrames` says how a byte stream is cut into frames, `SzBinaryDecoder`
  and `SzBinaryEncoder` are the resumable decoder and the double-buffered encoder.
* **Text.** `XmlText`, `XmlEntities`, `XmlWhitespace` and `XmlStrPairs` are escaping, and unescaping and
  collapsing in place, of the bundled XML library (XML 1.0, section 4.6; RFC 3629, section 3).

Code that updates state in place is modelled by classes and loops, and proved against functions on
values; what is promised is then proved about those functions. Where two threads meet, the methods
are single atomic steps and a scheduler is free to order them. Memory is sequentially consistent and
allocation succeeds.

## Where the code does not do what it seems to

Each of these is proved, with the exact condition under which the code does what one expects.

* An integer COPY field that did not change is not shown by the decoder: its output keeps the
  template's value (`Records.OutputAgrees`, `Records.UnchangedFieldIsNotShown`).
* The PGM receiver does not see a gap right after the packet a peer was joined with
  (`PgmReceivers.GaplessExactly`, `PgmReceivers.HiddenGapExample`).
* After a wrong checksum the frame decoder drops the rest of the chunk and goes on with the next one,
  so what it delivers depends on how the stream was split, unless the failure is at the last byte
  (`SzBinaryFrames.EverySplitAgrees`, `SzBinaryFrames.AfterFailureTheSplitMatters`).
* The frame encoder patches the start of its wait buffer, and so needs it empty
  (`SzBinaryEncoder.AppendsExactly`, `SzBinaryEncoder.WaitingMessageIsSpoilt`,
  `SzBinaryEncoder.FlushBeforeEncode`).
* An ampersand that starts no entity is shown as whatever stood at the write position
  (`XmlText.StrayAmpersand`, `XmlText.StrayFirstIsShown`, `XmlText.StrayAmpersandExample`).
* The size test of the allocator lets negative capacities through, and their index is beyond the
  array of free lists (`SizeClasses.IndexInArray`).

One comment is at odds with the code: src/message_allocator.hpp:51-52 gives the capacity of free list
i as two to the 5 + i; the code allocates two to the 6 + i (src/message_allocator.cpp:71), and so does
the model.

## Model

| member | source | states |
|---|---|---|
| Fifo.ReplayKeeps | src/spsc_queue.hpp:207-260 | the atomic queue that explains a history holds the values written and not taken back, and publishes the complete ones up to the last flush |
| Fifo.ReplayDelivers | src/spsc_queue.hpp:290-302 | what was read is, in order and once each, a prefix of what was kept |
| Fifo.SleepsAreWokenOnce | src/spsc_queue.hpp:234-288 | the reader's sleeps and the false flushes are paired one to one, but for a sleep that still lasts |
| Fifo.ExplainedHistoryIsFifo | src/spsc_queue.hpp:207-302 | in a history that the atomic queue explains, only published complete items are read, in order, without loss or duplicate |
| SpscProtocol.NextKeepsInv | src/spsc_queue.hpp:212-302 | every atomic step of writer or reader keeps the order of the pointers and the meaning of the nil cell |
| SpscProtocol.NextRefinesFifo | src/spsc_queue.hpp:212-302 | an atomic step is one whole call of the atomic queue with the same answer, or changes nothing a client can see |
| SpscProtocol.RunIsLinearizable | src/spsc_queue.hpp:212-302 | every interleaving is explained by the atomic queue |
| SpscProtocol.RunDeliversPublishedPrefix | src/spsc_queue.hpp:234-302 | in every interleaving the reader gets a prefix of the published items; when the cell is nil it has got all of them; and each sleep costs one false flush |
| ChunkChains.Chain.AddressIsPosition | src/spsc_queue.hpp:239-245 | two live slots have the same address exactly when they are the same position, so pointer comparison decides position |
| ChunkChains.Chain.LinkOk | src/spsc_queue.hpp:86-101 | linking a chunk extends the list by one slot, leaves every value, and keeps the list well linked |
| ChunkChains.Chain.ShrinkOk | src/spsc_queue.hpp:111-132 | moving the end back drops the last position only, and frees a chunk only if no live slot is in it |
| ChunkChains.Chain.AdvanceOk | src/spsc_queue.hpp:135-142 | moving the front drops the first position only, and unlinks a chunk only if no live slot is in it |
| ChunkChains.Memory.PushLinkOk | src/spsc_queue.hpp:86-103 | a chunk taken from the spare slot or malloc goes into the list, and every chunk still has exactly one place |
| ChunkChains.Memory.UnpushOk | src/spsc_queue.hpp:111-132 | rolling a push back keeps every value and every chunk in exactly one place |
| ChunkChains.Memory.PopAdvanceOk | src/spsc_queue.hpp:135-142 | an exhausted chunk leaves the list into the reader's hands, and no stale link to it is left |
| ChunkChains.Memory.PopOfferOk | src/spsc_queue.hpp:144-147 | exchanging it with the spare chunk leaves each of the two in one place |
| ChunkChains.Memory.PopFreeOk | src/spsc_queue.hpp:147-148 | the chunk that is freed is in no other place |
| BatchQueues.BatchQueue.constructor | src/spsc_queue.hpp:54-63 | a queue of one chunk |
| BatchQueues.BatchQueue.SetBack | src/spsc_queue.hpp:73-75 | assigning to the back changes that position's value only |
| BatchQueues.BatchQueue.PushAdvance | src/spsc_queue.hpp:79-85 | back and end move on one position |
| BatchQueues.BatchQueue.PushTake | src/spsc_queue.hpp:86-98 | the spare chunk is taken, or a new one if there is none |
| BatchQueues.BatchQueue.PushLink | src/spsc_queue.hpp:86-103 | the chunk is linked behind the list |
| BatchQueues.BatchQueue.Unpush | src/spsc_queue.hpp:111-132 | the pointers and links after a rolled-back push stand for the shortened list |
| BatchQueues.BatchQueue.PopAdvance | src/spsc_queue.hpp:135-140 | the pointers and links after a pop stand for the list without its front |
| BatchQueues.BatchQueue.PopOffer | src/spsc_queue.hpp:144-147 | the old spare chunk comes out for the exhausted one |
| BatchQueues.BatchQueue.PopFree | src/spsc_queue.hpp:148 | it is freed |
| SpscQueues.SpscQueue.constructor | src/spsc_queue.hpp:195-205 | after Init the four pointers are at the terminator, in the initial state of the protocol |
| SpscQueues.SpscQueue.Unwrite | src/spsc_queue.hpp:225-232 | on chunked memory: exactly the protocol's step, with the value that was written last |
| SpscQueues.SpscQueue.FlushCas | src/spsc_queue.hpp:237-244 | the pointer compare-and-swap does what the positions say |
| SpscQueues.SpscQueue.FlushStore | src/spsc_queue.hpp:251-253 | the fallback store does what the positions say |
| SpscQueues.SpscQueue.CheckRead | src/spsc_queue.hpp:263-288 | the reader's compare-and-swap and its two tests do what the positions say |
| SpscQueues.SpscQueue.Pop | src/spsc_queue.hpp:297-301 | the value handed out is the one of the front position |
| SpscQueues.SpscQueue.Write | src/spsc_queue.hpp:212-222 | the whole call is Write of the atomic queue |
| SpscQueues.SpscQueue.Flush | src/spsc_queue.hpp:237-260 | the whole call is Flush of the atomic queue, its answer included |
| SpscQueues.SpscQueue.Read | src/spsc_queue.hpp:292-302 | the whole call is CheckRead and Take of the atomic queue |
| SpscQueues.Interleave | src/spsc_queue.hpp:79-302 | any schedule of the two threads' turns on chunked memory, recycling included: every turn that its thread can take is taken with its own arguments, and what the threads observe is explained by the atomic queue; a published prefix is delivered, all of it when the cell is nil; each sleep costs one false flush |
| SpscQueues.TraceIsRun | src/spsc_queue.hpp:79-302 | the turns of a trace, one after the other, are a run of the position protocol with the same events |
| PipeProtocol.NextKeepsInv | src/pipe.cpp:61-187 | every step of the two threads keeps the queue, lock, delimiter and wake-up invariants |
| PipeProtocol.RunKeepsInv | src/pipe.cpp:61-187 | and so does every run |
| PipeProtocol.NoLostWakeUp | src/pipe.cpp:100-137 | a reader that sleeps on an unread flushed item is about to be notified by a writer; with an idle writer it has read every complete item |
| PipeProtocol.WriterWakes | src/pipe.cpp:162-170 | the two next steps of that writer wake the reader |
| PipeProtocol.WokenReaderReads | src/pipe.cpp:119-134 | a woken reader that gets the lock returns the item |
| PipeProtocol.WakeUpDelivers | src/pipe.cpp:100-170 | from any state where the reader sleeps on an unread item, two writer steps and three reader steps deliver it |
| PipeFairness.StepGetsNearer | src/pipe.cpp:61-187 | while a Read is under way and an item is there, no step of either thread takes the reader farther from it, and a step of the thread it waits for brings it nearer |
| PipeFairness.FairSchedulesDeliver | src/pipe.cpp:61-187 | under every schedule of at least eight stretches in each of which both threads get a turn, whatever else they do, such a Read returns the item |
| PipeFairness.SleeperIsServed | src/pipe.cpp:100-170 | so does every sleeping reader that a run can lead to |
| PipeProtocol.ReadsUpToDelimiter | src/pipe.cpp:139-187 | in every run the reads give a prefix of the queued messages in front of the delimiter, and all of them once the delimiter is met |
| PipeStream.ReadsAreWhatWasWritten | src/pipe.cpp:61-187 | for every schedule, from the steps and their answers alone: the queue holds the messages of the accepted writes and the delimiter, less what was taken back, the reads give a prefix of that up to the delimiter, all of it once the delimiter is met, and every call is answered rightly |
| PipeStream.StepTold | src/pipe.cpp:61-187 | the right answers: a write is refused after Terminate and only then, Unwrite takes back the last incomplete item if there is one, a read gives the next item and fails only at the delimiter or, if it does not wait forever, when there is none |
| PipeStream.AnswersAreResults | src/pipe.cpp:61-187 | the answers are the results of the run |
| PipeStream.FlushPublishes | src/pipe.cpp:61-73 | whatever the reader does, two turns of a flushing writer publish every complete item |
| PipeStream.LockIsLetGo | src/pipe.cpp:110-137 | a writer that waits for the mutex gets it after four turns of the reader |
| PipeStream.WriterReturns | src/pipe.cpp:162-170 | and then returns in two turns |
| PipeStream.NoWaitReturns | src/pipe.cpp:100-108 | a read that does not wait takes at most two turns |
| PipeStream.TimeIsOver | src/pipe.cpp:114-126 | a timed read whose time is over returns in at most three |
| PipeProtocol.NothingAfterDelimiter | src/pipe.cpp:172-181 | after that no read ever succeeds |
| PipeProtocol.NothingAfterTerminate | src/pipe.cpp:61-64 | after Terminate no write succeeds and the queue gets no more items |
| PipeProtocol.TerminatedStreamIsReadOut | src/pipe.cpp:139-187 | a terminated stream is read to its end, message by message in order, and then reading fails |
| Pipes.Pipe.Write | src/pipe.cpp:61-87 | refused after Terminate, else the item is queued and published, and the peer woken exactly when Flush is false |
| Pipes.Pipe.Unwrite | src/pipe.cpp:89-91 | gives back the last incomplete item, never the delimiter |
| Pipes.Pipe.Terminate | src/pipe.cpp:139-152 | writes and publishes one delimiter, the first time only |
| Pipes.Pipe.DoRead | src/pipe.cpp:172-187 | the next published item, or failure for good at the delimiter, or the reader asleep |
| Pipes.Pipe.TryRead | src/pipe.cpp:100-108 | Read without waiting succeeds only with the next item, and fails only at the end or when all published items are read |
| SizeClasses.SmearFillsBelowTop | src/message_allocator.cpp:48-52 | the shifts and ors fill every 32-bit word but 0 up to its highest bit |
| SizeClasses.TableIsRight | src/message_allocator.cpp:43-54 | the table has k where the multiplication sends a word filled up to bit k, for every k |
| SizeClasses.PositionIsLogarithm | src/message_allocator.cpp:43-54 | multiplication and table give the base 2 logarithm of every 32-bit word but 0 |
| SizeClasses.ClassFits | src/message_allocator.cpp:31-72 | every capacity up to 2^22 gets an index within the array and a size above it, at most max(64, twice the capacity) |
| SizeClasses.ClassIsLeast | src/message_allocator.cpp:54-55 | every smaller class would be too small |
| SizeClasses.IndexInArray | src/message_allocator.cpp:33-54 | of all capacities that pass the size test, as signed numbers, exactly those that are not negative get an index within the array; the others get 26 |
| MessageAllocators.PushKeepsPlaced | src/message_allocator.cpp:83-86 | putting a message on its list leaves each message in exactly one place |
| MessageAllocators.PopKeepsPlaced | src/message_allocator.cpp:63-67 | taking one off does too |
| MessageAllocators.DequeueKeepsPlaced | src/message_allocator.cpp:106-110 | and so does leaving the idle queue |
| MessageAllocators.MessageAllocator.Allocate | src/message_allocator.cpp:31-74 | a call during which the other thread does nothing: the message is in nobody's hands, of the right class, with room for the capacity, and new only if there is none to reuse; beyond 2^22 it is new and of no class |
| MessageAllocators.MessageAllocator.Release | src/message_allocator.cpp:76-87 | the message is cleared and free, or deleted if of no class |
| MessageAllocators.MessageAllocator.Recycle | src/message_allocator.cpp:89-98 | the message waits, published, at the end of the idle queue, or is deleted |
| MessageAllocators.MessageAllocator.ConsumeIdleQueue | src/message_allocator.cpp:100-112 | a call during which the other thread does nothing: everything published in the idle queue becomes free and nothing else changes; nothing happens without recycling |
| MessageAllocators.MessageAllocator.TakeIdle | src/message_allocator.cpp:106 | one step: the oldest published message leaves the idle queue and is held by the owning thread only |
| MessageAllocators.MessageAllocator.PushFree | src/message_allocator.cpp:107-110 | one step: it goes to the front of the free list of its class, and the linked lists stay well linked |
| MessageAllocators.MessageAllocator.PopFree | src/message_allocator.cpp:63-67 | the first message of a list comes off, in nobody's hands before |
| MessageAllocators.MessageAllocator.WriteIdle | src/message_allocator.cpp:95 | one step of the other thread: the message is in the idle queue, not yet published, and nowhere else |
| MessageFlows.Interleave | src/message_allocator.cpp:31-112 | any schedule of the turns of the writing and the reading thread, pipe and idle queue included: every turn that its thread can take is taken; Allocate hands out a message of the class and with the room that was asked for, and never one that is in use anywhere; only messages in use are given back; and each message is with the writer, in the pipe, with the reader, on its list, idle or held by its owner, in one of these only |
| MessageFlows.OneMoreUse | src/message_allocator.cpp:31-98 | what is in use after a history of allocations and returns, and when one more is right |
| MessageFlows.MessageFlow.Hand | src/message_allocator.cpp:57-74 | the end of Allocate: a message nobody has, of the right class and with room, and one that is not of the pool only if none of the class can be reused |
| MessageFlows.MessageFlow.StartWrite | src/pipe.cpp:61-73 | a message moves from the writer to the end of the pipe, unpublished; after Terminate it stays with the writer |
| MessageFlows.MessageFlow.StartUnwrite | src/pipe.cpp:89-91 | the last incomplete message comes back to the writer |
| MessageFlows.MessageFlow.StartTerminate | src/pipe.cpp:139-152 | one delimiter is written, the first time |
| MessageFlows.MessageFlow.FlushPipe | src/pipe.cpp:66-70 | the complete items become readable |
| MessageFlows.MessageFlow.LookForIdle | src/message_allocator.cpp:100-106 | one look at the idle queue: there is a message to fetch, or Allocate ends |
| MessageFlows.MessageFlow.FetchIdle | src/message_allocator.cpp:106 | the message comes out of it |
| MessageFlows.MessageFlow.FreeHeld | src/message_allocator.cpp:107-110 | and becomes free |
| MessageFlows.MessageFlow.StartRead | src/pipe.cpp:172-177 | a look at the pipe; none after the delimiter was read |
| MessageFlows.MessageFlow.FinishRead | src/pipe.cpp:177-187 | the oldest item moves from the pipe to the reader; the delimiter ends reading |
| MessageFlows.MessageFlow.StartRecycle | src/message_allocator.cpp:89-95 | the message leaves the reader into the idle queue, unpublished, or is deleted if of no class |
| MessageFlows.MessageFlow.FinishRecycle | src/message_allocator.cpp:96 | what was recycled is published |
| WireFormat.VarintLength | src/wire_format.cc:175-215 | both size tables give the length of the encoding |
| WireFormat.BitSevenSet | src/wire_format-inl.h:78-103 | on words: the byte stored for a part with bit 7 set, and the part shifted by 7, are the numbers the writers of this model store and divide |
| WireFormat.ParseVarint | src/wire_format-inl.h:182-245 | decoding undoes encoding for every number, whatever follows |
| WireFormat.ReadersUndoWriters | src/wire_format-inl.h:76-245 | for every 64-bit and every 32-bit word, reading what was written gives it back and consumes the size of the table |
| WireFormat.WriteVarint64 | src/wire_format-inl.h:105-172 | the branch tree and the fall-through stores, on three 32-bit parts, write the encoding and nothing else |
| WireFormat.WriteVarint32 | src/wire_format-inl.h:76-103 | the 32-bit writer writes the same encoding |
| WireFormat.ReadVarint64 | src/wire_format-inl.h:209-247 | collecting three parts with added and subtracted continuation bits decodes, cut to 64 bits |
| WireFormat.ReadVarint32 | src/wire_format-inl.h:182-207 | the 32-bit reader decodes, cut to 32 bits |
| WireFormat.ReadVarint32Safe | src/wire_format-inl.h:249-278 | the bounds-checked reader decodes within its window, and answers -1 otherwise |
| WireFormat.ReadVarint64Safe | src/wire_format-inl.h:280-329 | and so does the 64-bit one |
| WireFormat.SafeReaderAgrees | src/wire_format-inl.h:249-329 | bounds-checked and fast readers agree exactly when the encoding ends within the window |
| WireFormat.PartsAreDigits | src/wire_format-inl.h:217-238 | after every stage the parts are the digits read so far |
| WireFormat.ZigZagBijection | src/wire_format-inl.h:58-74 | ZigZag is a bijection between integers and naturals that takes 32-bit to 32-bit words and 64-bit to 64-bit words |
| WireFormat.ZigZagOfWord32 | src/wire_format-inl.h:58-61 | shifting and flipping a 32-bit word is ZigZag of the signed number it stands for |
| WireFormat.ZigZagOfWord64 | src/wire_format-inl.h:67-70 | and so for 64-bit words |
| WireFormat.WordOfZigZag32 | src/wire_format-inl.h:63-65 | the 32-bit decoder on words gives the word of the number that UnZigZag gives |
| WireFormat.WordOfZigZag64 | src/wire_format-inl.h:72-74 | and the 64-bit one |
| WireFormat.WriteSignedVarint64 | src/wire_format-inl.h:67-70 | with the word operations: what is written is the encoding of ZigZag of the number |
| WireFormat.WriteSignedVarint32 | src/wire_format-inl.h:58-61 | and so at 32 bits |
| Words.WordRoundTrip64 | src/wire_format-inl.h:67-74 | a signed 64-bit number comes back from its two's complement word |
| Words.WordRoundTrip32 | src/wire_format-inl.h:58-65 | and a 32-bit number |
| Words.ShiftAndMask | src/wire_format-inl.h:78-103 | a shift of a word by 7 is a division by 128, and masking 7 bits is the remainder |
| WireFormat.ReadSignedVarint64 | src/wire_format-inl.h:339-345 | with the word operations: what is read is UnZigZag of the decoded number, and every signed 64-bit number comes back from its encoding, whatever follows |
| WireFormat.ReadSignedVarint32 | src/wire_format-inl.h:331-337 | and so for every signed 32-bit number |
| HostMemory.LittleEndianRoundTrip | src/FieldInstructionInteger.hpp:99-107 | a word that fits comes back from its bytes in memory |
| HostMemory.LittleEndianAt | src/FieldInstructionInteger.hpp:99-107 | byte i in memory is digit i to the base 256 |
| Compressor.MapRoundTrip | src/Template.hpp:86-127 | the presence map comes back from its four bytes |
| Compressor.PlusDelta | src/FieldInstructionInteger.hpp:79-191 | adding a delta to the cached value gives the new value, modulo 2^64 for unsigned 64-bit fields |
| Compressor.FullBytesRoundTrip | src/FieldInstructionInteger.hpp:99-124 | a field of a full record comes back, whatever follows |
| Compressor.StringRoundTrip | src/FieldInstructionString.hpp:62-98 | a length-prefixed string comes back, whatever follows |
| Compressor.FieldRoundTrip | src/FieldInstructionInteger.hpp:36-205 | a field is self-delimiting, leaves the encoded value in the cache, and is shown as Shown says |
| RecordLayout.DeltaBytes | src/FieldInstructionInteger.hpp:79-97 | a DELTA field carries exactly the signed 64-bit number that, added to the cached value, gives the new one modulo 2^64 |
| RecordLayout.DecodedDelta | src/FieldInstructionInteger.hpp:176-191 | decoding adds any such number to the cached value, in the width of the field |
| RecordLayout.CopyBytesAre | src/FieldInstructionInteger.hpp:45-74 | a COPY field carries the new value, by itself, exactly if it differs from the cached one |
| RecordLayout.StringBytes | src/FieldInstructionString.hpp:34-75 | a string is its length and its bytes |
| RecordLayout.FullBytesAt | src/FieldInstructionInteger.hpp:99-107 | byte i of an integer in a full record is digit i of its word |
| Records.FieldsRoundTrip | src/Template.hpp:131-141 | all fields of a record are, one after the other |
| Records.BodyRoundTrip | src/Template.hpp:60-143 | and the record from its presence map on |
| RecordLayout.MapBit | src/Template.hpp:60-117 | field i of the presence map is bit i modulo 8 of byte i / 8 |
| RecordLayout.PresenceBit | src/Template.hpp:60-117 | a full record has bit 31 and no other, any other record the bits of the fields that are in it |
| RecordLayout.FieldsInOrder | src/Template.hpp:60-117 | the fields stand one after the other in the order of the template |
| RecordLayout.RecordInOrder | src/Template.hpp:60-117 | behind template id, index and presence map |
| Records.OutputAgrees | src/FieldInstructionInteger.hpp:132-174 | the output is the message that was encoded if and only if every unchanged integer COPY field holds the template's value |
| Records.UnchangedFieldIsNotShown | src/FieldInstructionInteger.hpp:132-174 | a field sent twice with value 5 is shown as 0 the second time |
| ContextRuns.EncodeKeepsOk | src/Context.hpp:39-60 | encoding keeps every token on an entry of its own, and every entry filled and fitting its template |
| ContextRuns.HeaderRoundTrip | src/Context.hpp:67-82 | template id and index come back, whatever follows |
| ContextRuns.RecordRoundTrip | src/Context.hpp:39-110 | a decoder in lock-step consumes exactly the bytes of a record, appends one message, and is in lock-step again |
| ContextRuns.RunRoundTrip | src/Context.hpp:39-110 | after any run of the encoder, a decoder fed its bytes has equal caches and one message per record, and goes on with what follows |
| ContextRuns.CallsCombine | src/Context.hpp:62-110 | decoding records in one call is decoding them in several |
| ContextRuns.CacheIsLastSent | src/Context.hpp:39-60 | after any run the cache of every token is the last message sent for it |
| RecordLayout.RecordAgainstLast | src/Context.hpp:39-60 | after any run the record of a message is against the last message sent for its token, or full if there is none |
| RecordLayout.PlacesStay | src/Context.hpp:39-60 | a token keeps its index, and a new one gets the next |
| Contexts.EncodeField | src/FieldInstructionInteger.hpp:36-97 | the bytes pushed, the cached field overwritten and the bit set are those of the field's encoding |
| Contexts.EncodeFullField | src/FieldInstructionString.hpp:62-75 | and those of a field by itself |
| Contexts.EncodeDelta | src/Template.hpp:60-86 | the loop over the fields and the patched presence map make the record, and leave the message in the cache |
| Contexts.EncodeFull | src/Template.hpp:90-117 | and the full record |
| Contexts.DecodeRecord | src/Template.hpp:119-143 | the decoding loop is the decoding of the record, failures included; a string whose length is within the buffer but whose end is not is a failure here, and read past the end in the source |
| Contexts.Context.constructor | src/Context.hpp:22-28 | empty caches for every template |
| Contexts.Context.Encode | src/Context.hpp:39-60 | the caches and the buffer after a call are those of the run |
| Contexts.Context.DecodeNext | src/Context.hpp:66-108 | one turn of the decoding loop: id, index, entry and record as the run says, or the stop that it makes |
| Contexts.Context.Decode | src/Context.hpp:62-110 | the caches and the messages after a call are those of decoding record by record, failures included |
| Contexts.Transmit | src/Context.hpp:39-110 | one context encoding a run into a buffer and another decoding it end with equal caches, and every record gave its message |
| PgmPackets.DatagramRoundTrip | src/pgm_receiver.cc:182-191 | options, offset, index and data come back from the bytes of a packet |
| PgmPackets.HeaderBytes | src/pgm_sender.cc:351-361 | the six bytes of the header, one by one |
| PgmPackets.PayloadsAreTheStream | src/pgm_sender.cc:291-390 | the payloads of packets that fit a stream are its front |
| PgmPackets.PackedPush | src/pgm_sender.cc:356-361 | a packet with the next stretch, index and offset keeps the packets fitting |
| PgmSenders.SpreadFlushes | src/pgm_sender.cc:327-349 | flushing a batch and copying its first bytes keeps stream, data and offset in agreement |
| PgmSenders.PGMSender.ReadBatch | src/pgm_sender.cc:307-330 | a batch is what the next reads of the pipe yield, in order, up to fifty messages or the first read that finds nothing |
| PgmSenders.PGMSender.Fill | src/pgm_sender.cc:303-349 | the data of a packet is the next stretch of the batch stream, full unless the pipe was read until it was empty and everything read is in it, with the offset of the first batch that starts there |
| PgmSenders.PGMSender.OutEvent | src/pgm_sender.cc:291-390 | whatever the pipe yields and the socket takes, no byte is lost, repeated or reordered; an idle sender makes one packet exactly if a batch is unfinished or the pipe has a message, and a packet that waits is sent as soon as the socket takes it |
| PgmSenders.PGMSender.BytesAreConserved | src/pgm_sender.cc:291-390 | the batch stream is the payloads sent, then the output buffer, then the rest of the current batch |
| PgmSenders.Pusher.PushMessage | src/pgm_sender.cc:116-153 | a push joins the cached ones if it fits, else they are written first, and it is cached or, if too large, written itself; while the pipe is open nothing is lost; what happens when it is closed |
| PgmSenders.Pusher.EndPush | src/pgm_sender.cc:161-180 | nothing is left pending |
| PgmSenders.Pusher.Write | src/pgm_sender.cc:182-202 | a pipe message is whole pushes, no larger than the cache or one push by itself |
| PgmSenders.Pusher.PushedBytes | src/pgm_sender.cc:116-202 | pipe contents and cache are, byte for byte, the pushes |
| PgmReceivers.ReceiveKeepsContiguous | src/pgm_receiver.cc:176-261 | a later packet keeps every parser on a contiguous run of the stream, unless the gap is in the branch that is not checked |
| PgmReceivers.FirstIsContiguous | src/pgm_receiver.cc:193-241 | the first packet of a peer is joined at the first batch that starts in it |
| PgmReceivers.FeedsAreContiguous | src/pgm_receiver.cc:176-261 | whatever is dropped and whatever parsers refuse, without a hidden gap every parser is fed a contiguous run of the stream from the start of a batch |
| PgmReceivers.GaplessExactly | src/pgm_receiver.cc:193-216 | parsers are fed packets that follow one another if and only if there is no gap right after a first packet that was joined |
| PgmReceivers.NextIsFed | src/pgm_receiver.cc:199-261 | the parser of a joined peer is fed the whole next packet, no other parser is, and the peer stays joined exactly if the parser accepts it |
| PgmReceivers.JoinedAnew | src/pgm_receiver.cc:218-255 | a peer that is not joined is joined by the first packet in which a batch starts, from there on; any other packet changes no parser |
| PgmReceivers.GapParts | src/pgm_receiver.cc:199-216 | behind a gap that is seen the old parser is fed no more |
| PgmReceivers.NothingIsLeftOut | src/pgm_receiver.cc:176-261 | when nothing is lost or refused, one parser is fed the stream from the first batch start that arrives to the end of the last packet |
| PgmReceivers.HiddenGapExample | src/pgm_receiver.cc:193-216 | packet 0 and then packet 2 go to one parser |
| PgmReceivers.ParsersHaveOptions | src/pgm_receiver.cc:185-238 | every parser is created with the encoding options of the packets |
| PgmReceivers.DatagramsArePackets | src/pgm_receiver.cc:176-191 | receiving datagrams is receiving the packets they carry |
| PgmReceivers.PGMReceiver.InEvent | src/pgm_receiver.cc:127-267 | the loop receives datagrams one by one until there is none |
| PgmTransfers.ParsersAreFedBatches | src/pgm_receiver.cc:176-261 | from any sender over a lossy network, every parser has the sender's options and is fed a contiguous run of its batch stream from the start of a batch |
| PgmTransfers.AllIsFed | src/pgm_receiver.cc:127-267 | and from a sender over a network that loses nothing, by its datagrams |
| SzBinaryFrames.NetworkOrderRoundTrip | src/wire.hpp:36-51 | a word comes back from network order |
| SzBinaryFrames.OrdersOfBytes | src/wire.hpp:36-51 | byte by byte: highest first on the wire, lowest first in the host |
| SzBinaryFrames.SumOfTwo | src/szBinary_decoder.hpp:125-135 | the sum of two stretches is the sum of their sums |
| SzBinaryFrames.SumWith | src/szBinary_decoder.hpp:125-135 | changing any byte changes the sum by the difference |
| SzBinaryFrames.OneWrongByte | src/szBinary_decoder.hpp:96-104 | a frame with any single byte changed has a wrong checksum |
| SzBinaryFrames.WholeFrame | src/szBinary_decoder.hpp:92-112 | a frame is accepted if and only if its tail is the sum of head and body modulo 256 |
| SzBinaryFrames.CutIsExact | src/szBinary_decoder.hpp:43-123 | the frames, then the rest, are the bytes; every frame is as large as its head says and its checksum is right |
| SzBinaryFrames.BadMeans | src/szBinary_decoder.hpp:96-104 | and what fails is a whole frame with a wrong checksum right behind them |
| SzBinaryFrames.CutAppend | src/szBinary_decoder.hpp:43-123 | bytes that follow are cut after the frames before them, and nothing follows a failure |
| SzBinaryFrames.ChunkIndependence | src/szBinary_decoder.hpp:23-123 | up to the first failure frames and state depend only on the bytes, for every split |
| SzBinaryFrames.SplitAnywhere | src/szBinary_input_service.cpp:112-124 | feeding on whatever decode answers: a stream without a failure before its last byte gives the same frames and rest for every split |
| SzBinaryFrames.SplitMatters | src/szBinary_input_service.cpp:112-124 | one chunk or two: it is the same if and only if the first brings no failure, or the second is empty or fails with its first frame |
| SzBinaryFrames.EverySplitAgrees | src/szBinary_input_service.cpp:112-124 | all splits of a stream agree if and only if there is no failure before its last byte |
| SzBinaryFrames.AfterFailureTheSplitMatters | src/szBinary_decoder.hpp:101-104 | fed on after a failure, one stream in one chunk loses a good frame that two chunks deliver |
| SzBinaryDecoder.Decoder.Consume | src/szBinary_decoder.hpp:43-123 | a step takes bytes or passes from BODY to TAIL, and the rest of the stream is cut as before |
| SzBinaryDecoder.Decoder.GenerateCheckSum | src/szBinary_decoder.hpp:125-135 | the 32-bit sum is that of the bytes modulo 256 |
| SzBinaryDecoder.Decoder.Decode | src/szBinary_decoder.hpp:23-35 | the frames delivered and the bytes kept are those of the cut stream; a wrong checksum answers -1 and starts over; it terminates |
| SzBinaryDecoder.Decoder.DecodeChunks | src/szBinary_decoder.hpp:23-35 | and so for any number of chunks |
| SzBinaryDecoder.Decoder.DecodeOn | src/szBinary_input_service.cpp:112-124 | the machine, fed chunk after chunk with its answers ignored, delivers and keeps what feeding on says |
| SzBinaryEncoder.FrameIsCut | src/szBinary_encoder.hpp:36-116 | an encoded message is one frame with its numbers in network order, every other byte as it was, and the sum of head and body in its tail |
| SzBinaryEncoder.FramesRoundTrip | src/szBinary_encoder.hpp:36-129 | the output of any run of encode and flush is cut into exactly its frames |
| SzBinaryEncoder.AnyChunking | src/szBinary_encoder.hpp:36-129 | under any chunking |
| SzBinaryEncoder.SwappedIsSame | src/szBinary_encoder.hpp:43-49 | a field put into network order is unchanged if and only if it reads the same backwards |
| SzBinaryEncoder.AppendsExactly | src/szBinary_encoder.hpp:36-116 | encoding behind any bytes w gives w and the frame if and only if turning the fields around at the front turns around those of the message and leaves w, and the two checksums agree |
| SzBinaryEncoder.SameFieldsBehind | src/szBinary_encoder.hpp:36-116 | behind at least a whole structure, the first of these says that all fields of both messages read the same backwards |
| SzBinaryEncoder.WaitingMessageIsSpoilt | src/szBinary_encoder.hpp:36-116 | behind a message whose type is one of the source's, or nothing: encoding gives w and the frame if and only if w is empty, and otherwise swaps the head of w back |
| SzBinaryEncoder.FlushBeforeEncode | src/szBinary_encoder.hpp:36-129 | behind the frames of any run without flush it works if and only if there are none |
| SzBinaryEncoder.Encoder.Encode | src/szBinary_encoder.hpp:36-120 | the wait buffer gets the message, patched and summed; the handed-out buffer is not touched |
| SzBinaryEncoder.Encoder.Flush | src/szBinary_encoder.hpp:122-129 | the wait buffer is handed out and an empty one waits |
| SzBinaryEncoder.Encoder.SendAll | src/szBinary_encoder.hpp:36-129 | a run of encode and flush hands out exactly the frames |
| XmlText.NormalizedIsSame | src/tinyxml2.cpp:279-302 | normalization changes text if and only if there is a carriage return in it |
| XmlText.LineEnds | src/tinyxml2.cpp:279-302 | lines stay as they are, and each of the four line ends becomes a line feed |
| XmlText.UnescapeEscaped | src/tinyxml2.cpp:266-353 | from any position, unescaping escaped text appends the text, normalized |
| XmlText.RoundTrip | src/tinyxml2.cpp:2355-2402 | with both entity sets, unescaping what was escaped gives the text, if and only if it has no carriage return |
| XmlText.KeptExactly | src/tinyxml2.cpp:274-344 | the same from any position and with any output so far |
| XmlText.StrayAmpersand | src/tinyxml2.cpp:337-341 | every string is shown with all its stray ampersands if and only if, at each one that is reached, the string has an ampersand at the offset given by the length of what was shown before it |
| XmlText.StrayFirstIsShown | src/tinyxml2.cpp:274-344 | they are all shown if no entity, character reference or two-character line end stands before one |
| XmlText.StrayAmpersandExample | src/tinyxml2.cpp:337-341 | and not always: in a text with an entity before it, a stray ampersand shows as a letter of that entity |
| XmlText.CharacterRef | src/tinyxml2.cpp:451-544 | a character reference gives no more bytes than it takes |
| XmlEntities.EscapedChars | src/tinyxml2.cpp:2355-2402 | the five characters and how each is printed; all others are printed as they are |
| XmlEntities.NamedEntities | src/tinyxml2.cpp:324-336 | what each name stands for |
| XmlEntities.NumberIsValue | src/tinyxml2.cpp:473-537 | digits read backwards, scaled in 32-bit words, give the number they stand for |
| XmlEntities.DigitsAre | src/tinyxml2.cpp:489-500 | the digits |
| XmlEntities.ReferenceIs | src/tinyxml2.cpp:451-544 | a decimal or hexadecimal reference stands for the character of its number, wherever it stands |
| XmlEntities.Utf8Decodes | src/tinyxml2.cpp:403-448 | the bytes written for a number are those of its code point, no more than it needs |
| XmlEntities.ReferenceShown | src/tinyxml2.cpp:304-323 | behind plain text a reference shows its character |
| XmlEntities.EntityShown | src/tinyxml2.cpp:324-336 | and an entity its own |
| XmlText.TextEndsAtTag | src/tinyxml2.cpp:192-214 | escaped text ends at the tag behind it |
| XmlStrPairs.StrPair.ParseText | src/tinyxml2.cpp:192-214 | the text is what stands before the first end tag, and line ends are counted |
| XmlStrPairs.CharacterRefIn | src/tinyxml2.cpp:451-544 | reading a character reference backwards in the array is CharacterRef |
| XmlStrPairs.FindEntityIn | src/tinyxml2.cpp:324-336 | comparing with the table finds the first entry that stands there |
| XmlStrPairs.StrPair.UnescapeInPlace | src/tinyxml2.cpp:274-353 | in place, with the write pointer never past the read pointer, the result is that of unescaping a copy, and nothing outside the text changes |
| XmlWhitespace.SqueezedIsCollapsed | src/tinyxml2.cpp:237-263 | what the loop writes is the words of the text with one space between them |
| XmlWhitespace.CollapsedKeepsWords | src/tinyxml2.cpp:237-263 | collapsing keeps the words, in order, and doing it twice is doing it once |
| XmlStrPairs.StrPair.CollapseWhitespace | src/tinyxml2.cpp:237-263 | in place, from the first word on, with nothing outside the text changed |
| XmlStrPairs.StrPair.GetStr | src/tinyxml2.cpp:266-363 | the first call unescapes so, then collapses if asked to, and the text ends with NUL; without collapsing, stray ampersands are shown exactly under the condition above |
| XmlStrPairs.StrPair.ReadBack | src/tinyxml2.cpp:192-363 | parsing and reading printed text gives the text, if and only if it has no carriage return |
| XmlStrPairs.PrintString | src/tinyxml2.cpp:2355-2402 | printing runs between entities prints the escaped text |

## Left out

- Weak memory ordering and failing allocations: atomics are sequentially consistent steps, malloc and new succeed.
- `BatchQueue`'s destructor, `SpscQueue::Probe`, and `CheckRead` of a pipe.
- The listener callback of a pipe, and timed waits as lengths of time: a timed wait may end at any moment.
- MessageAllocators.MessageAllocator.Allocate: a whole call without steps of the other thread in between; MessageFlows.Interleave has them in any order.
- MessageAllocators.MessageAllocator.ConsumeIdleQueue: a whole call too, and MessageFlows.Interleave has its steps.
- MessageFlows.Interleave: one direction of a pipe pair, with both queues as atomic queues, and without the wake-up, which is in PipeProtocol; capacities that are not negative. Recycling after Terminate has dropped the peer; message contents and time stamps.
- `shared_ptr` aliasing between the token map and the cache array of a context: the map holds the place in the array. The presence map, which the source keeps in the template while it encodes a record, is local.
- Contexts.DecodeRecord: src/FieldInstructionString.hpp:87 and :108 test that the length and its own bytes each fit the buffer, not that both do; the bytes the source then reads past the end are not modelled, and such a record fails.
- Contexts.Context.Decode: requires fewer than 2^31 bytes in a call, because the source keeps the number left in an int; bytes the source would read past the end of its buffer are treated as a failure.
- ContextRuns.RunRoundTrip: for messages that fit their template, string lengths that fit 32 bits, and signed DELTA differences that do not overflow; a template has at most 31 fields, no string DELTA, which has no decoder, and no int32 field, which the loader wires to the wrong type (src/xmlTemplateParser.hpp:107-114). The encoder and the decoder are two contexts. Only fields are compared, not the index the decoder zeroes.
- Serializer, increment session, parser and increment application: not part of this model. A flush is any function of the messages so far that is not empty, a parser is what it is fed and whether it accepts it.
- PgmSenders.PGMSender.OutEvent: for a data size of at most 0x1FFF bytes, as the 13-bit offset asks; a send takes all or nothing, as src/pgm_socket.cc:544-569 asserts. Timers, polling and statistics are left out.
- PgmReceivers.FeedsAreContiguous: while no index has wrapped, and for one sender at a time; a new peer replaces the known one. Missed-packet counters are left out.
- SzBinaryDecoder.Decoder.Decode: for heads whose frame size fits a signed 32-bit int; beyond it the arithmetic of the source is undefined.
- XmlEntities.ReferenceIs: for numbers that fit 32 bits; beyond them assertions of the source fail.
- PgmReceivers.NothingIsLeftOut: while no index has wrapped.
- XmlStrPairs.StrPair.GetStr: the text up to its end has no NUL, as ParseText leaves it; text that the pair owns itself is not part of this model.
- Sockets, threads, timers, logging, configuration loading, the rest of the XML library, the web dashboard and the vendored headers.
