# Caeron: a verified model of the messaging core

Caeron is a C++ port of the Aeron messaging core. This project models its lock-free shared-memory
transports, its term-buffer algorithms, the command channel between client and driver and the
counter table, and proves what they promise. Check it with `dafny verify dfyconfig.toml`.

## How it is modelled

* **Transports under every interleaving.** `RingSystem`, `Broadcast`, `LinkedQueueSystem`, `ArrayQueueSystem`,
  `Rotation` and `CounterClaims` are step systems: every load, store, compare-and-set, exchange,
  construction and deletion on shared state is one step, taken by any thread at any time. Invariants
  are kept by every step, and the theorems are about every run. `RingCalls`, `BroadcastCalls`,
  `LinkedQueueCalls` and `ArrayQueueCalls` say what becomes of each call: when exactly it is refused,
  what it takes, and that alone it ends.
* **The same structures one call at a time.** `RingBuffer`, `BroadcastBuffer`, `LinkedQueue`,
  `ArrayQueue`, `CountersManager` and `CommandChannel` are classes over byte arrays, nodes and slots
  updated in place; each method is proved against the queue or table the object stands for.
* **Term buffers.** `Frames` sees a term as a row of cells (data, padding, half-written claims,
  untouched space). The reader, rebuilder, gap scanner, gap filler, unblocker, scanner and block
  scanner are array methods proved against functions on the bytes, and those functions against the
  row of cells. `GapRepair`, `TermUnblocker` and `TermScanner` prove how they compose, and
  `UnblockStages` what a reader sees between the stores of one unblocking.
* **Positions and masks.** `Bits` proves masks and alignment for every power of two; `Records` uses
  them for positions that grow without bound and are masked into a region.
* **Wire formats.** `Bytes` holds the little-endian accessors, `Packed` the two-in-one 64-bit words,
  `Commands` the layout of every client command and its dispatch, `CommandErrors` the messages that
  are none. `FrameDelivery` follows a frame from the bytes laid out to the handler.

## What the proofs brought out

* Consuming a ring record clears its length word alone. With messages of one aligned record size that
  is enough in every interleaving; with mixed sizes a consumer can take a stale body word for the
  length of a record not yet published (`RingMixed`). A claim can be misread in some run that follows
  if and only if a word it publishes through does not read zero (`RingMisreads.ClaimSafeIffClear`).
* A received packet of several frames is dropped as a whole when its first frame is present, so its
  other frames can be lost. `TermRebuilder.ConvergesIffAnchored` says exactly for which packets the
  order of arrival does not matter; single-frame packets are among them.
* An unblocker makes a claim's length positive before it stores the padding type, so with a data
  header as the default there is a moment at which a reader delivers the unfinished claim
  (`UnblockStages.ClaimNeverMisleadsIff`); filling empty space has no such moment while the default
  header's length is zero. A scan that reached the tail fills up to it without looking again
  (`TermUnblocker.LateUnblockKeepsIff`), and beyond the tail it writes a negative length
  (`TermUnblocker.LengthWrittenIffWithinTail`).
* `UNBLOCKED_TO_END` means that the scan reached the tail, not the end of the term, and the log is
  rotated even so. At that moment the reader comes to the end of the term if and only if the tail was
  there (`LogBufferUnblocker.ToEndMeansTail`, about unblocking one term).
* `LogBufferUnblocker` reads the count first and the term id later. Overtaken by three rotations, or a
  multiple of three, it leaves the log in a state from which it never rotates again
  (`Rotation.LateCallWedgesIff`, `Rotation.WedgedForever`). It works on the term of the position it is
  given if and only if that is one of the three newest (`LogBufferUnblocker.UnblocksTheRightTerm`).
* `forEach` skips counters with negative type ids, which `allocate` accepts.
* The block scanner takes the header of a padding frame at its start even when its limit lies inside
  that header (`TermScanner.BlockEndsOtherwise`).
* `set_revoke` keeps the other bits of whatever the scratch buffer held, so a remove-publication
  message can carry stale bits; the driver looks at the lowest bit alone.
* Where comments and code differ, the code is followed: `TermReader::read` stops at a negative length
  and skips padding by type (the comment speaks of negative lengths as padding); `get_key` and
  `get_label` return the full length, not the number of bytes copied; `scan_for_gap` returns the end of
  the gap, not the last contiguous offset.

## Model

| member | source | states |
|---|---|---|
| `Bits.AndMask` | src/caeron/concurrent/many_to_one_ring_buffer.h:145 | `x & (2^k - 1)` is `x mod 2^k`, for every x and every k |
| `Bits.AndNotMask` | src/caeron/common/bit_util.h:28 | `x & ~(2^k - 1)` is x less its remainder, for every x and every k |
| `Bits.Align` | src/caeron/common/bit_util.h:24-32 | rejects exactly the alignments that are no power of two, overflows exactly beyond the 32-bit range, otherwise is the least multiple not below the value |
| `RingSafety.ActKeepsInv` | src/caeron/concurrent/many_to_one_ring_buffer.h:69-196 | one load, compare-and-set or store of any producer or of the consumer keeps the protocol invariant, provided a winning claim lands on zeroed slot words |
| `RingSafety.RunKeepsInv` | src/caeron/concurrent/many_to_one_ring_buffer.h:69-196 | so does every interleaving of any number of producers and one consumer |
| `RingSafety.HandlerSees` | src/caeron/concurrent/many_to_one_ring_buffer.h:169-174 | the handler is given the whole message of the claim that the consumer stands on, never a torn one |
| `RingUniform.RunUniform` | src/caeron/concurrent/many_to_one_ring_buffer.h:69-196 | when all messages need one aligned record size, every claim of every interleaving lands on zeroed slot words although only length words are cleared |
| `RingTheorems.UniformRunsAreSafe` | src/caeron/concurrent/many_to_one_ring_buffer.h:69-196 | one record size: the region is never overfull, an unpublished claim reads length 0, no corrupt record is seen, and the messages delivered are a prefix of the claims in tail order |
| `RingTheorems.ClearRunsAreSafe` | src/caeron/concurrent/many_to_one_ring_buffer.h:69-196 | the same for messages of any sizes, as long as each claim lands on zeroed slot words |
| `RingMisreads.ClaimSafeIffClear` | src/caeron/concurrent/many_to_one_ring_buffer.h:176-179 | a claim is safe if and only if the words it publishes through read zero: then no run with further such claims lets the consumer take a length no producer has stored; otherwise a run exists that does |
| `RingTheorems.StopsAtUnpublished` | src/caeron/concurrent/many_to_one_ring_buffer.h:151-154 | a read pass that stops before its tail snapshot stands at a claim that is not published |
| `RingTheorems.ConsumerDrains` | src/caeron/concurrent/many_to_one_ring_buffer.h:138-196 | with every claim published, the consumer alone delivers all of them and ends with head equal to tail |
| `RingCalls.LookExactly` | src/caeron/concurrent/many_to_one_ring_buffer.h:91-112 | a producer gives up exactly when the claim at the tail it loaded, wrap padding included, exceeds the space against the head it loaded; it claims exactly when the claim fits and that tail still stands; otherwise it tries again with nothing changed |
| `RingCalls.LoopEnds` | src/caeron/concurrent/many_to_one_ring_buffer.h:85-113 | wherever a producer stands in the loop, with whatever it loaded, at most five steps of its own end with its message claimed at the tail or, exactly when refused, without effect: a lost race loses no message |
| `RingCalls.WriteAlone` | src/caeron/concurrent/many_to_one_ring_buffer.h:69-131 | a whole call alone: refused exactly when the claim exceeds the free space, without effect; otherwise claimed at the tail and published, with the invariant kept on clear words |
| `RingCalls.WriteThenRead` | src/caeron/concurrent/many_to_one_ring_buffer.h:69-196 | such a call and the consumer's steps after it deliver every earlier message and then this one, and empty the region |
| `RingMixed.MixedSizesDeliverGarbage` | src/caeron/concurrent/many_to_one_ring_buffer.h:176-179 | a run with records of 16 and 8 bytes in which the consumer takes a stale body word for a length and delivers a message nobody wrote |
| `RingBuffer.ManyToOneRingBuffer.Create` | src/caeron/concurrent/many_to_one_ring_buffer.h:29-41 | a buffer is accepted exactly when the bytes beyond the 128-byte header are a positive power of two; it starts empty |
| `RingBuffer.ManyToOneRingBuffer.Write` | src/caeron/concurrent/many_to_one_ring_buffer.h:69-131 | messages of any size: appends to the queue of (type, bytes), or fails without effect exactly for bad arguments, a record over an eighth of the capacity, or a claim with wrap padding over the free space |
| `RingBuffer.ManyToOneRingBuffer.PutRecord` | src/caeron/concurrent/many_to_one_ring_buffer.h:202-218 | the body, the type id and the length of the record, with nothing else touched |
| `RingBuffer.ManyToOneRingBuffer.Read` | src/caeron/concurrent/many_to_one_ring_buffer.h:138-196 | delivers exactly the queued messages in order, counts them, and leaves the buffer empty |
| `BroadcastSafety.ActKeepsInv` | src/caeron/concurrent/broadcast_transmitter.h:52-113 | one load or store of the transmitter or of the one receiver keeps the broadcast invariant |
| `BroadcastSafety.RunKeepsInv` | src/caeron/concurrent/broadcast_receiver.h:46-99 | so does every interleaving of the two, with messages of any size and any wraps |
| `BroadcastSafety.BroadcastIsLossless` | src/caeron/concurrent/broadcast_receiver.h:51-98 | the lapped branch is never taken, no corrupt record is seen, and what was handed on is a prefix of what was transmitted |
| `BroadcastSafety.TransmitterSparesUnread` | src/caeron/concurrent/broadcast_transmitter.h:69-89 | no transmitter step stores a byte between the receiver's position and the tail |
| `BroadcastSafety.FullPassDeliversAll` | src/caeron/concurrent/broadcast_receiver.h:60-98 | a pass that reaches the tail has handed on every message transmitted |
| `BroadcastCalls.RefusedExactly` | src/caeron/concurrent/broadcast_transmitter.h:66-86 | at the moment it looks, wherever the receiver stands, a transmission is refused exactly when its claim exceeds the space published as free |
| `BroadcastCalls.TransmitAlone` | src/caeron/concurrent/broadcast_transmitter.h:52-113 | a whole transmission alone: without effect exactly when refused, otherwise the newest message sent, with the tail past it |
| `BroadcastCalls.PassPublishesIffHandedOn` | src/caeron/concurrent/broadcast_receiver.h:57-98 | in every interleaving a pass counts exactly what it handed on, and its end stores the position reached as the head exactly when it handed on some |
| `BroadcastCalls.ReceiveAlone` | src/caeron/concurrent/broadcast_receiver.h:46-99 | a whole pass alone, wherever the transmitter stands: everything sent and not yet received, in order, up to the tail, and that space freed exactly when something was handed on |
| `BroadcastBuffer.SharedBuffer.Create` | src/caeron/concurrent/broadcast_transmitter.h:36-47 | a buffer is accepted exactly when the bytes beyond the 64-byte header are a positive power of two |
| `BroadcastBuffer.BroadcastTransmitter.Transmit` | src/caeron/concurrent/broadcast_transmitter.h:52-92 | one call: appends the message for the receiver, or fails without effect exactly when the arguments are bad or the claim exceeds the free space |
| `BroadcastBuffer.BroadcastReceiver.Receive` | src/caeron/concurrent/broadcast_receiver.h:46-99 | one call: hands over exactly the messages sent and not yet received, in order, and publishes the head only when it handed on some |
| `BroadcastBuffer.ResumeAt` | src/caeron/concurrent/broadcast_receiver.h:54-55 | a receiver is moved forward exactly when the lead exceeds the capacity, and then to within one lap |
| `LinkedQueueSystem.ActKeepsInv` | src/caeron/concurrent/many_to_one_concurrent_linked_queue.h:52-80 | each allocation, exchange, link, load, store and deletion keeps the chain from head to tail, every link made or owed by one enqueuer |
| `LinkedQueueSystem.RunIsSafe` | src/caeron/concurrent/many_to_one_concurrent_linked_queue.h:52-80 | every interleaving of enqueuers and one dequeuer, addresses reused at will: dequeued values are a prefix of the exchange order, no freed node is accessed, and no node is freed before the enqueuer that holds it as previous tail has linked it |
| `LinkedQueueSystem.EmptyExactly` | src/caeron/concurrent/many_to_one_concurrent_linked_queue.h:66-70 | a dequeue sees no next node exactly when everything enqueued was delivered or the enqueuer right behind the head has yet to link |
| `LinkedQueueCalls.LookExactly` | src/caeron/concurrent/many_to_one_concurrent_linked_queue.h:66-70 | the dequeuer gives up exactly when everything enqueued was delivered or the link behind the head is still owed; otherwise it goes on with the node behind the head |
| `LinkedQueueCalls.MovesOldest` | src/caeron/concurrent/many_to_one_concurrent_linked_queue.h:72-73 | in every interleaving a dequeue that goes on takes exactly the oldest value not yet delivered |
| `LinkedQueueCalls.AdvancesHead` | src/caeron/concurrent/many_to_one_concurrent_linked_queue.h:75-77 | the head moves to that node and exactly the old head is freed |
| `LinkedQueueCalls.EnqueuersAside` | src/caeron/concurrent/many_to_one_concurrent_linked_queue.h:52-59 | no enqueuer's step moves the dequeuer, the head or what was delivered |
| `LinkedQueueCalls.DequeueAlone` | src/caeron/concurrent/many_to_one_concurrent_linked_queue.h:64-80 | a whole dequeue alone: without effect exactly when there is nothing to take, otherwise the oldest value delivered, one node freed and the dequeuer ready again |
| `LinkedQueueCalls.EnqueueAlone` | src/caeron/concurrent/many_to_one_concurrent_linked_queue.h:52-59 | a whole enqueue alone, at any free address: its value is the newest, one node added, no link owed that was not before |
| `LinkedQueueCalls.DequeuesDeliverAll` | src/caeron/concurrent/many_to_one_concurrent_linked_queue.h:64-80 | with no link owed, as many dequeues as values wait deliver everything enqueued |
| `LinkedQueueSystem.DestructorFreesAll` | src/caeron/concurrent/many_to_one_concurrent_linked_queue.h:33-43 | with nothing in flight, the destructor's walk visits every allocated node exactly once |
| `LinkedQueue.ManyToOneConcurrentLinkedQueue.Enqueue` | src/caeron/concurrent/many_to_one_concurrent_linked_queue.h:52-59 | one call on linked nodes: appends the value |
| `LinkedQueue.ManyToOneConcurrentLinkedQueue.TryDequeue` | src/caeron/concurrent/many_to_one_concurrent_linked_queue.h:64-80 | one call: takes the oldest value, or fails exactly on an empty queue |
| `LinkedQueue.ManyToOneConcurrentLinkedQueue.Empty` | src/caeron/concurrent/many_to_one_concurrent_linked_queue.h:83-88 | true exactly when the queue holds nothing |
| `ArrayQueueSystem.ActKeepsInv` | src/caeron/concurrent/one_to_one_concurrent_array_queue.h:62-99 | each load, store, construction and destruction keeps the slot lifetimes and the order of values |
| `ArrayQueueSystem.RunIsSafe` | src/caeron/concurrent/one_to_one_concurrent_array_queue.h:62-99 | every interleaving: first in, first out, never more elements than slots, no object constructed over another or taken from raw storage |
| `ArrayQueueSystem.LiveExactly` | src/caeron/concurrent/one_to_one_concurrent_array_queue.h:70-98 | a slot is live exactly when its index lies between head and tail, apart from the one being destroyed and the one being constructed |
| `ArrayQueueSystem.EnqueueRefusedExactly` | src/caeron/concurrent/one_to_one_concurrent_array_queue.h:62-68 | at the moment it looks, wherever the consumer stands in its call, an enqueue is refused exactly when the queue holds as many elements as slots |
| `ArrayQueueSystem.DequeueRefusedExactly` | src/caeron/concurrent/one_to_one_concurrent_array_queue.h:83-89 | at the moment it looks, wherever the producer stands in its call, a dequeue is refused exactly when everything enqueued was delivered |
| `ArrayQueueCalls.EnqueueAlone` | src/caeron/concurrent/one_to_one_concurrent_array_queue.h:62-78 | a whole enqueue alone, wherever the consumer stands: without effect exactly when full, otherwise its value is the newest |
| `ArrayQueueCalls.DequeueAlone` | src/caeron/concurrent/one_to_one_concurrent_array_queue.h:83-99 | a whole dequeue alone, wherever the producer stands: without effect exactly when everything was delivered, otherwise the oldest value |
| `ArrayQueueCalls.TakesOldest` | src/caeron/concurrent/one_to_one_concurrent_array_queue.h:91-92 | in every interleaving what is moved out is the oldest element not yet delivered |
| `ArrayQueue.BitCeil` | src/caeron/concurrent/one_to_one_concurrent_array_queue.h:31 | the least power of two not below the requested capacity |
| `ArrayQueue.OneToOneConcurrentArrayQueue.Create` | src/caeron/concurrent/one_to_one_concurrent_array_queue.h:26-38 | for every i32: refuses exactly capacities that are not positive; the rounded capacity fits an i32 exactly up to 2^30, and the queue then starts empty with it; above, there is no queue |
| `ArrayQueue.OneToOneConcurrentArrayQueue.Enqueue` | src/caeron/concurrent/one_to_one_concurrent_array_queue.h:62-78 | one call: appends the value, or fails exactly when full |
| `ArrayQueue.OneToOneConcurrentArrayQueue.TryDequeue` | src/caeron/concurrent/one_to_one_concurrent_array_queue.h:83-99 | one call: takes the oldest value, or fails exactly when empty |
| `ArrayQueue.OneToOneConcurrentArrayQueue.Destroy` | src/caeron/concurrent/one_to_one_concurrent_array_queue.h:40-51 | the destructor leaves no live object in any slot |
| `TermReader.Read` | src/caeron/logbuffer/term_reader.h:34-83 | on any aligned term, as long as no frame on the way leads beyond an i32: the loop delivers the fragments of `Outcomes` and packs its final offset and count |
| `TermReader.ReadsInside` | src/caeron/logbuffer/term_reader.h:44-80 | on a row of cells every read ends inside the row, so no frame leads that far |
| `Frames.AlignedLengthIsAlign` | src/caeron/logbuffer/term_reader.h:60 | the step from frame to frame is `align` to the frame alignment |
| `TermReader.ReadDelivers` | src/caeron/logbuffer/term_reader.h:44-80 | on any tiled term: exactly the first `fragments_limit` data frames before the first unpublished cell, in order, padding skipped; it ends behind the last one, or at the unpublished cell |
| `TermReader.ReadsCompose` | src/caeron/logbuffer/term_reader.h:34-83 | a read limited to a followed by one limited to b is one read limited to a + b |
| `TermReader.ReadsAlike` | src/caeron/logbuffer/term_reader.h:44-80 | terms that agree on frame headers and data frames are read alike, whatever lies inside padding |
| `FrameDelivery.WriteDefaultHeader` | src/caeron/logbuffer/header_writer.h:13-43 | the eight stores lay out exactly the header fields of an unfragmented data frame |
| `FrameDelivery.ReadHandsOver` | src/caeron/logbuffer/term_reader.h:69-77 | from the bytes a publisher lays out: a read hands over exactly the first `limit` frames in front of the first unpublished cell, each with its offset, its own term id, session and stream, and its bytes |
| `FrameDelivery.RebuiltHandsOver` | src/caeron/logbuffer/term_rebuilder.h:31-71 | the same through any packets placed in any order: the source's frames up to the first missing one, with the source's ids and bytes |
| `Packed.Unpacks` | src/caeron/logbuffer/log_buffer_descriptor.h:123-138 | both extractors invert the packing for all i32 pairs, negatives included; the reader's and the scanner's outcomes decode the same way |
| `Packed.Repacks` | src/caeron/logbuffer/log_buffer_descriptor.h:123-138 | every 64-bit word is the packing of its two halves |
| `TermRebuilder.Insert` | src/caeron/logbuffer/term_rebuilder.h:31-71 | payload, then 32 header bytes from the end, then the length word, together copy the packet; a non-zero length word keeps everything as it was |
| `TermRebuilder.RebuildsImage` | src/caeron/logbuffer/term_rebuilder.h:31-71 | after any list of packets in any order, with repeats and losses: source bytes exactly on the frames placed, zeros elsewhere |
| `TermRebuilder.SinglesConverge` | src/caeron/logbuffer/term_rebuilder.h:39-42 | with single-frame packets the term is the image of the set that arrived, so any two orders converge |
| `TermRebuilder.SameTermIffSamePlaced` | src/caeron/logbuffer/term_rebuilder.h:39-70 | two lists of packets leave the same term if and only if they place the same frames |
| `TermRebuilder.PairConvergesIffCommute` | src/caeron/logbuffer/term_rebuilder.h:39-42 | for any two packets: both orders leave the same term if and only if neither holds the other's first frame without all its frames |
| `TermRebuilder.ConvergesIffAnchored` | src/caeron/logbuffer/term_rebuilder.h:39-70 | for any packets: all orders of arrival, with repeats, leave the same term if and only if each frame has a packet that brings it whichever packet brings that one's first frame earlier; the term then holds every frame |
| `TermRebuilder.CommutingAreAnchored` | src/caeron/logbuffer/term_rebuilder.h:39-42 | packets that commute pairwise leave the same term in every order |
| `TermRebuilder.BlocksDiverge` | src/caeron/logbuffer/term_rebuilder.h:65-69 | the input that diverges: the two orders of one frame and a pair containing it leave different terms |
| `TermRebuilder.PlacedLength` | src/caeron/logbuffer/term_rebuilder.h:39-70 | a frame is present with its source length exactly when it was placed, otherwise its length word is zero |
| `TermRebuilder.ImageIsTiled` | src/caeron/logbuffer/term_rebuilder.h:31-71 | a partly rebuilt term is a row of cells: received frames in place, the missing ones untouched |
| `TermGapScanner.ScanForGap` | src/caeron/logbuffer/term_gap_scanner.h:46-94 | the two loops return the offset and the gap of `Scanned` |
| `TermGapScanner.NoGapExactly` | src/caeron/logbuffer/term_gap_scanner.h:71-94 | no gap is reported exactly when the first uncommitted cell lies at or past the limit or is a claim still being written |
| `TermGapScanner.GapExactly` | src/caeron/logbuffer/term_gap_scanner.h:71-93 | the gap runs from the first missing cell to the next one that is there, or to the limit |
| `TermGapScanner.ScanRebuilt` | src/caeron/logbuffer/term_gap_scanner.h:46-94 | on a partly rebuilt term from any frame boundary: nothing reported iff every frame starting below the limit arrived; otherwise exactly the first missing range, cut at the limit |
| `TermGapScanner.ScansAlike` | src/caeron/logbuffer/term_gap_scanner.h:56-84 | the result depends on the row of cells alone |
| `TermPadding.WritePaddingHeader` | src/caeron/logbuffer/term_unblocker.h:31-48 | the five stores of the padding header, over the default header of the metadata |
| `TermPadding.PaddedReads` | src/caeron/logbuffer/term_gap_filler.h:66-76 | what is published is padding of the given length with its own offset and term id and the default version, flags, session, stream and reserved value |
| `TermPadding.PaddedTiles` | src/caeron/logbuffer/term_gap_filler.h:66-76 | padding over a stretch of cells is one committed cell in their place, the rest of the row stands |
| `TermGapFiller.TryFillGap` | src/caeron/logbuffer/term_gap_filler.h:38-79 | fills exactly when the length is positive and a multiple of 32 and every length word of the gap is still zero; otherwise changes nothing |
| `TermGapFiller.FillRunOfCells` | src/caeron/logbuffer/term_gap_filler.h:51-76 | filling a run of untouched cells always succeeds |
| `GapRepair.LatePacketsUnseen` | src/caeron/logbuffer/term_rebuilder.h:39-42 | packets of a filled gap that come late, at its start or inside, in any order and number, change only bytes hidden inside the padding |
| `GapRepair.LatePacketsChangeNothing` | src/caeron/logbuffer/term_gap_filler.h:38-79 | so from any cell boundary the reader's frames and final offset and the gap scan's result stay the same |
| `GapRepair.FillAdvances` | src/caeron/logbuffer/term_gap_scanner.h:71-94 | one round of scan and fill: the fill succeeds, the next gap lies behind it, the deliverable frames are the same |
| `GapRepair.RepairCloses` | src/caeron/logbuffer/term_gap_filler.h:38-79 | repeating it fills every gap found and ends with a row of frames that the walk follows to the limit |
| `GapRepair.RepairRebuilt` | src/caeron/logbuffer/term_gap_scanner.h:46-94 | the same from any frame boundary of any partly rebuilt term and any aligned limit, within as many rounds as there are frames |
| `TermUnblocker.UnblockTerm` | src/caeron/logbuffer/term_unblocker.h:83-168 | undisturbed: the three cases of `unblock` with their status and the resulting term |
| `TermUnblocker.UnblockClaim` | src/caeron/logbuffer/term_unblocker.h:93-112 | a claim whose word was loaded earlier becomes padding exactly when the word still stands; lost to the publisher, the compare-and-set leaves everything as it is |
| `TermUnblocker.UnblockEmpty` | src/caeron/logbuffer/term_unblocker.h:125-163 | an empty slot whose forward scan ended earlier is filled exactly when its words are still zero, or when that scan had reached the tail |
| `TermUnblocker.UndisturbedUnblock` | src/caeron/logbuffer/term_unblocker.h:83-168 | with nothing changed in between, the late calls do what `Unblock` says |
| `TermUnblocker.LateUnblockKeepsIff` | src/caeron/logbuffer/term_unblocker.h:97-163 | a slot changed since the call looked is kept if and only if the call found a claim or its scan ended in front of the tail: one that reached the tail fills without looking again |
| `TermUnblocker.LengthWrittenIffWithinTail` | src/caeron/logbuffer/term_unblocker.h:149-163 | an empty slot gets a length that is not negative if and only if it does not lie beyond the tail; beyond it, the negative distance and the status of a call that reached the end |
| `TermUnblocker.ScanBackToConfirmZeroed` | src/caeron/logbuffer/term_unblocker.h:52-67 | true exactly when every length word between is zero |
| `TermUnblocker.UnblockFrees` | src/caeron/logbuffer/term_unblocker.h:92-163 | where the reader is stuck: exactly the first unfinished claim, or the first run of untouched space, becomes padding; the status tells whether the tail was reached; the deliverable frames are the same |
| `TermUnblocker.FreedHeader` | src/caeron/logbuffer/term_unblocker.h:31-48 | the header written there holds the offset, the term id given, the default session and stream and a length that takes exactly the cells freed |
| `TermUnblocker.UnblockingEnds` | src/caeron/logbuffer/term_unblocker.h:83-168 | unblocking again and again at the stuck offset ends within one round per unfinished claim, writes only 32-byte headers of such claims, and lets the walk reach the tail |
| `TermUnblocker.ReaderIsFree` | src/caeron/logbuffer/term_reader.h:34-83 | the reader then delivers exactly the data frames that had been published and stops at the tail |
| `UnblockStages.LastStageIsPadded` | src/caeron/logbuffer/term_unblocker.h:31-48 | the stores one by one end in the padding the whole call leaves |
| `UnblockStages.LookIsReaderStep` | src/caeron/logbuffer/term_reader.h:44-80 | a look with both loads in one state is the reader's own step |
| `UnblockStages.ReaderAtStage` | src/caeron/logbuffer/term_unblocker.h:31-48 | for any two moments of the call at which a reader loads the length and the type: exactly whether it stops, skips, and by how much, or delivers the unfinished frame |
| `UnblockStages.ClaimNeverMisleadsIff` | src/caeron/logbuffer/term_unblocker.h:97-111 | no such reader is misled by a claim being unblocked if and only if the claim and the default header already have the padding type and the header's length, if positive, takes the same space |
| `UnblockStages.EmptyNeverMisleadsIff` | src/caeron/logbuffer/term_gap_filler.h:66-76 | nor by an empty slot being filled, by the unblocker or the gap filler, if and only if the default header's length is not positive or it is padding of the same space |
| `UnblockStages.ReadersElsewhere` | src/caeron/logbuffer/term_unblocker.h:31-48 | in front of the blocked offset and behind its header every stage shows the same cells and frames |
| `TermScanner.ScanForAvailability` | src/caeron/logbuffer/term_scanner.h:35-100 | on any aligned term, as long as no frame met leads beyond an i32: the loop returns the packed available and padding of `Available` |
| `TermScanner.RowInRange` | src/caeron/logbuffer/term_scanner.h:44-97 | on a row of cells no frame leads that far |
| `TermScanner.CoversMaximalRun` | src/caeron/logbuffer/term_scanner.h:44-97 | the cells covered are published, at most the last one padding, fit the maximum, and one cell more would not have done |
| `TermScanner.ScanReports` | src/caeron/logbuffer/term_scanner.h:44-99 | available and padding are the bytes of exactly those cells |
| `TermScanner.AvailableNegative` | src/caeron/logbuffer/term_scanner.h:70-92 | available is negative exactly when the first frame is published and does not fit |
| `TermScanner.ScanBlock` | src/caeron/logbuffer/term_block_scanner.h:30-79 | the block loop returns `BlockEnd` |
| `TermScanner.BlockEndsAlike` | src/caeron/logbuffer/term_block_scanner.h:38-78 | when something is available, the block scanner limited to offset + maximum ends at the same place, less the header of a padding frame behind other frames |
| `TermScanner.BlockEndsOtherwise` | src/caeron/logbuffer/term_block_scanner.h:38-78 | when nothing is available it stays where it is, but takes the header of a padding frame at its start whenever the limit lies behind the start, even inside that header |
| `TermScanner.SenderCovers` | src/caeron/logbuffer/term_scanner.h:35-100 | however the term grows between scans, a sender moving on by available + padding stands on frame boundaries and puts each published frame into exactly one packet |
| `TermScanner.SenderDrains` | src/caeron/logbuffer/term_scanner.h:35-100 | once every frame fits the maximum, it ends behind all published frames |
| `Positions.DecomposesPosition` | src/caeron/logbuffer/log_buffer_unblocker.h:33-41 | shift and mask take a computed position apart again, for every power-of-two term length |
| `Positions.RecomposesPosition` | src/caeron/logbuffer/log_buffer_descriptor.h:154-162 | every position is the one computed from its two parts |
| `Positions.PositionsOrdered` | src/caeron/logbuffer/log_buffer_descriptor.h:154-162 | positions are ordered exactly as (term count, offset) pairs are |
| `Positions.PositionsContinue` | src/caeron/logbuffer/log_buffer_descriptor.h:154-162 | the end of a term is the start of the next |
| `Rotation.StepKeepsInv` | src/caeron/logbuffer/log_buffer_descriptor.h:207-250 | each load and compare-and-set of a rotating caller, and each publisher's append, keeps the rotation invariant; the count moves by at most one |
| `Rotation.RotationIsSafe` | src/caeron/logbuffer/log_buffer_descriptor.h:207-250 | every interleaving of callers whose term id is that of their count: exactly one call returned true per count passed, and the tails hold three consecutive term ids, each at its index modulo three |
| `Rotation.AloneRotatesIffStable` | src/caeron/logbuffer/log_buffer_descriptor.h:225-247 | a call on its own rotates exactly when no other call stands between its two compare-and-sets: a half-finished rotation is not helped |
| `Rotation.RetryRotatesIff` | src/caeron/logbuffer/log_buffer_descriptor.h:219-247 | a caller whose compare-and-set of the tail is spoiled loads it again: alone from there it rotates exactly when no rotation is half-way and its count still stands, otherwise it gives up without effect |
| `Rotation.TermIdReadIsRightIffFresh` | src/caeron/logbuffer/log_buffer_unblocker.h:51-54 | a caller that reads the term id from the tail of the count it read gets that count's id if and only if no tail is three or more terms ahead, which comparing the two tells it |
| `Rotation.LateCallExactly` | src/caeron/logbuffer/log_buffer_unblocker.h:43-55 | what such a call does, whatever happened since it read the count: it replaces a tail if and only if its count is a multiple of three behind the newest term, moves the count if and only if nobody has, and otherwise changes nothing |
| `Rotation.LateCallWedgesIff` | src/caeron/logbuffer/log_buffer_unblocker.h:43-55 | in a log with no rotation half-way it wedges the log if and only if it was overtaken by three rotations or a multiple, rotates it if and only if it was not overtaken, and changes nothing otherwise |
| `Rotation.StaleTermIdWedges` | src/caeron/logbuffer/log_buffer_unblocker.h:43-54 | the run that shows it: read the count, be overtaken by three rotations, read the term id from the tail |
| `Rotation.WedgedForever` | src/caeron/logbuffer/log_buffer_descriptor.h:225-247 | in that state no later call of correct callers ever rotates the log |
| `LogBufferDescriptor.RotateLog` | src/caeron/logbuffer/log_buffer_descriptor.h:207-250 | one undisturbed call on the metadata bytes |
| `LogBufferDescriptor.InitialiseTailWithTermId` | src/caeron/logbuffer/log_buffer_descriptor.h:253-261 | stores the packed tail of one partition |
| `LogBufferDescriptor.CallIsThreeSteps` | src/caeron/logbuffer/log_buffer_descriptor.h:222-249 | the undisturbed call does what the caller's three steps of the step system do |
| `LogBufferUnblocker.UnblockLog` | src/caeron/logbuffer/log_buffer_unblocker.h:27-77 | the array method does what `UnblockedLog` says on three terms and the metadata |
| `LogBufferUnblocker.UnblocksRow` | src/caeron/logbuffer/log_buffer_unblocker.h:57-76 | blocked at the first uncommitted cell of a term tiled up to its own tail: exactly the unfinished claim or the untouched run there becomes padding that ends at that tail or before, with the position's term id if and only if its count is held; all else stands, and the log rotates exactly when the run reaches the tail of the active partition |
| `LogBufferUnblocker.NothingBlocked` | src/caeron/logbuffer/log_buffer_unblocker.h:57-76 | at the tail itself or at a published frame nothing changes and the call returns false |
| `LogBufferUnblocker.UnblocksTheRightTerm` | src/caeron/logbuffer/log_buffer_unblocker.h:33-76 | any position but the start of the next term is unblocked in its partition alone, at its offset; the term there carries the position's term id if and only if the log still holds its count, one of the three newest; the log rotates exactly when the scan reached the tail of the active partition |
| `LogBufferUnblocker.RotatesToTheNextTerm` | src/caeron/logbuffer/log_buffer_unblocker.h:45-55 | blocked at the start of the next term: the log is rotated to it and the terms stay as they are |
| `LogBufferUnblocker.ToEndMeansTail` | src/caeron/logbuffer/term_unblocker.h:149-163 | after reaching the tail the reader comes to the end of the term if and only if the tail was there, although the log is rotated either way |
| `CountersManager.Manager.constructor` | src/caeron/concurrent/counters_manager.h:42-54 | zeroed buffers of matching size stand for the empty table |
| `CountersManager.Manager.Create` | src/caeron/concurrent/counters_manager.h:42-54 | rejected exactly when a slot cannot hold the fixed fields or the buffers hold different numbers of counters |
| `CountersManager.Manager.Allocate` | src/caeron/concurrent/counters_manager.h:65-101 | each error exactly in its case; otherwise the lowest free id gets (type, key, label, 0) and the rest of the table stands; only a full table has no free slot |
| `CountersManager.Manager.FindFreeCounterId` | src/caeron/concurrent/counters_manager.h:194-210 | the lowest free id, or none exactly when full |
| `CountersManager.Manager.Free` | src/caeron/concurrent/counters_manager.h:104-111 | the counter leaves the table, its value word is zero |
| `CountersManager.Manager.SetCounterValue` | src/caeron/concurrent/counters_manager.h:123-127 | changes the value of that counter alone |
| `CountersManager.Manager.GetCounterValue` | src/caeron/concurrent/counters_manager.h:116-120 | the value in the table, or out of range; for a free id the word its slot holds |
| `CountersManager.Manager.GetTypeId` | src/caeron/concurrent/counters_manager.h:131-136 | the type id in the table, 0 for a free id |
| `CountersManager.Manager.GetKey` | src/caeron/concurrent/counters_manager.h:140-150 | copies at most the room given of the key in the slot and returns its whole length; the key is the table's, or for a free id what its last holder left |
| `CountersManager.Manager.GetLabel` | src/caeron/concurrent/counters_manager.h:154-167 | the same for the label, which lies behind the key |
| `CountersManager.Manager.ForEach` | src/caeron/concurrent/counters_manager.h:172-183 | the visits are `Listed` |
| `CounterSlots.AllocateRepresents` | src/caeron/concurrent/counters_manager.h:81-98 | writing one slot turns the table into the table with that entry, every other counter untouched |
| `CounterSlots.ListedExactly` | src/caeron/concurrent/counters_manager.h:174-182 | visits go up in id and are exactly the counters with positive type ids |
| `CounterSlots.VisitsAllIffPositive` | src/caeron/concurrent/counters_manager.h:68 | every allocated counter is visited if and only if no type id is negative |
| `CounterSlots.TypeMinusTwoUnseen` | src/caeron/concurrent/counters_manager.h:68 | the input that shows it: in an empty table a counter of type -2 gets slot 0 and `forEach` visits nothing |
| `CounterClaims.ClaimsAreUnique` | src/caeron/concurrent/counters_manager.h:194-210 | allocators interleaved at loads and compare-and-sets: no slot is claimed twice or while it is held |
| `CounterClaims.OwnersChangeByFreeOnly` | src/caeron/concurrent/counters_manager.h:104-111 | the owner of a counter changes only through its own free |
| `CounterClaims.SearchEnds` | src/caeron/concurrent/counters_manager.h:194-210 | an allocator alone, from anywhere in its search, claims the lowest free slot at or after its place, past every taken one, and gives up exactly when there is none |
| `CounterClaims.AllocateAlone` | src/caeron/concurrent/counters_manager.h:65-101 | a whole allocation alone gives the lowest free slot the type id and the caller the counter; without effect only when every slot is taken |
| `Commands.RoundTrip` | src/caeron/cnc/client_command_adapter.h:88-512 | for every command and all its values: dispatching what was laid out is the one call to the matching handler with exactly the same values |
| `Commands.MessageComesToItsHandler` | src/caeron/cnc/client_command_adapter.h:88-512 | the same whatever the reserved field, the key padding and the unused flags hold and whatever follows; a removal without flags, as older clients send it, revokes nothing |
| `Commands.TrailingBytesIgnored` | src/caeron/cnc/client_command_adapter.h:88-512 | any bytes behind what is written for a command change nothing |
| `CommandErrors.ErrorIffNoMessage` | src/caeron/cnc/client_command_adapter.h:88-512 | for every type id and every byte string: an error if and only if the bytes are no command's message under that type |
| `CommandErrors.ErrorExactly` | src/caeron/cnc/client_command_adapter.h:97-510 | which error: unknown type, too short for the type and a bad termination token without a correlation id, any other bad length with the message's own |
| `CommandErrors.KnownIffCommand` | src/caeron/cnc/client_command_adapter.h:97-510 | the types known are exactly those of the commands, and no message is shorter than the least length of its type |
| `Commands.CounterTrip` | src/caeron/command/counter_message_flyweight.h:59-131 | two variable fields back to back, without alignment |
| `Commands.StaticCounterTrip` | src/caeron/command/static_counter_message_flyweight.h:67-130 | a key padded to four bytes and a label behind it |
| `Commands.RemovePublicationTrip` | src/caeron/command/remove_publication_flyweight.h:49-57 | only the lowest flags bit decides, whatever the other bits hold |
| `Commands.WithRevoke` | src/caeron/command/remove_publication_flyweight.h:49-57 | sets or clears the lowest bit and keeps the others |
| `CommandChannel.LengthOf` | src/caeron/command/static_counter_message_flyweight.h:179-187 | the computed lengths are the lengths laid out |
| `CommandChannel.DriverProxy.SetPaddedVar` | src/caeron/command/static_counter_message_flyweight.h:67-87 | length, key bytes and zeroed padding, nothing behind them touched |
| `CommandChannel.DriverProxy.WriteScratch` | src/caeron/cnc/driver_proxy.h:466-495 | the setters of each message fill the scratch buffer with its layout, over whatever was there before |
| `CommandChannel.DriverProxy.Submit` | src/caeron/cnc/driver_proxy.h:62-557 | ids from 1 upward where the command has one; too long exactly beyond 2048 bytes, refused exactly when the ring refuses; a command sent adds exactly its handler call to what the driver will see |
| `CommandChannel.DriverProxy.AddCounter` | src/caeron/cnc/driver_proxy.h:314-347 | negative lengths or offsets are refused exactly, before an id is taken; otherwise the bytes named reach the handler, none for a null address |
| `CommandChannel.DriverProxy.AddStaticCounter` | src/caeron/cnc/driver_proxy.h:466-501 | the same for a static counter, whose key is padded on the way |
| `CommandChannel.DriverProxy.TerminateDriver` | src/caeron/cnc/driver_proxy.h:414-435 | the same for the token, without an id |
| `CommandChannel.ClientCommandAdapter.Receive` | src/caeron/cnc/client_command_adapter.h:74-79 | drains the ring: the handler calls of everything waiting, once each, in order |

## Left out

- Weak memory: acquire and release accesses are sequentially consistent steps; alignment and aliasing of raw buffers are not modelled.
- Overflow: positions are unbounded integers where the source has i64 positions and i32 indices; term ids, lengths and the indices of the array queue are taken to stay in range.
- Header words of the ring and broadcast buffers: the head and tail positions are fields beside the data region instead of words in front of it.
- Exceptions thrown by handlers inside `read` and `receive`, and what happens after a corrupt record is met.
- Sequential ring `write` and `transmit`: the compare-and-set is a plain update there; its loop is modelled in the step systems.
- Ring interleavings with mixed record sizes: the exact condition is on one claim and the runs that follow it; which sequences of sizes keep every claim on zeroed words is stated for one aligned size only.
- Broadcast with several receivers, which loses messages by design.
- Broadcast step system: a message body is given; the null source pointer is covered by the one-call class only.
- `T` of the array queue has a destructor that ends an object's life; for trivially destructible types the source leaves the object in the slot.
- TermReader.Read: a corrupt length word that leads beyond an i32 (an exception of `align`, or an overflow) is not modelled.
- TermScanner.ScanForAvailability: the same.
- Gap fills that end inside a source frame (a limit that is no frame boundary): the late-packet theorem is for fills up to a frame boundary.
- A publisher that stores into its claim after the unblocker has won it; the default header is copied in one step, where the source calls `memcpy`.
- LogBufferDescriptor.RotateLog: one undisturbed call; the interleaved compare-and-set loop is in `Rotation`.
- Counter values when `free` races with `allocate`: `free` stores FREE before it zeroes the value, so only id uniqueness is claimed under interleaving. Freeing a counter by a thread that does not hold it is not modelled there.
- CountersManager.Manager.Allocate: the sum of key and label length is taken to stay in the i32 range.
- CommandChannel.DriverProxy.Submit: stands for the command methods that take a string or plain values; a string argument is the bytes before its NUL, a null one is empty.
- Error callbacks carry the code and the correlation id, not the message text.
- Driver-to-client events, `BufferClaim`, cached clocks, position and counter wrappers, the CnC file layout: plain field access.
- Sockets, polling, memory mapping, threads, URI and address parsing, control modes, port management and the media driver stub.
