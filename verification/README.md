# A verified model of a C base library

The repository is a collection of C libraries and programs: containers that are
linked into the user's structures, a protocol buffer, HTTP parsing and a small web
server, thread queues and barriers, coroutines, a scripting language, IP tools and a
parallel file encryption.  This project models the parts with the most state and
proves what they are for.  `dafny verify dfyconfig.toml` checks all of it.

* `bf.dfy`, `chunk_wire.dfy`, `chunk_roundtrip.dfy`, `chunk_trailer.dfy`,
  `chunk_lines.dfy`, `http_parser.dfy`, `webby_response.dfy`: the chunk encoder of the web server and the
  resumable decoder of the HTTP library over the protocol buffer.  They are independent
  code and undo each other (section 3.6.1 of RFC 2616) for every cut of the stream into
  arrivals.
  `Wire` and `Process` are the reference forms; the encoder and the parser, as classes
  over the buffer bytes, compute them.
* `http_writer.dfy`, `http_headers.dfy`: the restartable writer of response headers
  against the text it has to write, and the header parser, which reads it back.
* `tqueue.dfy`, `tqueue_runs.dfy`, `tqueue_limits.dfy`, `tqueue_machine.dfy`: the
  bounded queue.  What a region does under the mutex is a function on the shared
  fields, and a method on the linked list that computes it; a run is any sequence of
  regions, wakeups and spurious wakeups, as values and on the objects.
* `cbarrier.dfy`, `cbarrier_cancel.dfy`: the cyclic barrier with its semaphores, as steps
  of n parties, as values and on the objects; and with a reset by another thread at any
  time, which cancels those that wait.
* `bits.dfy`, `bhash.dfy`: the bucket hash against a map, and against a multimap with
  the order of equal keys, growth included.
* `heap.dfy`, `resequencer.dfy`: the heap with its moving hole, and the loop that puts
  encrypted blocks back into order with it.
* `dlistunr.dfy`: the unrolled list against one flat sequence.
* `cthread.dfy`, `cthread_runs.dfy`, `cthread_driver.dfy`: coroutines with their
  activation chain and their pool of stacks; what the history of a run says of every
  call and every yield; and any list of operations on the objects, which makes such a
  history.
* `pooh_eval.dfy`, `pooh_laws.dfy`, `pooh_programs.dfy`: the statement interpreter with
  its loop_exit flag against a structured meaning with outcomes; what that meaning is of
  loops by their rounds, of lists and of arms; and programs with known answers.
* `links.dfy`, `dlinks.dfy`: the linked rings and lists, single and double, with their
  consistency checks on arbitrary pointer graphs; the single ones use Floyd's cycle
  search.
* `tree_shape.dfy`, `tree.dfy`: linked trees, their inserts, of leaves and of whole
  trees, and the preorder walk without a stack.
* `fragments.dfy`, `checksum.dfy`: IP reassembly (section 3.2 of RFC 791) and the
  header checksum (section 1 of RFC 1071).
* `seqs.dfy`: shared facts on sequences.

A parameter that is `ghost` carries what a proof needs to know about a structure: the
nodes of a ring in order, the shape of a tree, the set of nodes that a pointer can
reach.

## Where the code does not do what is expected of it

The code is modelled as it is.  Each of these has its exact condition, or the state in
which it happens, among the members below.

* An empty chunk ends a chunked body early, and a response without any chunk starts
  with a stray line end that the decoder of the same repository rejects
  (`RoundTripExactly`, `NoChunkFails`).
* A call of the chunk parser takes one line of the trailer, so a body whose trailer has
  fields is not reported as complete when it arrives all at once; it is if and only if
  the arrivals come slowly enough for the lines (`TrailerCompletes`, `AllAtOnce`).
* The bounded queue can hold more than its limit, by up to the number of producers less
  one (`RealCapacity`, `CapacityIsReached`), and a non-blocking pop can leave a producer
  blocked for ever (`LosesWakeup`, `LostWakeupRun`, `StaysBlocked`).
* Freeing a cyclic barrier waits for one post only.  After a reset that comes while a
  party has not entered, in_await can come to zero before the last entry; then free can
  destroy the barrier while a party is inside (`FreeIsSafe`, `FreedTooEarly`).  A reset
  does not return the barrier to its initial state, as its comment says, but leaves it
  broken: nobody waits at it any more (`ResetRegion`).
* A coroutine that exits delivers the message of its last yield again, unless that yield
  carried none and no return value was set since (`ExitDelivers`, `StaleMessage`).
* A return leaves the function if and only if it has a value (`BareReturnDoesNothing`,
  `ReturnLeaves`, `BareReturnGoesOn`).
* The consistency check of the singly linked list accepts an empty list with any
  counter (`SList.Check`, `AcceptsMiscounted`).
* The consistency check of the doubly linked ring does not look at the pointer from the
  first node back to the head, and does not end when the nodes behind the head form a
  ring of their own (`AcceptedRing`, `AcceptsUnlinked`, `DivergesExactly`, `NeverEnds`).
* The preorder loop, when it is started below the root, visits the whole tree
  (`ForeachPreorder`, `StaysBelow`, `LeavesSubtree`).
* A fragment that arrives twice while others are missing keeps its datagram from ever
  being complete (`Reassemble`).
* The checksum is right if and only if the sum of the 16-bit words is below 2^31: for
  every IP packet, but not for 65540 bytes of 0xFF (`IpCksum`, `PacketsFit`,
  `WrongAbove`).
* The comment on the root of the doubly linked list names its two pointers the other way
  round than the code uses them, and the one on `BF_compact` gives 1 for an empty buffer
  only, while the code also returns it when nothing has to move (`DList.List.Check`,
  `Bf.BF.Compact`).

## Model

| member | source | states |
|---|---|---|
| Bf.FindLineMeaning | nutils/bf.c:37-66 | the search finds a line exactly when the content has a CR LF pair, and then the first one; it reads behind a content without one exactly when there is a CR other than the first and the last byte, or both of these are CR |
| Bf.BF.constructor | nutils/bf.h:37-46 | an empty buffer in put mode over the whole block, in the stated order of the four pointers |
| Bf.BF.PutMode | nutils/bf.h:66-70 | the content is dropped, the whole effective range is free |
| Bf.BF.SetStart | nutils/bf.c:92-109 | which positions are refused, and how the other three pointers are pulled along so that the pointer order holds |
| Bf.BF.Putn | nutils/bf.h:181-189 | the content grows by exactly the data, or nothing changes when it does not fit |
| Bf.BF.Compact | nutils/bf.c:5-21 | the content is unchanged and now begins at the start position |
| Bf.BF.SearchLine | nutils/bf.c:48-66 | the loop over memchr computes the search function, including the searches behind a lone CR |
| Bf.BF.GetLineExt | nutils/bf.c:37-66 | the first line is cut off the front of the content, its CR becomes a zero byte, nothing else changes; without a line the content stays |
| Bf.BF.SetEnd | nutils/bf.c:111-128 | which positions are refused, and which content is cut off at the end |
| Bf.BF.SetGet | nutils/bf.c:130-141 | the get position relative to the start, with the pointer order kept |
| Bf.BF.SetPut | nutils/bf.c:143-154 | the put position relative to the start, with the pointer order kept |
| Bf.BF.GetMode | nutils/bf.h:56-60 | the effective range is the content |
| Bf.HostNet | nutils/bf.h:154-201 | a value that is put in network order is got back if and only if it fits the type |
| Bf.NetHost | nutils/bf.h:154-201 | what is got is what was put, byte for byte |
| Bf.NetDigits | nutils/bf.h:154-166 | the most significant byte comes first: byte i of w is the value divided by 256 to the power w - 1 - i, modulo 256 |
| Bf.BF.PutUint | nutils/bf.h:154-166 | the content grows by the bytes of the value in network order, or nothing changes |
| Bf.BF.GetUint | nutils/bf.h:192-201 | the bytes of the value are taken off the front of the content |
| ChunkWire.ChunkSizeOfHex | hutils/http.c:485-489 | the header parser reads back every size that %lx printed, up to the largest long, and saturates above |
| ChunkWire.HexLength | webby/webby.c:218-224 | how many digits a size takes: exactly the powers of 16 |
| ChunkWire.WireOfChunks | webby/webby.c:202-250 | the stream that the encoder makes is, chunk by chunk, size line, data and line end, and then the last chunk and an empty trailer, as section 3.6.1 of RFC 2616 has it |
| ChunkWire.LineFirst | hutils/http.c:480-484 | in any prefix of a wire a line is found as soon as it is complete, and before that the search stays inside of what arrived |
| ChunkWire.DataPart | hutils/http.c:502-508 | part of the data of a chunk is delivered and counted off, the parser stands at the rest |
| ChunkWire.EofStep | hutils/http.c:510-518 | one call that starts behind the data of a chunk ends at the right point of the wire |
| ChunkWire.DataStep | hutils/http.c:500-508 | the same from inside the data |
| ChunkWire.HeaderStep | hutils/http.c:478-497 | the same from a chunk header |
| ChunkWire.ProcessStep | hutils/http.c:471-536 | wherever a call starts and wherever the arrived bytes end, it delivers exactly the bytes that belong to the wire up to the point where it stops, and stops at the point that needs more bytes, or is complete |
| ChunkWire.AfterHeader | hutils/http.c:489-497 | the header line of a chunk list leads to the data of its first chunk, or to the trailer when the size is zero |
| ChunkRoundTrip.RoundTrip | hutils/http.c:414-536 | for every list of chunks, every cut of the encoded stream into arrivals and every prefix of it: reception is finished exactly when the completing line end has arrived, never before, with the chunks in front of the first empty one delivered; arrivals that leave 17 bytes of room never overflow the buffer |
| ChunkRoundTrip.RoundTripExactly | hutils/http.c:414-536 | decoding undoes encoding, with no byte left over, if and only if no chunk is empty |
| ChunkRoundTrip.NoEmptyChunk | webby/webby.c:981-1022 | an empty chunk is what ends a body early, and nothing else is |
| ChunkRoundTrip.FitNeverOverflows | hutils/http.c:481-484 | from any point of the wire, arrivals that leave 17 bytes of room never overflow the buffer |
| ChunkRoundTrip.NoChunkFails | webby/webby.c:1024-1063 | a response that was finished without a chunk is never received as complete, however it is cut: it begins with the line end of a chunk that is not there |
| ChunkTrailer.TrailerCall | hutils/http.c:520-530 | one call in the trailer takes at most one line, and only the empty one completes the body |
| ChunkTrailer.TrailerPhase | hutils/http.c:520-530 | the reception of a trailer is finished if and only if its lines keep up with the arrivals |
| ChunkTrailer.ThroughBody | hutils/http.c:471-518 | one call on all that is left of the chunks delivers it and goes on in the trailer |
| ChunkTrailer.FieldsReceived | hutils/http.c:471-536 | the same from any point of a stream whose trailer has fields |
| ChunkTrailer.TrailerCompletes | hutils/http.c:471-536 | for every list of chunks, every trailer and every cut into arrivals: the reception is finished, with the whole body and no byte left, if and only if after any number of arrivals no more trailer lines are incomplete than arrivals are to come; otherwise it goes on waiting with the whole body; on a buffer larger than the stream there is no third way |
| ChunkTrailer.AllAtOnce | hutils/http.c:520-530 | a stream that arrives all at once completes if and only if its trailer has no fields |
| ChunkLines.DigitMeaning | hutils/charclass.h:17-20 | the characters taken for digits are those of 0123456789abcdef and 0123456789ABCDEF, and each is worth its place there |
| ChunkLines.HexPrints | webby/webby.c:218-224 | what %lx prints: the digits in lower case, without leading zeros, of just that value |
| ChunkLines.ChunkSizeOfLine | hutils/http.c:485-489 | for every line of spaces and tabs, a run of digits in either case and a rest that does not go on with one: the size is the number of the run in base 16, cut at the largest long |
| ChunkLines.HeaderLineMeaning | hutils/http.c:373-386 | a header line is accepted exactly when it has a colon with no control character, space or other colon in front of it |
| ChunkLines.PieceGoes | hutils/http.c:471-518 | one chunk with any header line that has its size, chunk extensions included, and anything in front of the line end behind its data, delivers its data |
| ChunkLines.AnyStream | hutils/http.c:471-518 | so does every list of such chunks up to a last one of size zero, and the parser goes on with the trailer |
| ChunkLines.Resumes | hutils/http.c:471-536 | for all bytes, well-formed or not: a call that needs more data, not in the trailer, and a call with more bytes behind those it left, do together what one call does |
| ChunkLines.CutsDoNotMatter | hutils/http.c:471-536 | for all bytes and every cut into arrivals: a reception that waits in front of the trailer has delivered and left what one call on all the bytes does |
| HttpParser.ChunkParser.GetLine | hutils/http.c:220-271 | the first line is taken off the content; without one the content stays, and the call needs more data, or fails when the buffer is full |
| HttpParser.ChunkParser.ParseHeaderLine | hutils/http.c:359-405 | the first line is consumed: an empty one ends the header, one with a colon behind its name is accepted, any other is an error |
| HttpParser.ChunkParser.ReadChunkSize | hutils/http.c:485-489 | scanning spaces and digits in place yields the size of the line |
| HttpParser.ChunkParser.ContentLengthProcess | hutils/http.c:414-447 | delivers the smaller of what is there and what is left, and is complete when nothing is left |
| HttpParser.ChunkParser.HeaderTurn | hutils/http.c:478-497 | the header state computes its case of the decoding function on the buffer content |
| HttpParser.ChunkParser.EofTurn | hutils/http.c:510-518 | the state behind the data likewise |
| HttpParser.ChunkParser.DataTurn | hutils/http.c:500-508 | the data state likewise |
| HttpParser.ChunkParser.TrailerTurn | hutils/http.c:520-530 | the trailer state likewise; one header line per call |
| HttpParser.ChunkParser.ChunkedDataProcess | hutils/http.c:471-536 | the machine with its jumps computes the decoding function: same bytes delivered, same bytes left, same state, same status |
| HttpParser.Arrive | hutils/http.c:751-769 | bytes put into the buffer, one call, and the compaction that the enclosing request parser makes when more data is needed: the step of the reception function, or the bytes do not fit |
| HttpParser.ReceiveAll | hutils/http.c:746-769 | feeding all arrivals to the machine is the reception function of the round trip |
| WebbyResponse.RoomForHeader | webby/webby.c:219-227 | the reserved 15 bytes hold the header of a first chunk exactly up to 16^13 - 1 bytes and of a later one exactly up to 16^11 - 1 |
| WebbyResponse.Response.GetChunkBuffer | webby/webby.c:949-979 | an empty buffer with the reserved room in front and the asked size behind |
| WebbyResponse.Response.SinkChunk | webby/webby.c:217-234 | the header goes right in front of the data and both go out in one piece, or nothing changes when the room is too small |
| WebbyResponse.Response.WriteChunk | webby/webby.c:981-1022 | state, chunk number and output after a call, for each kind of response and for the refused ones |
| WebbyResponse.Response.Finish | webby/webby.c:1024-1063 | the last chunk in the form that the chunk number after its increment selects |
| WebbyResponse.SendOne | webby/webby.c:981-1022 | after each chunk the output, closed by a line end, is the wire form of the chunks so far |
| WebbyResponse.SendAll | webby/webby.c:949-1063 | the output of a whole response is the wire form of its chunks, the leading line ends included |
| WebbyResponse.Transfer | webby/webby.c:202-250 | encoder, any cut into pieces and decoder together: the receiver runs out of room, but never when the pieces leave 17 bytes of its buffer, or is done, and has all data with no byte unread exactly when no chunk is empty |
| HttpWriter.DueThenNext | hutils/http.c:1004-1094 | from any state of the writer the remaining items are the due one followed by those of the next state: none is lost or repeated |
| HttpWriter.Writer.PutItem | hutils/http.c:1004-1094 | an item goes into the buffer whole or not at all |
| HttpWriter.Writer.Step | hutils/http.c:1004-1094 | one case of the switch writes the due item and moves on, or leaves all as it was |
| HttpWriter.Writer.StepHeader | hutils/http.c:1046-1084 | the same for name, separator, value and line end of a stored header |
| HttpWriter.Writer.Write | hutils/http.c:1004-1094 | a call writes the longest run of items that fits, and reports completion, need of room, or an item that no empty buffer of this size can hold |
| HttpWriter.SendHeader | hutils/http.c:1004-1094 | with a buffer emptied between calls the header arrives if and only if each part fits: the status line, the literal line of each flag that is set and of no other, the content length line if that flag is set, the stored headers in order, and the empty line; in at most as many calls as parts |
| HttpWriter.TextOfItems | hutils/http.c:944-948 | the parts together are that text |
| HttpHeaders.ReadHeaders | hutils/http.c:872-880 | the loop of the header state takes one line after the other up to the empty one, and stops at a line that is refused or not complete |
| HttpHeaders.ReadsBlock | hutils/http.c:872-880 | any header lines and an empty one are read back, and nothing behind them is touched |
| HttpHeaders.ReadsBack | hutils/http.c:872-880 | what the writer puts out for a response is read as its status line and then as exactly the lines of its flags and stored headers |
| HttpHeaders.SendAndRead | hutils/http.c:1004-1094 | writer, emptied buffer and parser together: one line for each flag that is set and each stored header, and the bytes behind the header stay |
| TQueue.Queue.PopNonBlocking | tutils/tqueue.c:150-173 | takes the oldest entry or reports an empty queue, and signals nobody |
| TQueueRuns.WakeCounts | tutils/tqueue.c:98-103 | a signal moves one blocked thread to the woken ones if there is any |
| TQueueRuns.ConsumersServedStep | tutils/tqueue.c:175-212 | every step keeps: while a consumer is blocked the entries are no more than the woken consumers, and the waiting counter is exact |
| TQueueRuns.ProducersServedStep | tutils/tqueue.c:78-114 | every step keeps: while a producer is blocked, entries, woken producers and entries taken without blocking reach the limit |
| TQueueRuns.InOrderStep | tutils/tqueue.c:36-76 | every step keeps: popped data followed by queued data is pushed data, exit messages stand at the pop end |
| TQueueRuns.BoundedStep | tutils/tqueue.c:88-103 | every step but a spurious wakeup of a producer keeps the real capacity bound |
| TQueueRuns.NoLostWakeup | tutils/tqueue.c:78-212 | in every interleaving of any number of threads no consumer's wakeup is lost, and a producer's only by non-blocking pops, one each |
| TQueueRuns.FifoHistory | tutils/tqueue.c:36-212 | in every interleaving the data come out in the order of the pushes |
| TQueueRuns.RealCapacity | tutils/tqueue.c:88-103 | without spurious wakeups the queue never holds more than the limit, the number of producers less one, and one for each exit message |
| TQueueRuns.PushArrives | tutils/tqueue.c:78-148 | below the limit, or without one, a push puts its datum last in the queue; else, and only then, the blocking push blocks with it, and the other one is refused and changes nothing |
| TQueueRuns.ExitsKeptStep | tutils/tqueue.c:47-76 | every step keeps: an exit message is in the queue, or a pop took it |
| TQueueRuns.ExitsConserved | tutils/tqueue.c:47-76 | in every interleaving the exit messages in the queue and those that pops took are as many as were pushed |
| TQueueRuns.ExitsGoFirst | tutils/tqueue.c:56-65 | in every interleaving, as long as an exit message is queued a pop takes one, and no datum |
| TQueueRuns.ExitWakes | tutils/tqueue.c:56-65 | an exit message that is pushed while a consumer is blocked wakes one, and when that one goes on its pop returns the message and leaves the queue as it was |
| TQueueLimits.CapacityIsReached | tutils/tqueue.c:88-103 | that bound is reached for every limit and every number of producers, so the limit itself is not kept |
| TQueueLimits.LosesWakeup | tutils/tqueue.c:150-173 | exactly which step loses a producer's wakeup: a non-blocking pop when entries and woken producers just reach the limit and a producer is blocked |
| TQueueLimits.StaysBlocked | tutils/tqueue.c:88-103 | without consumers and spurious wakeups a blocked producer stays blocked for ever |
| TQueueLimits.LostWakeupRun | tutils/tqueue.c:150-173 | a run after which the queue is empty and a producer is blocked, and stays so in every continuation without a spurious wakeup |
| TQueueMachine.Machine.Push | tutils/tqueue.c:47-147 | the regions of the producers and of the exit message on the linked list, the counters and the condition variables: each leads from any state of a run to the next one, whoever is signalled |
| TQueueMachine.Machine.Pop | tutils/tqueue.c:150-212 | so do the regions of the consumers; what a pop got is kept, an exit message is not |
| TQueueMachine.Execute | tutils/tqueue.c:14-212 | every run of regions, wakeups and spurious wakeups on the objects: what the pops returned, followed by the data in the linked list, is what was pushed, in order; the exit messages they returned and those in the list are as many as were pushed; and the length of the list stays within the real capacity |
| CyclicBarrier.Barrier.EnterRegion | tutils/cbarrier.c:53-58 | counts a party in; the one that makes the number of parties full is told not to wait, and so is everyone on a broken barrier, and nobody else |
| CyclicBarrier.Barrier.LeaveRegion | tutils/cbarrier.c:85-86 | counts a party out, and tells it whether with it all that entered have left |
| CyclicBarrier.Barrier.ResetRegion | tutils/cbarrier.c:113-114 | the barrier is broken: from now on every party that enters is told not to wait, while the counts of those inside stay |
| CyclicBarrier.InvEnter | tutils/cbarrier.c:53-66 | steps of entering and of passing the semaphore keep the invariant: posts made and owed match the waiters, the counters are exact |
| CyclicBarrier.InvRelease | tutils/cbarrier.c:67-78 | so do the posts of the last party |
| CyclicBarrier.InvLeave | tutils/cbarrier.c:80-95 | so does leaving |
| CyclicBarrier.InvFree | tutils/cbarrier.c:103-141 | so does freeing |
| CyclicBarrier.InvStep | tutils/cbarrier.c:42-141 | every step of every party keeps the invariant |
| CyclicBarrier.BarrierSafe | tutils/cbarrier.c:42-141 | in every schedule nobody is past the barrier while a party has not entered, in_await comes back to zero at most once, and a destroyed barrier has nobody inside |
| CyclicBarrier.WorkDrops | tutils/cbarrier.c:42-141 | every step uses up some of a bounded amount of work |
| CyclicBarrier.StuckOnlyAtEnd | tutils/cbarrier.c:42-141 | where nothing can go on everybody is out, in_await was zero exactly once, and a free that was called is done |
| CyclicBarrier.BarrierLive | tutils/cbarrier.c:42-141 | every schedule ends after at most n (n + 5) + n + 3 steps, in that state |
| CyclicBarrier.Execute | tutils/cbarrier.c:13-141 | every schedule on the barrier object and its semaphores: nobody is past it while a party has not entered, and when it is destroyed everybody is out |
| CyclicBarrierCancel.StepKeeps | tutils/cbarrier.c:42-141 | with a reset at any time every step keeps: who still waits has a post, made or owed; and each time in_await came to zero has made one post for free |
| CyclicBarrierCancel.StepWorks | tutils/cbarrier.c:42-141 | every step uses up some of a bounded amount of work |
| CyclicBarrierCancel.StuckIsEnd | tutils/cbarrier.c:66-95 | where nothing can go on every party is out, whenever the reset came |
| CyclicBarrierCancel.CancelLive | tutils/cbarrier.c:42-141 | every schedule with a reset by another thread at any time ends after at most n (n + 5) + 2 n + 4 steps, with every party out and a free that was called done |
| CyclicBarrierCancel.FreeWaits | tutils/cbarrier.c:128-141 | free does not return before all parties are out, unless in_await came to zero while one had not entered |
| CyclicBarrierCancel.FreeOvertakes | tutils/cbarrier.c:128-141 | if it did and a party is still inside, free can destroy the barrier before that party is out |
| CyclicBarrierCancel.FreeIsSafe | tutils/cbarrier.h:57-67 | a free that is called when all parties have entered can destroy the barrier while one is inside if and only if one is and in_await came to zero before the last entry; that takes a reset before |
| CyclicBarrierCancel.FreedTooEarly | tutils/cbarrier.c:103-141 | a run of two parties with a reset after which that can happen |
| Bits.MaskIsMod | cutils/bhash.c:9 | masking with a power of two less one is the remainder, so the mask picks a bucket that exists |
| Bits.RoundToPowerOfTwo | cutils/util.h:91-99 | the result is the least power of two that is not below the number |
| BHash.MovedContiguous | cutils/bhash.c:60-95 | re-inserting at the front reverses the order, and still keeps entries of one key side by side |
| BHash.FlatContiguous | cutils/bhash.c:60-95 | the buckets one after the other keep entries of one key side by side |
| BHash.MovedTable | cutils/bhash.c:60-95 | moving all entries of a table gives a table: each in the bucket of its stored hash, none lost, duplicates adjacent or still forbidden |
| BHash.RemoveGood | cutils/bhash.c:186-215 | taking an entry out keeps a bucket good and takes out just that entry |
| BHash.TableThose | cutils/bhash.c:97-117 | all entries of a key are in one bucket, in the order in which they are in the whole table |
| BHash.MovedThose | cutils/bhash.c:60-95 | moving all entries turns the entries of each key around |
| BHash.TableInserted | cutils/bhash.c:169-180 | an entry put behind the first one of its key, or to the front, leaves a table in which it is the second, or the only one, of its key, and no other key has changed its order |
| BHash.PlacedMeans | cutils/bhash.c:173-178 | behind the first one of its key: the entry is the second, or the only one, and the others stay in their order |
| BHash.TableRemoved | cutils/bhash.c:199-211 | taking out the first entry of a key leaves a table in which that key has the rest, and the others are as before |
| BHash.KeyInBucket | cutils/bhash.c:97-117 | a key is in the table exactly when it is in the bucket its hash masks to |
| BHash.Hash.constructor | cutils/bhash.c:13-55 | an empty table with the least power of two of buckets that is not below the size |
| BHash.Hash.FindInBucket | cutils/bhash.c:97-117 | the first entry with the hash and the key, if there is one |
| BHash.Hash.Find | cutils/bhash.c:119-126 | the first entry of its key, and nothing exactly when the multimap has none |
| BHash.Hash.Resize | cutils/bhash.c:60-95 | the same multimap in a table of the least power of two of buckets; the entries of each key come in the opposite order |
| BHash.Hash.Insert | cutils/bhash.c:149-184 | adds the entry with its hash right behind the first one of its key, or refuses a second one of a key in a map; it grows the table exactly when the count reaches the threshold, and growth turns the entries of every key around and changes nothing else |
| BHash.Hash.InsertHere | cutils/bhash.c:162-183 | the insertion proper: behind the first entry of the key, the other keys untouched |
| BHash.Hash.Unlink | cutils/bhash.c:186-215 | takes out the first entry of the key, if there is one, and counts it off; the order of all others stays |
| BHash.Perform | cutils/bhash.c:60-215 | one operation answers as the reference map and leaves a table for the map after it |
| BHash.Run | cutils/bhash.c:13-215 | every run of inserts, unlinks, finds and resizes gives the answers of a map |
| BHash.PerformMulti | cutils/bhash.c:60-215 | one operation on a multimap answers as the reference, which has the values of each key in order, and leaves the table in the order of the reference after it |
| BHash.RunMulti | cutils/bhash.c:13-215 | every run of inserts, unlinks, finds and resizes on a multimap gives the answers of the reference, through all the growth on the way: the first value of a key is found and taken out, a new one goes behind it, each growth turns the values of every key around |
| Heap.UpStep | cutils/heap.c:34-51 | moving the hole up keeps the heap order around it, for any total preorder |
| Heap.DownStep | cutils/heap.c:79-116 | moving the smaller child into the hole keeps the heap order around it |
| Heap.TopIsMin | cutils/heap.c:7-126 | the top of a heap is not greater than any element |
| Heap.Heap.Grow | cutils/heap.c:17-28 | growth keeps the elements and makes room for one more |
| Heap.Heap.Push | cutils/heap.c:7-57 | heap order, and the elements of before with the new one |
| Heap.Heap.SiftUp | cutils/heap.c:34-53 | the loop ends at the place where the element fits |
| Heap.Heap.SmallerChild | cutils/heap.c:88-101 | the child that goes up is not greater than its sibling |
| Heap.Heap.Pop | cutils/heap.c:60-126 | heap order, and the elements of before without the top; an empty heap is refused |
| Heap.Heap.SiftDown | cutils/heap.c:75-121 | the loop ends at the place where the last element fits |
| Heap.Drain | cutils/heap.c:60-126 | popping until the heap is empty yields a sorted permutation of its elements |
| Resequencer.ParkedTop | rsautl/rsautl.c:614-623 | the least parked sequence number tells whether the next block has arrived |
| Resequencer.Handler.TakeNext | rsautl/rsautl.c:611-632 | the top is taken exactly when it is the next block |
| Resequencer.Handler.WriteRun | rsautl/rsautl.c:608-688 | the inner loop writes on until the written blocks are the longest run among those that arrived |
| Resequencer.Handler.Handle | rsautl/rsautl.c:577-689 | after each turn of the outer loop the output is the longest run 1..k among the arrived blocks, and the heap holds exactly the other arrived ones |
| Resequencer.HandleResult | rsautl/rsautl.c:558-696 | for any order of arrival the output is the longest run of blocks 1..k that arrived, in order, and all blocks when all arrived; a null message or a failed request ends it, and nothing else does |
| Resequencer.OutputIs | rsautl/rsautl.c:558-696 | the output of a list of blocks is their outputs one after the other |
| Resequencer.LengthIs | rsautl/rsautl.c:558-696 | the length of a file is the number of bytes that were read for its blocks, one after the other |
| UnrolledList.LinkAfter | cutils/dring.h:67-86 | the new node stands right behind the given one, the rest of the ring is as before |
| UnrolledList.UnlinkNode | cutils/dring.h:101-106 | the ring without that node |
| UnrolledList.NewLinkedNode | cutils/dlistunr.c:39-53 | a fresh node with one open slot in its place in the ring |
| UnrolledList.Spill | cutils/dlistunr.c:97-105 | moving the last element of a node to the front of the next does not change the flat list |
| UnrolledList.InsertInPart | cutils/dlistunr.c:57-115 | an insertion inside a node is one at the matching index of the flat list |
| UnrolledList.RemoveInPart | cutils/dlistunr.c:118-147 | a deletion likewise |
| UnrolledList.List.constructor | cutils/dlistunr.h:72-83 | an empty list |
| UnrolledList.List.InsertEntry | cutils/dlistunr.c:16-37 | opens a slot by moving the elements behind it; a full node and the root are refused |
| UnrolledList.List.InsertNewNode | cutils/dlistunr.c:39-53 | the node is counted and the others stay valid |
| UnrolledList.List.FillSlot | cutils/dlistunr.c:73-77 | the end of an insertion with room in the node |
| UnrolledList.List.CarryLast | cutils/dlistunr.c:91-113 | the end of an insertion into the middle of a full node |
| UnrolledList.List.OpenNext | cutils/dlistunr.c:79-89 | a slot at the front of the next node, or of a new one when that is full or the root |
| UnrolledList.List.InsertAfter | cutils/dlistunr.c:57-115 | from any position or the root: insertion at one index of the flat list, right behind the position, with all counters exact |
| UnrolledList.List.RemoveSlot | cutils/dlistunr.c:132-138 | deletion inside a node |
| UnrolledList.List.RemoveNode | cutils/dlistunr.c:139-143 | deletion of the only element of a node, with the node |
| UnrolledList.List.Unlink | cutils/dlistunr.c:118-147 | deletion at one index of the flat list |
| UnrolledList.List.GetFirst | cutils/dlistunr.h:155-163 | the position of the first element, or the root of an empty list |
| UnrolledList.List.GetLast | cutils/dlistunr.h:171-183 | the position of the last element, or the root of an empty list |
| UnrolledList.List.Next | cutils/dlistunr.h:191-205 | the position of the next index of the flat list, or the root behind the last one |
| UnrolledList.List.Prev | cutils/dlistunr.h:219-236 | the position of the index before, or the root in front of the first one |
| UnrolledList.List.Elements | cutils/dlistunr.h:412-415 | the walk by first and next sees exactly the flat list |
| UnrolledList.List.InsertBefore | cutils/dlistunr.h:309-314 | insertion at the index of the position |
| UnrolledList.List.PushBack | cutils/dlistunr.h:332-337 | appends to the flat list |
| UnrolledList.List.PopFront | cutils/dlistunr.h:387-405 | takes the first element off the flat list, or refuses an empty one |
| UnrolledList.List.NextAndBack | cutils/dlistunr.h:191-236 | prev undoes next inside of the list |
| UnrolledList.List.PushFront | cutils/dlistunr.h:345-349 | prepends to the flat list, also to an empty one |
| UnrolledList.List.PopBack | cutils/dlistunr.h:359-378 | takes the last element off the flat list, or refuses an empty one |
| UnrolledList.List.MoveOver | cutils/dlistunr.c:97-108 | the bytes of an insertion into the middle of a full node, in both nodes |
| CThread.Runtime.StacksReleased | corothread/stacks.c:185-190 | a stack goes back to the front of the pool and is nobody's |
| CThread.Runtime.StacksTaken | corothread/stacks.c:165-183 | the stack at the front of the pool gets one owner |
| CThread.Runtime.Pushed | corothread/cthread.c:387-447 | a thread that is started or resumed becomes the top of the activation chain, and the running threads are still exactly those of the chain |
| CThread.Runtime.Popped | corothread/cthread.c:709-789 | a thread that yields or exits leaves the chain, and its caller is the top |
| CThread.Runtime.Init | corothread/cthread.c:315-385 | a new thread with the first free stack, or none when the pool is empty |
| CThread.Runtime.Start | corothread/cthread.c:449-527 | only a new thread starts; it runs on top of the chain with the message in its slot |
| CThread.Runtime.Resume | corothread/cthread.c:563-656 | only a suspended thread resumes; its yield returns the message of this resume |
| CThread.Runtime.SwitchTo | corothread/cthread.c:590-612 | the switch into a suspended thread, whose yield also tells whether it is to exit |
| CThread.Runtime.Yield | corothread/cthread.c:709-789 | control and message go to the start or resume that activated the thread; a thread that was asked to exit exits instead |
| CThread.Runtime.Exit | corothread/cthread.c:658-706 | the thread is in its final state, its stack is at the front of the pool, its caller gets 1 and what is in the slot |
| CThread.Runtime.Kill | corothread/cthread.c:545-560 | a suspended thread is resumed with the request to exit; the other states answer at once |
| CThread.Runtime.SetReturnValue | corothread/cthread.c:824-846 | sets the slot of the running thread |
| CThread.Runtime.Free | corothread/cthread.c:792-811 | only a thread that exited and does not run is freed |
| CThreadRuns.PendingMeans | corothread/cthread.c:449-612 | a pending start, resume or kill was made when just the calls in front of it were pending |
| CThreadRuns.CallReturns | corothread/cthread.c:449-656 | in every run each start, resume and kill that returns is the innermost pending one; it gives back the message of the yield, or the value of the exit, that removed its thread, and 0 or 1 accordingly, and a kill nothing, however many activations were nested between |
| CThreadRuns.ReturnsOnce | corothread/cthread.c:449-656 | no call returns twice |
| CThreadRuns.Suspended | corothread/cthread.c:709-773 | a suspended thread was neither entered nor left since its last yield |
| CThreadRuns.YieldReturns | corothread/cthread.c:709-789 | in every run each yield that returns gives the message of the next resume of its thread, or nothing and the order to exit when that was a kill |
| CThreadRuns.PendingRuns | corothread/cthread.c:387-656 | in every run the running threads are those of the pending calls, each once |
| CThreadRuns.ExitIsFinal | corothread/cthread.c:658-706 | in every run a thread that exited is never entered again, and does nothing more |
| CThreadRuns.ExitDelivers | corothread/cthread.c:502-527 | in every run an exit delivers nothing if and only if the last yield of the thread, if any, carried no message and no return value was set after it; else the caller gets that message again, or the value |
| CThreadRuns.KillReturns | corothread/cthread.c:545-560 | in every run a kill that switched into its thread returns 0, and the thread has exited |
| CThreadDriver.Driver.Leave | corothread/cthread.c:658-789 | a yield or an exit on the objects does what the history of the run makes to be expected: the innermost call returns |
| CThreadDriver.Driver.Step | corothread/cthread.c:315-846 | so does every operation, and the history goes on telling the fields of all threads, the activation chain and the number of free stacks |
| CThreadDriver.Run | corothread/cthread.c:315-846 | any list of operations on the objects, from a fresh pool of any size on, makes a run in the sense of the theorems above, up to an operation on a freed thread or the exit of one with children; the runtime stays in order all the way |
| CThreadDriver.StaleMessage | corothread/cthread.c:658-706 | a thread that yields a message and then exits without a word: its caller gets the message twice |
| PoohEval.LoopKeepsBreaks | pooh-lan/eval.c:1812-1827 | a loop ends normally or by a return: break and next are its own |
| PoohEval.BareReturnDoesNothing | pooh-lan/eval.c:2097-2132 | a return without a value can be struck out of any list: it does not leave the function |
| PoohEval.ReturnLeaves | pooh-lan/eval.c:2097-2132 | what follows a return with a value can be struck out of any list: it does leave the function |
| PoohEval.BareReturnGoesOn | pooh-lan/eval.c:2097-2132 | a function whose body begins with a return without a value, and that still answers 7 |
| PoohEval.MoreFuel | pooh-lan/eval.c:1528-2146 | a run that ends with some depth of rounds and calls ends the same way with more |
| PoohEval.OneMeaning | pooh-lan/eval.c:1528-2146 | a statement has at most one outcome and final store |
| PoohEval.Evaluator.Do | pooh-lan/eval.c:1528-2146 | the interpreter with the loop_exit flag ends with the store of the structured meaning and the flag of its outcome, for every statement |
| PoohEval.Evaluator.DoList | pooh-lan/eval.c:1548-1561 | a list goes on until a statement sets the flag |
| PoohEval.InterpretReturn | pooh-lan/eval.c:2097-2132 | the interpreter goes on behind a return in any list if and only if it is one without a value |
| PoohEval.Evaluator.DoIf | pooh-lan/eval.c:1700-1765 | the first arm that holds, or the else block, or nothing |
| PoohEval.Evaluator.DoWhile | pooh-lan/eval.c:1768-1858 | precondition and endless loops against rounds with break, next and return |
| PoohEval.Evaluator.DoExpr | pooh-lan/eval.c:1494-1504 | a call yields the return slot of its body, however that ended, and no flag of the callee reaches the caller |
| PoohEval.Evaluator.DoArgs | pooh-lan/eval.c:1449-1463 | arguments from left to right |
| PoohEval.Interpret | pooh-lan/eval.c:1528-2146 | what the interpreter returns is the meaning with every sufficient depth; when it gives up no smaller depth suffices |
| PoohLaws.LoopMeans | pooh-lan/eval.c:1768-1858 | a loop ends so if and only if it has a list of rounds, each of which ends normally or with next after a condition that is not zero, and then its condition is zero, or a round breaks, or a round returns |
| PoohLaws.BreakEnds | pooh-lan/eval.c:1812-1817 | a break ends the loop with what was done in front of it, and nothing behind it is done |
| PoohLaws.NextGoesOn | pooh-lan/eval.c:1818-1820 | a loop with a next in its block is the loop without it and all that follows it |
| PoohLaws.ListSplits | pooh-lan/eval.c:1548-1561 | a list goes on behind a part of it if and only if that part ends normally |
| PoohLaws.FirstArm | pooh-lan/eval.c:1700-1765 | of any number of arms the first one whose condition is not zero is done, and no other |
| PoohLaws.NoArm | pooh-lan/eval.c:1700-1765 | when all conditions are zero the else block is done, or nothing |
| PoohPrograms.SumIs | pooh-lan/eval.c:1768-1858 | for every n: an endless loop with a break behind n and a next at odd numbers answers with the sum of the even ones |
| PoohPrograms.FactorialIs | pooh-lan/eval.c:1494-1504 | for every n: a function that calls itself answers with the factorial, and leaves the frame of its caller alone |
| PoohPrograms.ArgsInOrder | pooh-lan/eval.c:1449-1463 | calls of a counter as arguments are numbered from left to right |
| PoohPrograms.OperandsInOrder | pooh-lan/eval.c:1494-1504 | so are two of them as operands |
| PoohPrograms.RunPrograms | pooh-lan/eval.c:1528-2146 | the interpreter on these programs gives these answers for every n and every store |
| Links.TheyMeet | cutils/sring.h:384-389 | on a chain that does not end, pointers of which one goes twice as fast meet after at most twice the number of nodes and one steps |
| SRing.Check | cutils/sring.h:390-421 | ends on every finite pointer graph, and accepts exactly the heads that following next comes back to |
| SRing.ComesBackIsRing | cutils/sring.h:390-421 | what is accepted is a ring of distinct nodes |
| SRing.RingComesBack | cutils/sring.h:390-421 | every ring of distinct nodes is accepted |
| SRing.InsertAfter | cutils/sring.h:66-70 | the ring with the entry behind the given node |
| SRing.UnlinkAfter | cutils/sring.h:73-84 | the ring without the node behind the given one, be it the head; a single node stays |
| SRing.Reverse | cutils/sring.h:364-381 | the head stays and the others come in the opposite order |
| SList.Header.InsertAfter | cutils/slist.h:88-118 | insertion behind a position, or at the front, with first, last and counter right |
| SList.Header.UnlinkAfter | cutils/slist.h:125-154 | deletion behind a position, or at the front |
| SList.Header.InsertSorted | cutils/slist.h:385-400 | insertion in front of the first greater entry |
| SList.InsertKeepsSorted | cutils/slist.h:376-400 | a sorted list stays sorted for any total preorder, and the entry comes after its equals |
| SList.Header.DeleteIf | cutils/slist.h:410-433 | exactly the entries that the check does not select stay, in order |
| SList.KeptMeans | cutils/slist.h:410-433 | the nodes that stay are exactly those that the check does not select |
| SList.KeptInOrder | cutils/slist.h:410-433 | and they stay in their order: those of two lists one after the other are those of the first and then those of the second |
| SList.Header.Reverse | cutils/slist.h:471-491 | the entries in the opposite order |
| SList.Check | cutils/slist.h:499-552 | ends on every finite pointer graph, and accepts exactly the headers whose chain ends, whose next is its last node and whose counter is its length, and besides these every empty header with a wrong counter |
| SList.HoldsDescribes | cutils/slist.h:499-552 | what the list operations build is what the check looks for |
| SList.AcceptsMiscounted | cutils/slist.h:506-511 | a header that is accepted although it describes no list |
| DRing.Check | cutils/dring.h:487-509 | where the loop ends, it accepts exactly the heads that next comes back to with every node on the way being the prev of its next |
| DRing.DivergesExactly | cutils/dring.h:492-501 | the loop does not end if and only if the nodes behind the head form a ring of their own |
| DRing.NeverEnds | cutils/dring.h:492-501 | two nodes on which it does not end |
| DRing.AcceptedRing | cutils/dring.h:487-509 | what is accepted is a ring in both directions if and only if the first node points back to the head, and on rings the loop ends |
| DRing.AcceptsUnlinked | cutils/dring.h:487-509 | two nodes that are accepted although they are no ring: the first one does not point back to the head |
| DList.List.InsertBefore | cutils/dlist.h:84-114 | insertion in front of an entry, with both directions, both ends and the counter right; no position in a list that is not empty is refused |
| DList.List.InsertAfter | cutils/dlist.h:123-148 | insertion behind an entry |
| DList.List.Unlink | cutils/dlist.h:156-182 | the list without the entry, whose links are cleared |
| DList.List.PushBack | cutils/dlist.h:190-193 | appends |
| DList.List.PushFront | cutils/dlist.h:200-203 | prepends |
| DList.List.PopFront | cutils/dlist.h:210-220 | takes the first entry, or none |
| DList.List.PopBack | cutils/dlist.h:228-238 | takes the last entry, or none |
| DList.List.SeenIsPrefix | cutils/dlist.h:637-648 | any list in the heap begins with the nodes that the check has looked at |
| DList.List.NotSeen | cutils/dlist.h:643-645 | the back pointers tell a node that was looked at from a new one, so the check ends |
| DList.List.Check | cutils/dlist.h:620-658 | ends on every pointer graph, and accepts exactly the roots that describe a list: links in both directions, ends and counter |
| TreeShape.Shape.Cut | cutils/tree.h:396-422 | every node cuts the preorder of the tree into what comes before it and what comes after it |
| TreeShape.Shape.Once | cutils/tree.h:396-422 | the preorder from a node has each node below it once and no other |
| TreeShape.Shape.EveryNodeOnce | cutils/tree.h:396-422 | the preorder from the root has every node exactly once |
| TreeShape.Shape.AboveFirst | cutils/tree.h:396-422 | in the preorder a node comes before all that is below it |
| TreeShape.Shape.LeftFirst | cutils/tree.h:396-422 | and all that is below a child comes before all that is below a later one |
| TreeShape.Shape.WithWf | cutils/tree.h:123-241 | a tree with another one among the children of a node is a tree |
| TreeShape.SubKept | cutils/tree.h:123-241 | the nodes that were brought are walked as in their own tree |
| TreeShape.OrderKept | cutils/tree.h:123-241 | an insert changes nothing in the order of the nodes that were there |
| Tree.InitRoot | cutils/tree.h:37-49 | a node by itself is a linked tree |
| Tree.GraftLinked | cutils/tree.h:123-241 | the links that an insert makes are those of the larger tree |
| Tree.PreorderNext | cutils/tree.h:403-422 | the next node of the recursive preorder, found without a stack, and the root after the last one |
| Tree.ForeachPreorder | cutils/tree.h:554-566 | visits every node but its start, in the order from there around the whole tree |
| Tree.StaysBelow | cutils/tree.h:554-566 | so it visits the descendants of its start and nothing else if and only if that is the root |
| Tree.LeavesSubtree | cutils/tree.h:554-566 | a tree of two nodes on which the loop, started at the child, visits the root |
| Tree.InsertRightSibling | cutils/tree.h:123-154 | the node stands right behind its sibling, alone or with all that is below it; beside the root nothing is inserted |
| Tree.InsertLeftSibling | cutils/tree.h:157-188 | the node stands right in front of its sibling, alone or with all that is below it; beside the root nothing is inserted |
| Tree.InsertChild | cutils/tree.h:196-241 | the node is the first or the last child, alone or with all that is below it |
| Tree.BuildAndWalk | cutils/tree.h:123-566 | any run of inserts into a fresh tree makes a linked tree, and the preorder walk of it comes to each of its nodes exactly once |
| Fragments.PacketInfo.HasAllFragments | iptools/fragments.c:88-102 | the pieces are contiguous from offset 0, in 16 bit arithmetic |
| Fragments.PacketInfo.TotalLength | iptools/fragments.c:106-123 | the length of the combined packet |
| Fragments.PacketInfo.CopyPiece | iptools/fragments.c:137-146 | the first piece with its header, the others without |
| Fragments.PacketInfo.CombineFragments | iptools/fragments.c:104-160 | the first header and all payloads in order, with the total length in bytes 2 and 3, zero in bytes 6 and 7, and no other byte changed; nothing when it is too long; wherever no copy leaves its fragment |
| Fragments.WholeMeaning | iptools/fragments.c:151-152 | bytes 2 and 3 are the total length with the high byte first, bytes 6 and 7 are zero, and all others stay |
| Fragments.HeaderByte | iptools/loop_lib.h:32 | the length of a header is four times the low half of its first byte |
| Fragments.OverlapsMeans | iptools/fragments.c:184-188 | a fragment is refused exactly when some fragment holds its first byte and the byte before that |
| Fragments.ContiguousMeans | iptools/fragments.c:88-102 | fragments are contiguous exactly when each starts, in 16 bits, at the sum of the lengths in front of it |
| Fragments.InsideExactly | iptools/fragments.c:137-146 | every copy of the combination ends inside its fragment if and only if all headers have the same length |
| Fragments.PacketInfo.AddFragment | iptools/fragments.c:163-214 | a piece that starts inside another one is refused; else it is inserted so that offsets stay sorted, and the answer is 1 exactly when the last piece is known and all are contiguous; header lengths may differ as long as nothing is combined |
| Fragments.Datagram.HeldInserted | iptools/fragments.c:180-194 | pieces of one datagram never overlap, and insertion keeps them in the order of their numbers |
| Fragments.Datagram.ContiguousHeld | iptools/fragments.c:88-102 | pieces of one datagram are contiguous exactly when their numbers are |
| Fragments.Datagram.CombinedHeld | iptools/fragments.c:104-160 | all pieces combine to the original payload behind the first header, of which only bytes 2, 3, 6 and 7 are set, to the total length and to zero |
| Fragments.Complete | iptools/fragments.c:196-211 | the pieces are complete exactly when each has arrived once |
| Fragments.Arrive | iptools/fragments.c:163-214 | one arrival in any history: 1 and the original datagram exactly when each piece has now arrived once |
| Fragments.Reassemble | iptools/fragments.c:163-214 | for every order of arrivals, repeated ones included: complete if and only if the first as many arrivals as there are pieces are all the pieces, and then at the last of them, with exactly the original payload behind the first header, in which the total length is set in network order, flags and offset are zero and every other byte is as it was; a permutation is always complete at its end, a piece that comes twice before that keeps the datagram from ever being complete |
| Checksum.FoldMeaning | iptools/loop_lib.c:426-427 | folding keeps the remainder modulo 0xFFFF and is zero for zero only |
| Checksum.IpCksum | iptools/loop_lib.c:409-430 | for every length of an int, also below that of a header: the result is the complement of the folded word sum, odd lengths included, if and only if that sum is below 2^31; a negative length takes the first byte for the sum |
| Checksum.PacketsFit | iptools/loop_lib.c:409-430 | which is so for every buffer of up to 65536 bytes |
| Checksum.WrongAbove | iptools/loop_lib.c:409-430 | 65540 bytes of 0xFF, for which the result is wrong |
| Checksum.StoredSumsToOnes | iptools/loop_lib.c:409-430 | storing the result makes the folded sum of all words 0xFFFF, in machine and in network byte order, and a value with that effect is equal to the result modulo 0xFFFF |
| Checksum.ByteOrder | iptools/loop_lib.c:416-424 | word sums in the two byte orders are equal modulo 0xFFFF up to the factor 0x100 |
| Checksum.ByteCounts | iptools/loop_lib.c:416-424 | what one byte counts in the sum: 1 times at an even place and 0x100 times at an odd one, in network order the other way round, also as the last one of an odd number |
| Checksum.ZerosCount | iptools/loop_lib.c:416-424 | the sum is zero for zero bytes only |

## Left out

- Bf.FindLineMeaning: what a search reads behind the content is not modelled; the result says that it looks there.
- Bf.BF.PutUint: the signed types and the variants without a check are not modelled.
- ChunkWire.ProcessStep: the wire of this encoder only; other forms of a stream are those of `ChunkLines.AnyStream` and `ChunkTrailer.TrailerCompletes`.
- HttpParser.ChunkParser.ParseHeaderLine: what is done with a header (lower case, storing, registered actions) and a failing data callback are not modelled.
- WebbyResponse.Response.GetChunkBuffer: the asked size must not grow: after the realloc the positions of the buffer still belong to the old block.
- WebbyResponse.Response.WriteChunk: the state in which headers are sent by the first write, and the filter chain between response and socket, are not modelled.
- HttpWriter.Writer.Write: the texts that sprintf makes of status code and content length are given as bytes; the caller in the web server does not empty the buffer between calls, so `SendHeader` is about a caller that does.
- The receive path of the web server, which reads new bytes over the get position, is not part of the model.
- TQueueMachine.Execute: the counters are unbounded; size_t wrap-around is not modelled.
- Mutexes are atomic regions, condition variables sets of blocked threads, semaphores counters; failing pthread calls and failing malloc are not modelled anywhere.
- CyclicBarrier.BarrierLive: a second reset and another call of await by the same party are not modelled; after a reset the code lets everyone through.
- BHash.Hash.Resize: hash entries are values and a bucket ring is the list of its entries; the ring operations themselves are proved in `links.dfy`.  `HASH_find_next`, which looks for a null pointer at the end of a ring, and the deletion macros for users are left out.
- Bits.RoundToPowerOfTwo: the shift that overflows for numbers above the largest power of two of a size_t is not modelled.
- Heap.Heap.Push: a heap starts with room for at least one element; `HEAP_check` and the sorted visit are left out.
- Resequencer.HandleResult: the decrypt path with its header block, the SHA sum, the progress display and write errors are left out; RSA is the relation between the input length and the output of a request.
- UnrolledList.List.InsertAfter: a position must point at an element of the list; free, deletion by predicate and `DLISTUNR_check`, whose loop is that of the ring check, are left out.
- CThread.Runtime.Exit: a thread with children, whose list the code walks by the wrong member, is not modelled; `CThreadDriver.Run` stops there.  Nor are jump buffers, guard pages, stacks on demand and a failing message format.
- CThread.Runtime.Yield: likewise for a thread with children that was asked to exit.
- CThreadDriver.Driver.Leave: likewise; so for `CThreadDriver.Driver.Step`.
- CThreadDriver.Run: the run stops at the first exit of a thread with children.
- PoohEval.Evaluator.Do: for loops, postcondition loops, coroutines and multiple assignment are left out.  Reading and combining values are total functions, and the parser, the type checker and the operand stack are not modelled.
- PoohEval.Interpret: runs that do not end have no meaning; a depth bounds loop rounds and nested calls of a run.
- SList.Check: the node set must hold all nodes that can be reached, here and in the other checks.  `SLIST_append` and search are left out.
- Tree.InsertChild: `TREE_unlink_node`, merging of children and postorder walks are left out.
- Fragments.PacketInfo.CombineFragments: a combination in which a copy reads behind the end of a fragment has no defined result; `InsideExactly` says when that is.  A header length field beyond the packet is excluded.
- Fragments.PacketInfo.AddFragment: the same combination is excluded, and nothing else.
- The hash of all datagrams in reassembly, whose key names the source address twice, and the release of finished ones are left out.
- Sockets, libevent, pcap, OpenSSL, files, command lines, the memory debugger and the build system are left out.
