# A verified model of rsocket-go

rsocket-go implements the RSocket protocol: requests and streams between two peers over one
connection. This project models its concurrent and arithmetic core in Dafny and proves what that core
promises.

- **The lock-free queue** (`LKQueue*.dfy`) is a step machine: one atomic load or compare-and-swap a
  step, any number of threads, each with its own program counter and locals. It is proved to be
  linearizable to an atomic FIFO queue, to keep its chain of nodes intact, and to be lock-free with an
  explicit bound.
- **Fragmentation and reassembly** (`Splitter*.dfy`, `PayloadSender.dfy`, `Joiner.dfy`,
  `Reassembly.dfy`, `Delivery.dfy`). The splitting loop refines a greedy reference, which is optimal;
  the fragments of any number of interleaved streams, encoded, written to a byte stream, cut into
  chunks and read back, are joined to the payloads that were sent.
- **The receive pipeline** (`Unbounded.dfy`, `TransportStart.dfy`, `Decoder.dfy`): the buffer made of a
  one-element channel and a backlog, the reader with its two workers under every schedule, and the
  length-prefixed scanner.
- **Sessions** (`SessionHeap.dfy`, `SessionManager.dfy`, `SessionCleaner.dfy`): a binary heap with
  index back-pointers beside a map of tokens, with the sifting of Go's container/heap written out,
  and the server's cleaning loop.
- **Stream ids and the life of a sent frame** (`StreamIDs.dfy`, `StreamIDRaces.dfy`, `SendLifecycle.dfy`,
  `SendOrder.dfy`, `SendRounds.dfy`, `CloseProgress.dfy`): wrap-around id generation and the search for a
  free id, alone and with others searching at the same time; who calls `Done` on a frame, and in which
  order frames reach the transport, when senders, the write loop, transport loss, failed sends and
  `Close` interleave; and whether `Close` returns.
- **The frame codec** (`Bytes.dfy`, `FrameHeader.dfy`, `BufferedFrame.dfy`, `PayloadFrames.dfy`,
  `SetupFrame.dfy`, `ResumeFrame.dfy`, `LeaseFrame.dfy`, `Durations.dfy`), with the two printers of each
  frame, `RefCounts.dfy` for the reference counts of received frames, and the composite metadata and
  routing extensions (`CompositeMetadata.dfy`, `Routing.dfy`).

Objects that the program updates in place are classes here, and its loops are loops, each proved
against a specification function; the concurrent protocols are state machines over single steps, and
their results hold in every reachable state. Integer widths are written out where they matter: the
64-bit id counter, the 32-bit durations, the 16-bit offsets, the one-byte lengths.

## Where the code does not do what one would expect

These are statements that fail for the code as it is. For each the exact condition is proved, for all
inputs or all runs, and where it helps a failing input or run is given besides.

- A request with metadata and an mtu of 10 to 13 is cut so that its first fragment claims metadata and
  holds none (`Splitter.FirstFragmentFits`), and the receiver rejects it
  (`PayloadSender.FirstFragmentAccepted`).
- A fragmented payload loses its Complete flag in reassembly (`Delivery.CompleteSeenExactly`), so that its
  receiver is not told of the end of the stream (`Delivery.ToldExactly`).
- Frames may reach the transport in another order than they were pushed: a frame whose sending has failed,
  or that met no transport, waits in the backlog until the next round, while the drain goes on with the
  frames behind it (`SendOrder.InOrderExactly`, and the run in `SendRounds.FramesReordered`).
- Frames in the backlog are dropped without `Done` when the write loop finds no transport
  (`SendLifecycle.DoneExactlyOnce`, and the run in `SendLifecycle.FrameLost`).
- `Close` does not return if right after its broadcast the write loop waits, or has found `ready` false
  and is going to wait, or has passed its test of `closed` and not yet tested `ready`, which is false
  (`CloseProgress.CloseReturnsExactly`, and the runs in `CloseProgress.CloseHangs` and
  `CloseProgress.CloseHangsEarly`); only a transport that is set while the loop waits helps
  (`CloseProgress.CloseReturnsIfWoken`).
- Bytes that come in the same read as the end of the stream are never cut into frames
  (`Decoder.EndOfStream`, `Decoder.ReadToEnd`, and the frames of `Decoder.LastFramesMissed`).
- Resume tokens of more than 65521 bytes are misread (`SetupFrame.TokenExactly`,
  `ResumeFrame.FirstAvailableExactly`), and of RESUME's own fields some survive up to 65529 bytes
  (`ResumeFrame.TokenExactly`, `ResumeFrame.LastReceivedExactly`).
- The validation of SETUP compares the whole frame with the least body, so that frames pass on which
  the accessors panic (`SetupFrame.ValidIsTooWeak`; `SetupFrame.AccessorsReturnExactly` says on which
  frames none does). The validation of RESUME does not look at the token's length
  (`ResumeFrame.ValidIsTooWeak`, and the frame in `ResumeFrame.PassesAndPanics`).
- The server's ids include 0 (`StreamIDs.ZeroIdExactly`). The search for a free id takes at most one
  call of `Next` more than there are ids in use, except on a server with all ids but 0 in use that
  meets the skipped seed 2^63 (`StreamIDs.CallsBoundedExactly`). An id that is handed out without a
  check is new exactly until the counter has wrapped (`StreamIDs.UncheckedIsNewExactly`). Before that,
  callers that search at the same time do not overwrite each other's streams unless one sleeps through
  2^30 draws of the others (`StreamIDRaces.NoOverwrite`, the run in `StreamIDRaces.SleeperOverwrites`, and
  the exact condition for any moment in `StreamIDRaces.OverwritesExactly`).
- A second session with a token that is still in use breaks the correspondence of heap and map
  (`SessionManager.Manager.PushSession`).
- A composite metadata entry with an empty MIME type is read back as well-known type 127, and a negative
  type loses its sign (`CompositeMetadata.EntryRoundTrip`, `CompositeMetadata.ScanBuilt`).
- Counting up a frame whose count is zero leaves a positive count on a buffer that is back in the pool,
  or going there; nothing else does (`RefCounts.KeptExactly`, and the run in `RefCounts.LostToAStranger`).

Lemmas to which Dafny would apply induction of its own accord carry `{:induction false}`: their proofs are
their bodies.

## Model

| member | source | states |
|---|---|---|
| `LKQueueInvariant.ActionKeepsInv` | internal/queue/LKQueue.go:27-69 | every call, atomic step and return of any thread keeps the structural invariant of queue and locals |
| `LKQueueInvariant.ReachableStructure` | internal/queue/LKQueue.go:30-67 | in every reachable state the nodes form an acyclic nil-ended chain, head does not pass tail, tail is last or next to last, and no thread dereferences nil |
| `LKQueueInvariant.CheckedFirst` | internal/queue/LKQueue.go:30-61 | helping, linking, reading a value and reporting an empty queue are decided only while the pointer read first is still the queue's |
| `LKQueueInvariant.TailAtEnd` | internal/queue/LKQueue.go:34-36 | whenever no Enqueue is between its link and its swing, tail is the last node linked |
| `LKQueueLinearizability.Simulate` | internal/queue/LKQueue.go:27-69 | an atomic queue can follow the run, whichever undecided Dequeues turn out to return nil |
| `LKQueueLinearizability.Linearizable` | internal/queue/LKQueue.go:27-69 | for every run some run of an atomic FIFO queue has the same calls and returns in the same order, and ends with the same contents |
| `LKQueueLinearizability.NilReadMeansEmpty` | internal/queue/LKQueue.go:52-56 | a Dequeue that reads a nil successor does so at an instant when the queue is empty |
| `LKQueueLinearizability.FifoOrder` | internal/queue/LKQueue.go:34-64 | what has left, followed by what is still in the queue, is what was linked, in the order of the link CASes |
| `LKQueueProgress.WorkDone` | internal/queue/LKQueue.go:34-63 | the successful CASes of a stretch of a run are the advance of head, tail and chain in it |
| `LKQueueProgress.RetriesBounded` | internal/queue/LKQueue.go:29-68 | the failed iterations of one call are at most the CASes that succeed during it |
| `LKQueueProgress.LockFree` | internal/queue/LKQueue.go:29-68 | a call makes at most 6 * (n + 1) accesses while n CASes succeed |
| `LKQueueProgress.SuccessesBounded` | internal/queue/LKQueue.go:34-63 | at most three CASes succeed for every value linked |
| `Splitter.SplitSkip` | internal/fragmentation/splitter.go:23-70 | the two-cursor loop terminates and yields the greedy reference split |
| `Splitter.NextFragment` | internal/fragmentation/splitter.go:28-64 | one round takes the largest metadata-first piece that fits, with its flags |
| `Splitter.Fill` | internal/fragmentation/splitter.go:37-43 | the inner loop hands out the bytes left, metadata before data |
| `Splitter.ValidFragments` | internal/fragmentation/types.go:13-54 | the legal mtus are 10 to 16777212: those that leave every later fragment room for a byte of metadata, and its frame within the length field |
| `Splitter.SplitKeepsPayload` | internal/fragmentation/splitter.go:37-64 | metadata and data of the fragments, put together, are the payload |
| `Splitter.SplitShape` | internal/fragmentation/splitter.go:46-64 | flags, sizes and metadata-first order of the fragments from any cursor position on |
| `Splitter.SplitCorrect` | internal/fragmentation/splitter.go:23-70 | nothing lost; each fragment within the mtu and all but the last equal to it; Follow on all but the last; Metadata exactly where there is some |
| `Splitter.FirstFragmentFits` | internal/fragmentation/splitter.go:29-36 | the first fragment's Metadata flag is true exactly when the mtu leaves room behind the skipped bytes |
| `SplitterOptimal.OneFrame` | internal/fragmentation/splitter.go:28-44 | one greedy frame keeps the lead over any other frame that fits |
| `SplitterOptimal.Optimal` | internal/fragmentation/splitter.go:27-69 | no metadata-first cut within the mtu uses fewer frames, and none is ahead at any frame |
| `SplitterOptimal.GreedyIsACut` | internal/fragmentation/splitter.go:27-69 | the splitter's own fragments are such a cut, so the bound is attained |
| `PayloadSender.Send` | internal/socket/duplex.go:1071-1123 | sends the payload whole if it fits, otherwise its fragments with their flags, in order |
| `PayloadSender.OnFrame` | internal/socket/duplex.go:1095-1122 | the flags of a fragment: the caller's on the first, Next on the others, Complete only on the last |
| `PayloadSender.FragmentsDecode` | internal/socket/duplex.go:1095-1122 | every fragment, encoded, is within the mtu and decodes to its part of the payload |
| `PayloadSender.FramesWellFormed` | internal/socket/duplex.go:1071-1123 | every frame passes the receiver's validation and has its type, request N and all its flags: Follow on all but the last; Next on the first if asked for, and on all others; Complete on the last only and only if asked for |
| `PayloadSender.FirstFragmentAccepted` | core/framing/request_stream.go:61-70 | the receiver accepts the first fragment of a request exactly when the mtu leaves it room for metadata |
| `Joiner.ImplJoiner.constructor` | internal/fragmentation/types.go:40-46 | a joiner starts with the first frame |
| `Joiner.ImplJoiner.Push` | internal/fragmentation/joiner.go:92-97 | appends the frame; ended exactly when Follow is off |
| `Joiner.ImplJoiner.Header` | internal/fragmentation/joiner.go:35-45 | the header is the first frame's |
| `Joiner.ImplJoiner.Metadata` | internal/fragmentation/joiner.go:52-64 | the metadata of the leading frames that claim some, absent if none has any |
| `Joiner.ImplJoiner.Data` | internal/fragmentation/joiner.go:75-83 | the data of all frames in order |
| `Joiner.JoinDataOfSplit` | internal/fragmentation/joiner.go:75-83 | joining frames that decode to the fragments of a split gives all its data |
| `Joiner.JoinMetadataOfSplit` | internal/fragmentation/joiner.go:52-64 | and all its metadata, although the loop stops at the first frame without any |
| `Reassembly.DuplexConnection.constructor` | internal/socket/duplex.go:921-941 | no incomplete payload at the start |
| `Reassembly.DuplexConnection.DoFragment` | internal/socket/duplex.go:921-941 | keeps, starts or completes the joiner of the frame's stream and leaves the others alone |
| `Reassembly.StreamsIndependent` | internal/socket/duplex.go:921-941 | under any interleaving a stream's payloads and leftovers depend on its own frames alone |
| `Delivery.JoinsToOriginal` | internal/fragmentation/joiner.go:43-83 | the joined frames of a message have its type, stream id, Next, request N, metadata and data, and Complete unless it was cut |
| `Delivery.ReassemblyCorrect` | internal/socket/duplex.go:921-941 | for every interleaving of all streams each stream delivers exactly its payloads in order, and no joiner is left |
| `Delivery.WireFrames` | core/framing/payload.go:51-57 | every frame on the wire can be written, is accepted and is within the mtu |
| `Delivery.Read` | internal/fragmentation/joiner.go:43-83 | what handlers read from a frame or a joiner: type, stream id, Next, Complete and request N of its first frame, joined metadata and data |
| `Delivery.ReceiveOne` | internal/socket/duplex.go:921-945 | one frame through doFragment: the payload it completes, if any, and the fragments kept |
| `Delivery.ReceiveAll` | internal/socket/duplex.go:921-945 | all frames in turn: exactly the completed payloads, in order |
| `Delivery.EndToEnd` | core/transport/tcp_conn.go:42-103 | split, encode, write, arbitrary chunks, scan, doFragment, joiners: the handlers of every stream get what was sent on it, Next and Complete included but for the Complete of fragmented payloads, in order, and no fragment is left |
| `Delivery.CompleteSeenExactly` | internal/fragmentation/joiner.go:43-45 | the receiver sees Complete as sent exactly if the payload was not cut or Complete not asked for |
| `Delivery.ToldExactly` | internal/socket/duplex.go:966-1010 | the handlers of streams and channels are told all the payloads and completions that were meant, in order, exactly if no completing payload is fragmented; for each of those one Complete is missing |
| `Decoder.BufferSuffices` | core/transport/decoder.go:12-16 | a buffer without a complete frame is below the scanner's limit |
| `Decoder.SplitStable` | core/transport/decoder.go:41-58 | a token or an error found in a buffer stays the same when bytes are added |
| `Decoder.TokensAppend` | core/transport/decoder.go:41-58 | cutting a stream is cutting a prefix and going on with its remainder |
| `Decoder.BadStaysBad` | core/transport/decoder.go:49-52 | after a zero length no further frame is cut |
| `Decoder.InvalidExactly` | core/transport/decoder.go:49-52 | an error is a length field of three zero bytes and nothing else |
| `Decoder.Scanner.constructor` | core/transport/decoder.go:61-67 | a scanner over the reads of a connection |
| `Decoder.Scanner.Scan` | core/transport/decoder.go:25-33 | the next token of the whole stream, whatever the chunks; an error exactly at a zero length |
| `Decoder.Scanner.ReadAll` | core/transport/decoder.go:25-39 | repeated reads give the frames of one pass over the whole stream up to the first shorter than a header, and the error that ends them |
| `Decoder.WriteAll` | core/transport/tcp_conn.go:80-94 | writes each frame behind its length, which `Decoder.WrittenOnWire` and `Bytes.PutU24` state in numbers |
| `Decoder.WrittenOnWire` | core/transport/tcp_conn.go:80-94 | a written frame is three bytes that spell its length, most significant first, and its bytes |
| `Decoder.WriteableExactly` | core/transport/decoder.go:41-58 | a frame behind its length is cut out again as it is exactly if it has 1 to 2^24-1 bytes |
| `Decoder.TokensOfWritten` | core/transport/tcp_conn.go:80-94 | cutting what was written gives back the frames, with nothing left |
| `Decoder.Transfer` | core/transport/tcp_conn.go:42-94 | frames written and read in arbitrary chunks arrive unchanged, up to the first shorter than a header |
| `Decoder.EndOfStream` | core/transport/decoder.go:42-44 | bytes read together with the end of the stream lose nothing exactly when they complete no frame that would be read |
| `Decoder.ReadToEnd` | core/transport/decoder.go:25-44 | the scanner reads all frames of stream and last bytes exactly in that case |
| `Decoder.LastFramesMissed` | core/transport/decoder.go:42-44 | if the bytes that come with the end of the stream complete whole frames, exactly those are missed that would have been read after the others |
| `SendLifecycle.ActionKeepsInv` | internal/socket/duplex.go:1055-1273 | every step of a sender, the write loop, the closer or the transport keeps each frame in exactly one place |
| `SendLifecycle.DoneAtMostOnce` | internal/socket/duplex.go:106-191 | in every run no frame has Done called twice |
| `SendLifecycle.NoSharedTeardown` | internal/socket/duplex.go:126-141 | Close empties queue and backlog only when the write loop will not touch them again |
| `SendLifecycle.LostOnlyByDrop` | internal/socket/duplex.go:1248-1261 | frames are lost exactly in runs where drainBacklog meets a nil transport with frames waiting |
| `SendLifecycle.SettledOrLost` | internal/socket/duplex.go:106-191 | after Close every frame whose sendFrame has returned had Done once or was dropped, not both |
| `SendLifecycle.DoneExactlyOnce` | internal/socket/duplex.go:106-191 | after Close all such frames had Done exactly once, if and only if no backlog was dropped |
| `SendLifecycle.LateSendersSettle` | internal/socket/duplex.go:1055-1069 | a sendFrame still running after Close does not block, and calls Done |
| `SendLifecycle.FrameLost` | internal/socket/duplex.go:1248-1261 | a run in which a frame is dropped without Done |
| `SendOrder.QueueIsFifo` | internal/socket/duplex.go:1055-1069 | in every run the frames that have left the queue, followed by those in it, are the frames pushed, in the order of their pushes |
| `SendOrder.SubmittedInTurn` | internal/socket/duplex.go:1086-1123 | a frame that is submitted only after another has been pushed is behind it |
| `SendOrder.ArrivalAlways` | internal/socket/duplex.go:1193-1225 | the write loop takes each frame once, in the order of the queue, leases aside |
| `SendOrder.SentAsPushed` | internal/socket/duplex.go:1193-1243 | while a transport is set and every sending succeeds, the frames sent, leases aside, are a prefix of those pushed, and the rest is in hand, swept by Close, or in the queue, in this order |
| `SendOrder.InOrderExactly` | internal/socket/duplex.go:1227-1273 | in any run frames are sent in order of arrival, and those still to be sent stay behind them in that order, at every moment, exactly if none is sent while others wait in the backlog |
| `SendOrder.DoneBeforeClose` | internal/socket/duplex.go:1227-1273 | before Close, Done is called for a frame exactly when it has been sent, or has been kept in the backlog and failed again, and once |
| `SendRounds.RoundSendsAll` | internal/socket/duplex.go:1275-1368 | an undisturbed round of the write loop sends the backlog and then the queue, in order, calls Done for each, and leaves both empty |
| `SendRounds.EndsOnlyWithGround` | internal/socket/duplex.go:1275-1368 | the write loop ends only by Close, a cancelled context or the end of the leases, and always by the last two |
| `SendRounds.BlockedExactly` | internal/socket/duplex.go:1125-1230 | where the write loop can be blocked: asleep, or at an empty open queue without a keepalive tick; leases reach it wherever it receives |
| `SendRounds.QueueBounded` | internal/socket/duplex.go:31-31 | the queue holds at most 64 frames, and a sender waits only while it is full and open |
| `SendRounds.TransportExactly` | internal/socket/duplex.go:1014-1052 | there is a transport exactly if one was set and not cleared since, and likewise for ready; while ready is set there is a transport or one is about to be set |
| `SendRounds.FramesReordered` | internal/socket/duplex.go:1227-1273 | a run in which the first of two frames fails, the second is sent, and the first is sent after it |
| `CloseProgress.StepDecided` | internal/socket/duplex.go:1340-1347 | once Close has made its broadcast, no step but those of the transport changes whether the write loop goes to sleep |
| `CloseProgress.CloseReturnsExactly` | internal/socket/duplex.go:106-149 | with the transport left alone after the broadcast, Close returns exactly if right after it the write loop was not waiting, had not found ready false, and was not between its test of closed and its test of a ready that is false |
| `CloseProgress.CloseReturnsIfWoken` | internal/socket/duplex.go:106-149 | whatever the transport does after the broadcast, Close returns exactly if the write loop never waits or a transport is set while it does |
| `CloseProgress.ComesToRest` | internal/socket/duplex.go:106-149 | after the broadcast write loop and Close make boundedly many steps, whatever the transport does |
| `CloseProgress.CloseHangs` | internal/socket/duplex.go:1343-1346 | a run in which Close waits for a write loop that nobody wakes |
| `CloseProgress.CloseHangsEarly` | internal/socket/duplex.go:1340-1343 | a run in which the broadcast comes between the test of closed and the test of ready, and is missed |
| `Unbounded.UnboundedBuffer.constructor` | internal/buffer/unbounded.go:46-48 | an empty, open buffer |
| `Unbounded.UnboundedBuffer.PutOne` | internal/buffer/unbounded.go:51-72 | accepted unless disposed, behind everything waiting; never sends on a closed channel |
| `Unbounded.UnboundedBuffer.LoadNext` | internal/buffer/unbounded.go:77-93 | moves the oldest of the backlog to a free channel, or closes a disposed buffer; the return codes |
| `Unbounded.UnboundedBuffer.DisposeAll` | internal/buffer/unbounded.go:105-112 | disposed; closed at once if there is no backlog; nothing waiting is lost |
| `Unbounded.UnboundedBuffer.Close` | internal/buffer/unbounded.go:114-120 | the channel is closed; the call reports failure exactly if it was closed before, and the panic is recovered |
| `Unbounded.UnboundedBuffer.Receive` | core/transport/transport.go:178-179 | the oldest element, or the end once the channel is closed and empty |
| `Unbounded.UnboundedBuffer.DrainDisposed` | core/transport/transport.go:178-190 | after Dispose the consumer finishes in exactly as many receives as elements wait, and has received all that was accepted |
| `Unbounded.LoadOk` | internal/buffer/unbounded.go:74-93 | after Load a consumer that finds the channel empty and open has an empty backlog |
| `TransportStart.ActionKeepsInv` | core/transport/transport.go:174-251 | every step of reader and workers keeps dispatched followed by waiting equal to read, lane by lane |
| `TransportStart.DispatchedInOrder` | core/transport/transport.go:174-251 | at any moment what a lane has dispatched is a prefix of what was read on it |
| `TransportStart.AllDispatchedOnReturn` | core/transport/transport.go:207-251 | when Start returns, for whatever reason, every frame read was dispatched once, and each stream's in order |
| `TransportStart.WorkersByParity` | core/transport/transport.go:233-245 | each worker dispatches streams of its own parity, and none of them stream 0 |
| `TransportStart.StopsAreSeen` | core/transport/transport.go:178-225 | after a cancellation or a failed handler of a worker the reader at its check does not read but leaves; otherwise it goes on |
| `TransportStart.LeavesOnlyWithGround` | core/transport/transport.go:218-250 | the reader leaves its loop only for the end of the input, a failed handler or a cancellation, and at once for the end and for a failed handler of stream 0 |
| `TransportStart.OneMoreReadAtMost` | core/transport/transport.go:218-231 | once told to stop, the reader reads at most the one frame for which it already waits |
| `TransportStart.RankFalls` | core/transport/transport.go:174-213 | once the reader leaves its loop every step brings the return closer |
| `TransportStart.NeverStuck` | core/transport/transport.go:174-213 | until it returns some step is possible: the handshake over the one-element done channel cannot deadlock |
| `SessionHeap.PushOrders` | internal/session/heap.go:18-22 | push and up give an ordered heap with the new session |
| `SessionHeap.PopOrders` | internal/session/heap.go:24-32 | pop removes a session of least deadline and leaves an ordered heap of the others |
| `SessionHeap.RemoveOrders` | internal/session/manager.go:44-46 | remove takes off the session at an index and leaves an ordered heap of the others |
| `SessionHeap.RootIsFirst` | internal/session/heap.go:9-11 | no session is due before the root of an ordered heap |
| `SessionManager.Manager.constructor` | internal/session/manager.go:64-69 | an empty manager is valid |
| `SessionManager.Manager.Swap` | internal/session/heap.go:13-16 | exchanges two sessions and their indices |
| `SessionManager.Manager.PushLast` | internal/session/heap.go:18-22 | appends a session that knows its index |
| `SessionManager.Manager.PopLast` | internal/session/heap.go:24-32 | takes off the last session and clears its index |
| `SessionManager.Manager.MoveUp` | internal/session/heap.go:9-16 | the in-place sift up is the specified one and keeps indices right |
| `SessionManager.Manager.MoveDown` | internal/session/heap.go:9-16 | likewise the sift down, and whether it moved anything |
| `SessionManager.Manager.HeapPush` | internal/session/manager.go:27-27 | container/heap's Push over the heap's own methods |
| `SessionManager.Manager.HeapPop` | internal/session/manager.go:56-56 | container/heap's Pop |
| `SessionManager.Manager.HeapRemove` | internal/session/manager.go:45-45 | container/heap's Remove |
| `SessionManager.Manager.PushSession` | internal/session/manager.go:24-29 | heap order, indices and map stay right; heap and map stay in bijection if and only if the token is fresh |
| `SessionManager.Manager.Load` | internal/session/manager.go:32-37 | finds exactly the tokens of the map, with a session of that token that is in the heap |
| `SessionManager.Manager.Pop` | internal/session/manager.go:53-61 | a session of least deadline leaves heap and map |
| `SessionManager.Manager.Remove` | internal/session/manager.go:40-50 | the session of a token leaves heap and map, or nothing changes |
| `SessionCleaner.DoCleanSession` | server.go:353-375 | terminates; closes sessions in deadline order, each when the clock is past its deadline, and loses none; for every session left the last reading of the clock was not past its deadline |
| `SessionCleaner.DestroySessions` | server.go:342-351 | closes every session once, in deadline order |
| `StreamIDs.IdOfResidue` | internal/socket/stream_id.go:22-44 | an id is the seed's residue modulo 2^30, doubled, odd for clients and even for servers, also across the wrap |
| `StreamIDs.SameIdExactly` | internal/socket/stream_id.go:22-44 | two seeds give the same id exactly when they are a multiple of 2^30 apart |
| `StreamIDs.SkippedExactly` | internal/socket/stream_id.go:26-29 | only the server skips seeds, those that are multiples of 2^63 |
| `StreamIDs.ZeroIdExactly` | internal/socket/stream_id.go:22-27 | id 0 is generated exactly by a server at multiples of 2^30 |
| `StreamIDs.CallsBoundedExactly` | internal/socket/duplex.go:90-103 | one call of Next more than own ids in use suffices, exactly unless the server is crowded |
| `StreamIDs.FirstLapIsNew` | internal/socket/duplex.go:93-97 | on the first lap every id differs from all issued before |
| `StreamIDs.UncheckedIsNewExactly` | internal/socket/duplex.go:93-97 | an id handed out without a check differs from all issued before exactly until the counter has wrapped |
| `StreamIDs.FirstLapExactly` | internal/socket/duplex.go:93-101 | before the wrap, the ids that are handed out without a check are exactly those not issued before |
| `StreamIDs.FirstLapIds` | internal/socket/stream_id.go:22-44 | on the first lap a client yields 1, 3, 5 and so on, a server 2, 4, 6 and so on, and at last 0 |
| `StreamIDs.DrawsDiffer` | internal/socket/stream_id.go:24-27 | draws fewer than 2^30 apart, those of concurrent callers among them, give different ids |
| `StreamIDRaces.ActionKeepsFree` | internal/socket/duplex.go:90-103 | whatever draw, check, register or unregister comes next, an id that passed its caller's check stays free |
| `StreamIDRaces.OverwritesExactly` | internal/socket/duplex.go:90-103 | at any moment, wrapped or not, a caller that registers overwrites a stream exactly if one is in use that was drawn whole laps of 2^30 draws from its own draw |
| `StreamIDRaces.DrawsCounted` | internal/socket/stream_id.go:22-44 | every draw advances the counter by one, and no caller is given a seed that is skipped |
| `StreamIDRaces.DrawAndCheck` | internal/socket/duplex.go:90-103 | a draw and a check end a search exactly where the sequential search does |
| `StreamIDRaces.InUseExactly` | internal/socket/duplex.go:1374-1381 | the keys in use are exactly those of the streams opened, by either side, and not closed since |
| `StreamIDRaces.NoOverwrite` | internal/socket/duplex.go:90-103 | before the wrap no caller registers a key that is in use, for any interleaving in which nobody sleeps through 2^30 draws |
| `StreamIDRaces.SleeperOverwrites` | internal/socket/duplex.go:93-97 | a run in which a caller does sleep so long, and overwrites a stream |
| `StreamIDs.DuplexConnection.Next` | internal/socket/stream_id.go:22-44 | advances the counter to the next seed that is not skipped and gives its id |
| `StreamIDs.DuplexConnection.NextStreamID` | internal/socket/duplex.go:90-103 | terminates while fewer than 2^30 own ids are in use; until the counter wraps the id is free if the peer keeps to its parity; the exact bound on calls |
| `StreamIDs.DuplexConnection.Register` | internal/socket/duplex.go:1374-1376 | adds a key; keys of this side's parity stay issued ids if this one is |
| `StreamIDs.DuplexConnection.Unregister` | internal/socket/duplex.go:1378-1381 | removes a key and keeps that |
| `FrameHeader.HeaderRoundTrip` | core/header.go:48-92 | stream id, 6-bit type and 10-bit flags are read back from a header whatever follows |
| `FrameHeader.HeaderCovers` | core/header.go:48-78 | every six bytes are the header of what they decode to |
| `FrameHeader.FlagsRoundTrip` | core/types.go:96-106 | the named flags survive packing into ten bits |
| `FrameHeader.FlagValues` | core/types.go:96-106 | the bit of each named flag |
| `FrameHeader.HeaderOnWire` | core/header.go:73-92 | the bytes of a header: four that spell the stream id, most significant first, then type and flags bit by bit |
| `FrameHeader.TypesOnWire` | core/types.go:14-31 | the numbers of the frame types |
| `Bytes.PutU24` | internal/u24/u24.go:54-68 | three bytes, most significant first, that spell the number, up to 2^24-1 |
| `Bytes.BigEndian16` | core/framing/setup.go:71-71 | two bytes are written and read as the number they spell, most significant first |
| `Bytes.BigEndian24` | internal/u24/u24.go:41-90 | likewise three bytes |
| `Bytes.BigEndian32` | core/header.go:48-78 | likewise four bytes |
| `Bytes.BigEndian64` | core/framing/resume.go:55-59 | likewise eight bytes |
| `BufferedFrame.PayloadBodyRoundTrip` | core/framing/buffered.go:118-170 | metadata and data are read back exactly unless a frame with data claims metadata it does not have |
| `BufferedFrame.SlicesCover` | core/framing/buffered.go:118-170 | on any frame, what is read as metadata and data is what is there; with a length that is missing or too long, neither is read |
| `PayloadFrames.NewPayloadFrame` | core/framing/payload.go:16-48 | the buffered printer gives the protocol's layout |
| `PayloadFrames.NewRequestFrame` | core/framing/request_channel.go:23-59 | likewise for the request frames with an initial N |
| `PayloadFrames.WritePayload` | core/framing/misc.go:139-166 | writes length, metadata and data, and counts the bytes |
| `PayloadFrames.WriteTo` | core/framing/writeable_request_stream.go:36-62 | the writing printer's bytes, as many as Len says |
| `PayloadFrames.PrintersAgree` | core/framing/writeable_payload.go:24-85 | both printers give the same bytes and Len is their number |
| `PayloadFrames.RoundTrip` | core/framing/request_stream.go:73-85 | all fields are read back, metadata and data exactly unless the Metadata flag is false |
| `PayloadFrames.AcceptedExactly` | core/framing/payload.go:51-57 | validation accepts an encoded frame exactly when a claimed length field has its three bytes |
| `PayloadFrames.ReencodesExactly` | core/framing/payload.go:16-77 | encoding what was read from any valid frame gives back its bytes exactly unless its claim of metadata is empty or too long |
| `PayloadFrames.PayloadStart` | core/framing/request_stream.go:22-58 | of the frames with a payload, only types 6 and 7 have four bytes in front of it |
| `PayloadFrames.OnWire` | core/framing/request_stream.go:22-58 | the bytes of an encoded frame behind its header: request N, length of the metadata, metadata and data |
| `Durations.MillisRoundTrip` | internal/common/common.go:37-40 | a duration survives, cut to milliseconds, exactly from above -1 ms to below 2^32 ms |
| `Durations.MillisInNanoseconds` | internal/common/common.go:37-40 | a millisecond is a million nanoseconds, and milliseconds are counted toward zero |
| `SetupFrame.NewSetupFrame` | core/framing/setup.go:27-116 | the buffered printer gives the layout, with lengths truncated to their fields |
| `SetupFrame.WriteTo` | core/framing/writeable_setup.go:67-138 | the writing printer's bytes, as many as Len says |
| `SetupFrame.PrintersAgree` | core/framing/writeable_setup.go:26-148 | both printers give the same bytes and Len is their number |
| `SetupFrame.TokenExactly` | core/framing/setup.go:144-151 | the token is read back exactly if it has at most 65521 bytes |
| `SetupFrame.SeekMIMEFinds` | core/framing/setup.go:218-224 | the MIME types are found behind any token that fits its length field |
| `SetupFrame.MimeExactly` | core/framing/setup.go:205-216 | both MIME types are read back exactly if neither exceeds 255 bytes |
| `SetupFrame.RoundTrip` | core/framing/setup.go:126-185 | version, durations, lease flag, MIME types, metadata and data are read back |
| `SetupFrame.TokenReturnsExactly` | core/framing/setup.go:144-151 | on any frame, the token accessor panics exactly if the token's bytes are missing or out of reach of 16 bits |
| `SetupFrame.MimeReturnsExactly` | core/framing/setup.go:205-224 | on any frame, the MIME accessors panic exactly if the two types do not fit behind their offset |
| `SetupFrame.PayloadReturnsExactly` | core/framing/setup.go:166-185 | on any frame, Data panics exactly if they do not, Metadata only if it is claimed besides |
| `SetupFrame.AccessorsReturnExactly` | core/framing/setup.go:126-224 | no accessor panics exactly on complete frames, which pass validation |
| `SetupFrame.ValidExactly` | core/framing/setup.go:119-140 | validation passes exactly the frames whose version and keepalive time can be read; the lifetime needs 12 bytes |
| `SetupFrame.ValidIsTooWeak` | core/framing/setup.go:119-124 | exactly which frames pass validation and make an accessor panic |
| `SetupFrame.PassesAndPanics` | core/framing/setup.go:119-140 | there is such a frame |
| `SetupFrame.EncodedIsComplete` | core/framing/setup.go:27-116 | the printers' frames are complete if the token has at most 65521 bytes and the MIME types at most 255 each |
| `SetupFrame.OnWire` | core/framing/setup.go:27-116 | the bytes behind the header: version, keepalive interval and lifetime, token behind its length, MIME types behind theirs, metadata and data |
| `ResumeFrame.NewResumeFrame` | core/framing/resume.go:28-67 | the layout, or a panic exactly above 65535 bytes of token |
| `ResumeFrame.WriteTo` | core/framing/writeable_resume.go:41-84 | the writing printer's bytes, as many as Len says |
| `ResumeFrame.PrintersAgree` | core/framing/writeable_resume.go:20-89 | the printers agree exactly when the first one does not panic |
| `ResumeFrame.TokenExactly` | core/framing/resume.go:86-90 | the token is read back exactly up to 65529 bytes |
| `ResumeFrame.LastReceivedExactly` | core/framing/resume.go:93-97 | so is every last received position |
| `ResumeFrame.FirstAvailableExactly` | core/framing/resume.go:100-104 | every first available position is read back exactly up to 65521 bytes of token |
| `ResumeFrame.RoundTrip` | core/framing/resume.go:70-104 | up to 65521 bytes of token every field is read back, and the frame is valid |
| `ResumeFrame.ValidIsTooWeak` | core/framing/resume.go:70-104 | on a valid frame no accessor panics exactly if token and last received position are there, within reach of 16 bits, and the first available position is, unless its offset wraps |
| `ResumeFrame.ReturningIsValid` | core/framing/resume.go:70-104 | a frame on which no accessor panics is valid |
| `ResumeFrame.PassesAndPanics` | core/framing/resume.go:70-104 | a valid frame on which an accessor panics |
| `ResumeFrame.OnWire` | core/framing/resume.go:28-67 | the bytes behind the header: version, token behind its length, last received and first available position |
| `LeaseFrame.NewLeaseFrame` | core/framing/lease.go:24-57 | the buffered printer gives the layout |
| `LeaseFrame.WriteTo` | core/framing/writeable_lease.go:41-71 | the writing printer's bytes, as many as Len says |
| `LeaseFrame.PrintersAgree` | core/framing/writeable_lease.go:21-80 | both printers give the same bytes and Len is their number |
| `LeaseFrame.RoundTrip` | core/framing/lease.go:60-84 | time to live in milliseconds, number of requests and metadata are read back |
| `LeaseFrame.ValidExactly` | core/framing/lease.go:60-84 | validation passes exactly the frames on which no accessor panics |
| `LeaseFrame.OnWire` | core/framing/lease.go:24-57 | the bytes behind the header: time to live, number of requests, metadata |
| `RefCounts.ReturnedAtMostOnce` | core/framing/buffered.go:68-83 | under any use of IncRef and Release no buffer goes back twice, and the borrowed counter is the number of buffers still out |
| `RefCounts.ReturnedExactlyAtZero` | core/framing/buffered.go:30-83 | if IncRef is left to holders, then under any interleaving with Release a frame with references keeps its buffer, and once nobody is inside Release it has gone back exactly once if the count is not positive |
| `RefCounts.ReturnedByCalls` | core/framing/buffered.go:24-83 | the count is one, plus the calls of IncRef, minus those of Release; a buffer has gone back exactly if Release was called more often than IncRef |
| `RefCounts.KeptExactly` | core/framing/buffered.go:30-83 | at every moment counted frames have their buffers with nobody returning them, exactly if IncRef never meets a count of zero |
| `RefCounts.LostToAStranger` | core/framing/buffered.go:30-32 | a run that counts up from zero ends with a positive count on a returned buffer |
| `CompositeMetadata.CompositeMetadataBuilder.PushWellKnown` | extension/composite_metadata.go:78-82 | appends a well-known entry |
| `CompositeMetadata.CompositeMetadataBuilder.Push` | extension/composite_metadata.go:90-98 | appends an entry under its number exactly if the name is well known |
| `CompositeMetadata.CompositeMetadataBuilder.Build` | extension/composite_metadata.go:106-130 | the encoding of all entries, or what the first entry that does not fit causes: an error for a name, a panic for metadata |
| `CompositeMetadata.CompositeMetadataScanner.Metadata` | extension/composite_metadata.go:51-75 | decodes the entry at the offset and moves behind it |
| `CompositeMetadata.BuiltExactly` | extension/composite_metadata.go:106-130 | bytes are built exactly if every entry fits, and then they are the encoding |
| `CompositeMetadata.FitsExactly` | extension/composite_metadata.go:112-122 | names of at most 127 bytes and metadata below 2^24 bytes are accepted, and nothing else is refused |
| `CompositeMetadata.EntryOnWire` | extension/composite_metadata.go:106-130 | the bytes of an entry: number or length of the name less one, name, length of the metadata, metadata |
| `CompositeMetadata.EntryDecodes` | extension/composite_metadata.go:60-75 | what is read for any entry that can be built, whatever follows it |
| `CompositeMetadata.EntryRoundTrip` | extension/composite_metadata.go:60-75 | any entry that can be built is read back right exactly if its key survives |
| `CompositeMetadata.ReadIsPushed` | extension/composite_metadata.go:106-118 | what is read for a list is what was pushed exactly if every key survives |
| `CompositeMetadata.EmptyNameMisread` | extension/composite_metadata.go:112-118 | an empty name is read back as that of type 127 |
| `CompositeMetadata.ScanBuilt` | extension/composite_metadata.go:36-75 | scanning whatever was built gives one reading an entry, in order, and stops at the end; it is what was pushed exactly if every key survives |
| `Routing.EncodeRouting` | extension/routing.go:12-34 | an error exactly if some tag exceeds 255 bytes, else all tags behind their lengths |
| `Routing.ParseRoutingTags` | extension/routing.go:38-55 | the tags in front of the first illegal length, and whether there was one |
| `Routing.ParseEncoded` | extension/routing.go:12-55 | encoded tags are parsed back |
| `Routing.EncodeParsed` | extension/routing.go:12-55 | every accepted byte string is the encoding of its tags |
| `Routing.TagOnWire` | extension/routing.go:12-34 | each tag is one byte with its length, and its bytes |

## Left out

- Errors of the underlying writer in the printers, in `TCPConn.Write` and in `Flush`: writing always
  succeeds here, except that a send in `SendLifecycle` may fail at will.
- `sync.Pool` reuse, the frame pools and the unsafe conversions of strings: values and fresh allocation.
- Metadata above 2^24-1 bytes, which makes the printers of Setup, Payload and the requests panic, is a
  precondition there; the capacity of a slice beyond its length, into which Go lets a malformed frame's
  accessor reach, counts as a panic.
- `Delivery.EndToEnd`: the frames of a stream are written in the order in which they are handed over, which
  is what `SendOrder.SentAsPushed` proves for runs in which every sending succeeds.
- `SendLifecycle.ActionKeepsInv`: `LoopWrite` is called once, keepalive frames, which nobody waits for, are
  not tracked, and the flush of a transport that has just become nil is not modelled.
- `TransportStart.ActionKeepsInv`: frames are read without being decoded, and handlers do nothing but
  succeed or fail.
- `Decoder.Scanner.Scan`: bufio's limit of one hundred empty reads in a row is not modelled, and read
  errors other than the end of the stream are not told apart from it.
- `SessionManager.Manager.PushSession`: sessions are pushed only when they are not in the heap, as the
  server does; the lock around every method makes calls atomic, and a cleaning loop that is overtaken
  by another caller between its check of the length and its Pop is not modelled.
- `SessionCleaner.DoCleanSession`: the goroutine that closes the sessions handed to it runs later; here
  they are closed in the order in which they are handed over.
- `StreamIDs.DuplexConnection.NextStreamID`: the map of streams does not change, and nobody else draws,
  during one search; searches that overlap are those of `StreamIDRaces.NoOverwrite`, which does not bound
  their calls.
- `RefCounts.ReturnedAtMostOnce`: the 32-bit count does not overflow.
- `CompositeMetadata.EntryDecodes`: the table of well-known MIME types is a parameter, all of whose
  names differ, instead of its 47 entries.
- `PayloadSender.Send`: releasing the caller's payload with the last fragment; the request paths that
  differ from `sendPayload` only in the callbacks they register.
- The reference counts inside a joiner, and the deletion of a joiner when a stream is cancelled.
- The reactor operators and schedulers, dialling and listening, HTTP upgrade, logging and printing,
  client reconnects and resume positions, leases other than their frame, authentication, request-N
  clamping, load balancing, and the remaining simple frames (Cancel, RequestN, Keepalive, Error,
  ResumeOK, MetadataPush): plumbing, or further members of the same shape.
