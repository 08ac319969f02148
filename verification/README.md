# Verification of TermChat's core

TermChat is an epoll chat server with a terminal client. This project models the parts of it whose
correctness rests on interleavings, whole runs or index arithmetic, and proves what they are for:

- **The lock-free queue** (`MpscQueue`, `MpscRefinement`, `MpscProgress`, `MpscCompletion`): a transition system with one
  action per atomic access. Every interleaving of any number of producers with the consumer refines a sequential
  FIFO; each call takes effect once, in its caller's order; the pointers drift apart by an exact bound; every round
  of a producer's loop is paid for by a call, a spurious failure or the progress of others; and a producer that is left
  alone completes its call within eleven accesses.
- **The byte path** (`Buffers`, `Framing`, `Outgoing`, `EndToEnd`, `TcpConnections`, `ClientReader`): the buffer refines a
  byte queue; however the kernel splits reads and writes, and however pushes interleave with responses, frames
  are never torn, lost, doubled or reordered, in either direction, and a client reads the answers to its requests
  in their order. HTTP header and file leave in order.
- **The timer heap** (`TimerHeap`, `HeapTimers`, `EventLoop`, `Webservers`): heap and back index refine a map from id to
  expiry; the event loop keeps a timer for every open connection and closes exactly the silent ones; a descriptor is
  open exactly if it was let in and since then neither hung up, closed by a worker nor timed out.
- **Pool and persistence** (`SqlConnPool`, `MessageStore`, `AsyncMsgWriters`, `Ids`): the semaphore-and-queue protocol
  under any schedule; batching, retry and drain neither lose nor reorder a message, and the tables end up as if
  the applied batches had been inserted message by message, once.
- **Smaller state machines** (`HttpRequests`, `Sessions`, `SessionRegistry`, `Friends`): a print/parse round trip, the
  session registry and the user count under every interleaving of logins and closes, and the friend table over
  whole runs.

Concurrent protocols are transition systems whose runs are arbitrary schedules: an action that is not possible at
its turn is skipped, so no schedule is excluded. Classes that the program updates in place are classes here, and
their methods are proved against functions or transition systems about which the theorems are stated. The kernel,
the clock, other threads and the database are nondeterministic choices or parameters.

## Where the code departs from its purpose

- `HeapTimer::Del_` clears the wrong entry of `ref_` at line 53. `Del` has the line as intended, and the refinement is
  proved for it. `DelAsWritten` has the line as it stands: the back index survives exactly when the last slot is
  deleted; otherwise two entries, which its contract names, are wrong and no others. `Tick` is proved with either
  line; with the one as written the index is exact afterwards if and only if nothing fired or there was one timer only,
  and the front timer is then the one live timer without its slot, so `Adjust` fails its assertion for it alone. The
  event loop is proved with either line: as written, up to the first check that fires one of several timers.
- `SiftUp_` computes the parent of slot 0 in unsigned arithmetic and reads outside the vector. `SiftUp` has the code as
  written and says exactly when that happens: it starts at the root, or with a node before the root. For a caller of
  `Add` that is exactly when the new expiry is before every other timer's, in particular for the first timer of all.
  In `Tick` it always happens when firing goes on until at most one of several timers is left. What the stray read
  yields is undefined; the model goes on as if it ended the loop.
- `GetNextTick` stores the wait in a `size_t`, so its test for a negative wait never holds. With a timer left the result
  is negative exactly when the clock has passed the front's expiry by a millisecond since `Tick`; `epoll_wait` then
  waits without limit.
- `Adjust` only sifts down. Its contract says exactly when that restores heap order; `ExtendTime` shows
  that one constant timeout and a clock that does not run backwards make it always enough.
- `dequeue` deletes the old head without asking whether `tail_` still names it. `TailLagsByOne` says exactly when it
  does, and `DeletedTailCanBeRead` that a producer can then be about to read the deleted node. Node identities are
  never reused in the model, so a read of a deleted node sees its last contents.
- A length above 1 MiB makes the server drop the header only. `DecodesWholeFrame` is an equivalence: a frame is taken
  off whole exactly when it respects the limit, and otherwise the payload is what remains in the buffer. By
  `ServerReadsInStepIff` the reader keeps in step with a stream exactly when every frame of it does.
- The pool's semaphore is set to the number of connections asked for, not opened.
  `PopsEmptyQueueIffPartlyOpened` says exactly when a thread can pop an empty queue.
- `remove_client` erases by user. `CloseUnregistersSameUser` says exactly whose registration is lost, and
  `SecondConnectionCanBeLost` gives a run in which it is.
- A login does not ask whether its connection has been closed meanwhile. `LateLoginIsUnsound` gives a run that leaves an
  entry for a closed connection; `AlwaysSoundIff` says for every run exactly when the registry is sound throughout, and
  `RegistryIsSound` names conditions on the schedule.
- `close_conn` tests `is_close_` and then sets it. `UserCountCanBeOff` gives a run of two closers that leaves the count at
  -1; `UserCountExactIff` says for every finished run exactly when the count is right.
- `HandleFriend` does not look at the status it overwrites. `HandledSymmetricIff` says exactly when symmetry survives;
  `FriendshipCanBeOneSided` and `RejectionCanBeOneSided` are runs in which it does not.
- `OnWrite_` can close a connection that has bytes to write although the kernel refused none of its own. It asks for the
  pending bytes after `write` has given up the lock, so other workers may have appended a response or flushed a push;
  and in level-triggered mode a successful write may leave bytes. `OnWrite` has both, and `CanCloseUnrefusedIff` says
  exactly for which steps of other workers and which bytes pending before the call some answers of the kernel lead
  there. `server/src/main.cpp` selects edge-triggered mode.
- A push that is flushed on an HTTP connection makes `iov_[0]` differ from the write buffer. `Write` says exactly when
  (`stale`) and stops there. Pushes go to registered connections, and only protobuf connections register.
- A POST without a content type gains an empty one, and only the first line of a body is read. `RoundTripIff` says exactly
  which requests come back from the parser as they were printed.

## Model

| member | source | states |
|---|---|---|
| `MpscRefinement.RefinesFifo` | server/src/core/mpsc_queue.h:21-71 | for every schedule the invariant holds and the trace (enqueue at the CAS on `next`, dequeue at the head store, empty answers) replays on a sequential FIFO, ending with the linked values |
| `MpscRefinement.StepSimulates` | server/src/core/mpsc_queue.h:21-71 | every atomic action preserves the invariant and is matched by one step of the FIFO |
| `MpscRefinement.LinkSimulates` | server/src/core/mpsc_queue.h:27-33 | a successful CAS on `next` appends exactly the caller's value |
| `MpscRefinement.NullNextIsLast` | server/src/core/mpsc_queue.h:24-28 | a former tail whose `next` is null is the last node and still the tail |
| `MpscRefinement.SwingSimulates` | server/src/core/mpsc_queue.h:30-35 | both tail swings keep the queue and move the tail by one link at most |
| `MpscRefinement.LookSimulates` | server/src/core/mpsc_queue.h:42-47 | an empty answer is given only when the abstract queue is empty, a non-empty one only when it is not |
| `MpscRefinement.TakeSimulates` | server/src/core/mpsc_queue.h:49 | moving the value out of the node does not yet dequeue it |
| `MpscRefinement.StoreSimulates` | server/src/core/mpsc_queue.h:50 | the head store dequeues the front value |
| `MpscRefinement.DeleteSimulates` | server/src/core/mpsc_queue.h:51 | the deleted nodes are always exactly the oldest links |
| `MpscProgress.TailLagsByOne` | server/src/core/mpsc_queue.h:23-52 | in every reachable state the tail is the last node or its predecessor, the head passes it by at most one, and the tail is deleted exactly when the head has passed it and the delete is done |
| `MpscProgress.OldTailIsALink` | server/src/core/mpsc_queue.h:24-28 | a producer dereferences only an allocated node at or before the tail, deleted exactly when the consumer has deleted that far |
| `MpscProgress.PointersOnlyAdvance` | server/src/core/mpsc_queue.h:21-53 | links are only appended; head and tail never move backwards |
| `MpscProgress.HeadCanPassTail` | server/src/core/mpsc_queue.h:27-52 | the bound on the head is attained by a reachable state |
| `MpscProgress.DeletedTailCanBeRead` | server/src/core/mpsc_queue.h:24-51 | a state is reachable in which a producer is about to read the link of a deleted node |
| `MpscProgress.PositionsCountEvents` | server/src/core/mpsc_queue.h:21-53 | list length and head position count the observed enqueues and dequeues |
| `MpscProgress.CallsTakeEffectOnceInOrder` | server/src/core/mpsc_queue.h:21-39 | a producer's calls take effect exactly once each, with their own values, in program order |
| `MpscProgress.FailuresMeanProgress` | server/src/core/mpsc_queue.h:23-38 | from any read of the tail on, list length plus tail position grows by at least the number of attempts the reader then fails |
| `MpscProgress.LockFree` | server/src/core/mpsc_queue.h:23-38 | in every run a producer's failed attempts are at most twice the enqueues completed by all |
| `MpscCompletion.RoundsBalance` | server/src/core/mpsc_queue.h:21-39 | every round of the loop begins with a call, a spurious failure or a failure that `LockFree` bounds |
| `MpscCompletion.RoundsAreBounded` | server/src/core/mpsc_queue.h:21-39 | under every schedule the rounds of a producer are at most its calls, plus its spurious failures, plus twice all enqueues |
| `MpscCompletion.StepIsNearer` | server/src/core/mpsc_queue.h:23-38 | every access of a producer that runs alone brings its return nearer |
| `MpscCompletion.CompletesAlone` | server/src/core/mpsc_queue.h:21-39 | from every reachable state a producer that runs alone without spurious failures returns within eleven accesses, with a waiting value enqueued once |
| `MpscCompletion.DequeuesFront` | server/src/core/mpsc_queue.h:41-53 | an uninterrupted dequeue answers empty if and only if the queue is, and otherwise hands out the front and deletes the old head |
| `Buffers.Buffer.Compact` | server/src/buffer/buffer.cpp:99-102 | the overlapping move keeps the readable bytes |
| `Buffers.Buffer.Enlarge` | server/src/buffer/buffer.cpp:96-97 | growing keeps the readable bytes and yields the stated size |
| `Buffers.Buffer.EnsureWritable` | server/src/buffer/buffer.cpp:4-9 | room is made, contents kept, and the store is replaced exactly when readable plus requested bytes exceed it |
| `Buffers.Buffer.Append` | server/src/buffer/buffer.cpp:36-41 | appends to the byte queue |
| `Buffers.Buffer.Retrieve` | server/src/buffer/buffer.cpp:11-14 | removes from the front |
| `Buffers.Buffer.RetrieveAll` | server/src/buffer/buffer.cpp:21-24 | empties the queue |
| `Buffers.Buffer.ReadFd` | server/src/buffer/buffer.cpp:50-73 | the two-part read appends exactly what was delivered, or nothing on failure |
| `Buffers.Buffer.WriteFd` | server/src/buffer/buffer.cpp:75-86 | the bytes the kernel took, and no others, leave the front |
| `Framing.NetworkOrder` | server/src/handler/protobuf_handler.cpp:67-68 | the length field is in network byte order |
| `Framing.ValueOfBigEndian` | server/src/handler/protobuf_handler.cpp:33-35 | reading a length field gives back the length |
| `Framing.DecodesWholeFrame` | server/src/handler/protobuf_handler.cpp:28-58 | a frame is consumed whole, whatever follows, if and only if it is within the size limit; else only its header goes |
| `Framing.WaitsForWholeFrame` | server/src/handler/protobuf_handler.cpp:29-45 | a partly arrived frame is left alone |
| `Framing.ServerReadsInStep` | server/src/handler/protobuf_handler.cpp:9-58 | for every chunking and interleaving, payloads taken are a prefix of those sent and the buffer is the unread suffix |
| `Framing.ServerReadsInStepIff` | server/src/handler/protobuf_handler.cpp:28-58 | the reader is in step under all chunkings and schedules if and only if every frame respects the limit |
| `Framing.ServerReadsAll` | server/src/handler/protobuf_handler.cpp:9-58 | once all bytes are in, one decoder call per outstanding frame takes them all |
| `Framing.ServerSeesEnvelopesInOrder` | server/src/handler/protobuf_handler.cpp:47-57 | for any parser, envelopes reach the dispatcher in order and a bad payload costs only itself |
| `Framing.PrefixGivesPrefix` | client/network_manager.cpp:84-137 | from any cut of a stream the client's reader gets exactly the frames that end inside it, up to the first one above its limit |
| `Framing.WholeWireGivesAll` | client/network_manager.cpp:84-137 | from a complete stream it gets every payload if and only if none is above its limit |
| `Outgoing.StreamIsWholeFrames` | server/src/core/tcp_connection.cpp:148-221 | in every run the bytes sent followed by the write buffer are a concatenation of whole frames |
| `Outgoing.BytesConserved` | server/src/core/tcp_connection.cpp:186-221 | no byte is lost or made up on the way from queue over buffer to kernel |
| `Outgoing.LogKeepsBothOrders` | server/src/core/tcp_connection.cpp:202-221 | pushes leave in queue order, responses in request order, none dropped or doubled |
| `Outgoing.ClientReadsPrefixOfLog` | client/network_manager.cpp:84-137 | cutting the sent bytes anywhere, the client reads exactly the log items that end before the cut (up to one above its limit): responses in order, and a prefix of the pushes |
| `Outgoing.ClientReadsEverything` | client/network_manager.cpp:84-137 | with nothing left to send, the client has every response and every push if and only if none is above its limit |
| `EndToEnd.HalvesAreRuns` | server/src/core/tcp_connection.cpp:70-99 | a run of both directions is a run of the reader and a run of the sender |
| `EndToEnd.RespondsToTaken` | server/src/handler/protobuf_handler.cpp:9-26 | the responses encoded are the answers to the requests taken, in order |
| `EndToEnd.ClientGetsItsAnswersInOrder` | server/src/core/tcp_connection.cpp:70-221 | for every schedule and cut the client reads exactly the log items that end before the cut, whose responses answer its requests in order, and a prefix of the pushes |
| `EndToEnd.ClientGetsAllAnswers` | server/src/handler/protobuf_handler.cpp:9-26 | once everything has arrived, been processed and been sent, the log holds exactly the answers to all requests and all pushes in order, and the client reads all of it if and only if nothing is above its limit |
| `TcpConnections.FramesAreNotHttp` | server/src/core/tcp_connection.cpp:62-68 | no prefix of a frame stream is taken for HTTP |
| `TcpConnections.RequestsAreHttpIff` | server/src/core/tcp_connection.cpp:62-68 | a printed request is taken for HTTP from its fourth byte on if and only if its method is one of the known ones |
| `TcpConnections.LeavesBytes` | server/src/core/tcp_connection.cpp:181-196 | a loop that ends on a success leaves bytes only in level-triggered mode, and fewer than 10240 |
| `TcpConnections.CanLeaveBytesIff` | server/src/core/tcp_connection.cpp:157-197 | some kernel answers make a write loop succeed and leave bytes if and only if the mode is level-triggered and two bytes or more are pending |
| `TcpConnections.CanCloseUnrefusedIff` | server/src/core/webserver.cpp:237-261 | some kernel answers leave bytes pending unrefused, so that the connection is closed, if and only if another worker appends a response or flushes a push between `write` and `to_write_bytes`, or the mode is level-triggered and two bytes or more are pending |
| `TcpConnections.TcpConnection.EnqueueMessage` | server/src/core/tcp_connection.cpp:202-210 | enqueues the framed payload |
| `TcpConnections.TcpConnection.FlushPendingToBuffer` | server/src/core/tcp_connection.cpp:212-221 | whatever any number of threads enqueue before each dequeue, the flush is a run of queue-to-buffer moves that empties the queue, of a size known from queue and arrivals; tells whether anything was moved |
| `TcpConnections.TcpConnection.WriteBuffered` | server/src/core/tcp_connection.cpp:186-198 | partial writes are a run of the sender with the result of `WriteResult`; bytes remain after a success only in level-triggered mode, and fewer than 10240 |
| `TcpConnections.TcpConnection.SetupIovForHttp` | server/src/core/tcp_connection.cpp:101-117 | the two segments are the buffered header and the file |
| `TcpConnections.TcpConnection.AdvanceIntoFile` | server/src/core/tcp_connection.cpp:165-173 | header dropped, file window advanced by the rest |
| `TcpConnections.TcpConnection.AdvanceInHeader` | server/src/core/tcp_connection.cpp:174-179 | header window and write buffer advance together |
| `TcpConnections.TcpConnection.WritevOnce` | server/src/core/tcp_connection.cpp:158-179 | sent bytes followed by the two segments never change |
| `TcpConnections.TcpConnection.WriteHttp` | server/src/core/tcp_connection.cpp:156-185 | for any answers of the kernel header and file go out in order with the result of `Drain`, the write buffer is the unsent header, and the loop ends |
| `TcpConnections.TcpConnection.Write` | server/src/core/tcp_connection.cpp:148-200 | flush and send: a run of the sender, or an HTTP send, with the result that `WriteResult` gives for the bytes pending before the call; a push breaks the header window exactly when one is flushed on an HTTP connection |
| `TcpConnections.TcpConnection.Interference` | server/src/core/tcp_connection.cpp:70-200 | other workers answer and write in any order; on a protobuf connection the bytes to write afterwards are those of `Meanwhile` |
| `TcpConnections.TcpConnection.OnWrite` | server/src/core/webserver.cpp:237-261 | the exact condition of each verdict with any steps of other workers in between; the connection is closed whenever bytes are pending unrefused |
| `TcpConnections.TcpConnection.DetermineProtocol` | server/src/core/tcp_connection.cpp:72-89 | the first bytes fix the protocol for good |
| `TcpConnections.TcpConnection.TryDecodeMessage` | server/src/handler/protobuf_handler.cpp:28-58 | consumes exactly what the decoder function says |
| `TcpConnections.TcpConnection.EncodeMessage` | server/src/handler/protobuf_handler.cpp:60-70 | the two appends make one framed response |
| `TcpConnections.TcpConnection.ProcessProtobuf` | server/src/handler/protobuf_handler.cpp:9-26 | at most one request is taken and answered by one response |
| `TcpConnections.TcpConnection.ProcessHttp` | server/src/core/tcp_connection.cpp:91-97 | an answer becomes the segments to send |
| `TcpConnections.TcpConnection.ReadOnce` | server/src/core/tcp_connection.cpp:139-144 | a pass of the read loop adds what was delivered to the unread bytes |
| `TcpConnections.TcpConnection.Serve` | server/src/core/tcp_connection.cpp:70-221 | any script of reads, requests, pushes and writes on a new connection is a run of `EndToEnd` in which every call does its work: same bytes sent, buffered, queued and unread |
| `ClientReader.Inbox.FillTo` | client/network_manager.cpp:91-102 | for any results of `recv`, short reads are repeated until the wanted bytes are in, a call answers `r <= 0`, or the loop is stopped: the result of `Fill` |
| `ClientReader.FillsUp` | client/network_manager.cpp:91-102 | whatever the piece sizes, the loop gets all it wants unless the stream ends or a call fails; it is lost if and only if it has less |
| `ClientReader.ReadFrame` | client/network_manager.cpp:86-132 | one header and one body, or the stated reason to stop |
| `ClientReader.ListenerLoop` | client/network_manager.cpp:84-137 | unless stopped, the payloads are exactly the whole frames of the bytes read; if no call fails, those of the whole stream |
| `TimerHeap.SwapKeepsTimers` | server/src/timer/heaptimer.cpp:3-9 | a swap keeps the index exact and the map |
| `TimerHeap.NodesAreTimers` | server/src/timer/heaptimer.h:44-46 | the heap holds each timer of the map once and nothing else |
| `TimerHeap.SameTimersSameNodes` | server/src/timer/heaptimer.cpp:3-38 | what keeps the map keeps the multiset of nodes |
| `TimerHeap.SwapUp` | server/src/timer/heaptimer.cpp:15-18 | one sift-up step leaves only the edge above open |
| `TimerHeap.SwapDown` | server/src/timer/heaptimer.cpp:31-35 | one sift-down step leaves only the edges at the child open |
| `TimerHeap.RootIsLeast` | server/src/timer/heaptimer.cpp:98 | the front of an ordered heap is a minimum |
| `TimerHeap.FirstIff` | server/src/timer/heaptimer.cpp:49-51 | a node that did not sink comes first of all if and only if it is at the root or before the root |
| `TimerHeap.IndexIsUnique` | server/src/timer/heaptimer.h:44-46 | a heap has one exact index only |
| `HeapTimers.ToMillis` | server/src/timer/heaptimer.cpp:99 | the cast truncates, so a timer is due with less than one millisecond left |
| `HeapTimers.HeapTimer.SwapNode` | server/src/timer/heaptimer.cpp:3-9 | swaps two slots and keeps the index exact |
| `HeapTimers.HeapTimer.SiftUp` | server/src/timer/heaptimer.cpp:11-23 | restores order upwards, keeping the map; reads outside the vector if and only if it starts at the root or with a node before it |
| `HeapTimers.HeapTimer.SiftDown` | server/src/timer/heaptimer.cpp:25-38 | restores order downwards; the node moves if and only if its least child is not after it |
| `HeapTimers.HeapTimer.Settle` | server/src/timer/heaptimer.cpp:73-75 | down, or else up, restores order; the stray read happens if and only if the node is strictly first |
| `HeapTimers.HeapTimer.Del` | server/src/timer/heaptimer.cpp:40-55 | removes exactly the victim's id from the map, with line 53 as intended; with the exact condition of the stray read |
| `HeapTimers.HeapTimer.DelAsWritten` | server/src/timer/heaptimer.cpp:40-55 | as written: the index stays exact if and only if the last slot is deleted; else exactly two named entries are wrong; deleting the front leaves the new front as the only live node without its slot; with the exact condition of the stray read |
| `HeapTimers.HeapTimer.Pop` | server/src/timer/heaptimer.cpp:107-110 | removes the front under either form of line 53; the stray read happens if and only if the last node is strictly before the others that stay |
| `HeapTimers.HeapTimer.Adjust` | server/src/timer/heaptimer.cpp:57-61 | sets the id's expiry; heap order survives if and only if it is not before the parent's |
| `HeapTimers.HeapTimer.Push` | server/src/timer/heaptimer.cpp:78-81 | adds the timer; the stray read happens if and only if the heap was empty or the expiry is before the front |
| `HeapTimers.HeapTimer.Add` | server/src/timer/heaptimer.cpp:63-83 | sets the id's expiry, new or not, growing the index as needed; the stray read happens if and only if it comes before every other timer; the doubling overflows if and only if the id is beyond the index and at least 2^30 |
| `HeapTimers.HeapTimer.FrontIsLeast` | server/src/timer/heaptimer.cpp:98 | the front is a timer of least expiry |
| `HeapTimers.HeapTimer.Tick` | server/src/timer/heaptimer.cpp:95-105 | fires what is due, each once, by non-decreasing expiry, and leaves the rest, also while the clock advances; with line 53 as written the index stays exact if and only if nothing fired or there was one timer, and else the front alone has lost its slot |
| `HeapTimers.HeapTimer.GetNextTick` | server/src/timer/heaptimer.cpp:117-125 | under either form of line 53 returns the least remaining wait as converted to `int`, or -1 when no timer is left; with one left, negative if and only if its expiry is a millisecond past |
| `Webservers.Webserver.AddClient` | server/src/core/webserver.cpp:158-172 | the connection is open and has a fresh timer |
| `Webservers.Webserver.CloseConn` | server/src/core/webserver.cpp:151-156 | closes and unregisters, leaving the timer |
| `Webservers.Webserver.DealListen` | server/src/core/webserver.cpp:174-189 | lets in exactly the clients before the first failed accept and before the server is full, and starts their timers within the call |
| `Webservers.Webserver.ExtendTime` | server/src/core/webserver.cpp:203-208 | refreshing needs only a sift down, since no expiry lies after the new one |
| `Webservers.Webserver.CheckTimers` | server/src/core/webserver.cpp:44-48 | closes exactly the descriptors whose timers fire: only such that were silent for the timeout less a millisecond, and all of them; as written it breaks the index if and only if a timer fires that is not the only one |
| `Webservers.Webserver.HandleEvent` | server/src/core/webserver.cpp:119-137 | a hang-up or a close by a worker takes exactly that descriptor out of the open and registered ones; readiness only restarts the timer; the listening socket lets clients in |
| `Webservers.Webserver.HandleBatch` | server/src/core/webserver.cpp:115-138 | every event is handled in order, its connection and timer being there also if closed since; ready ones are restarted and no timer is dropped, with the clock advancing at every event |
| `Webservers.Webserver.Collect` | server/src/core/webserver.cpp:114-117 | the batch is exactly the deliverable events in order |
| `Webservers.Webserver.DoTurn` | server/src/core/webserver.cpp:110-138 | one turn: the timer check, then every event that can be delivered after it |
| `Webservers.Webserver.Start` | server/src/core/webserver.cpp:105-140 | the run follows the script turn by turn, timers first and then exactly the events that can be delivered; as written, up to the first check that breaks the index |
| `EventLoop.OpenIff` | server/src/core/webserver.cpp:105-189 | after any run a descriptor is open if and only if it was open or let in and nothing has closed it since |
| `EventLoop.OpenStep` | server/src/core/webserver.cpp:115-189 | what one happening does to the open descriptors |
| `EventLoop.AdmitsWhileRoom` | server/src/core/webserver.cpp:174-189 | as long as there is room everyone with a new descriptor is let in |
| `EventLoop.AdmitsNoneAfterFailure` | server/src/core/webserver.cpp:174-189 | nobody is let in after a failed accept |
| `SqlConnPool.PoolIsConsistent` | server/src/pool/sqlconnpool.cpp:21-55 | under every schedule queue length, semaphore, waiters and an unposted push balance, and no connection is lent twice or lost |
| `SqlConnPool.RefusedIff` | server/src/pool/sqlconnpool.cpp:35-40 | under every schedule a caller is turned away if and only if every opened connection is lent |
| `SqlConnPool.GetsFront` | server/src/pool/sqlconnpool.cpp:35-48 | a request that nobody interrupts is lent the connection at the front |
| `SqlConnPool.FreesToEnd` | server/src/pool/sqlconnpool.cpp:50-55 | a return that nobody interrupts puts the connection at the end of the queue |
| `SqlConnPool.FullPoolIsSound` | server/src/pool/sqlconnpool.cpp:35-48 | with every connection opened no thread pops an empty queue |
| `SqlConnPool.PopsEmptyQueueIffPartlyOpened` | server/src/pool/sqlconnpool.cpp:21-48 | a pop of an empty queue is reachable if and only if some but not all connections were opened |
| `MessageStore.BuildBatch` | server/src/dao/msg_scylla_dao.cpp:117-155 | the batch is the statements of the single insert on each message, in order |
| `MessageStore.BatchIsInsertEach` | server/src/dao/msg_scylla_dao.cpp:97-155 | for any keys a batch has the effect of inserting message by message |
| `MessageStore.ReplayIsHarmless` | server/src/dao/msg_scylla_dao.cpp:97-169 | applying a batch again changes nothing, statements taken in order |
| `MessageStore.TiedReplayIsHarmless` | server/src/dao/msg_scylla_dao.cpp:97-169 | a retry whose writes tie with those of the attempt before, whole or cut off anywhere, changes nothing if the store settles ties by value |
| `MessageStore.LastWriteIsApply` | server/src/dao/msg_scylla_dao.cpp:117-155 | the rule that the last write wins is application in order |
| `MessageStore.AgreeingTiesAreApply` | server/src/dao/msg_scylla_dao.cpp:117-155 | if the writes of a batch to each row agree, no idempotent tie rule differs from applying them in order |
| `MessageStore.InboxRoundTrip` | server/src/dao/msg_scylla_dao.cpp:190-212 | reading an inbox row gives back the message written |
| `MessageStore.BothInboxesHaveMessage` | server/src/dao/msg_scylla_dao.cpp:54-80 | whatever the keys, sender and receiver find the message, unless one of its two rows replaces the other |
| `MessageStore.InboxAfterInsert` | server/src/dao/msg_scylla_dao.cpp:54-80 | after an insert a user finds the message if and only if it is sender or receiver, and otherwise what was there; no other inbox changes |
| `MessageStore.HistoryAfterInsert` | server/src/dao/msg_scylla_dao.cpp:29-47 | the history of exactly the conversation of sender and receiver gains the message |
| `MessageStore.InboxAfterAll` | server/src/dao/msg_scylla_dao.cpp:97-155 | after a list of messages every user finds exactly its own ones and what they did not replace |
| `MessageStore.RecentIsRead` | server/src/dao/msg_scylla_dao.cpp:176-178 | a message that fewer than 500 others are as new as is in every answer of the query |
| `AsyncMsgWriters.AsyncMsgWriter.DequeueBulk` | server/src/core/mpsc_queue.h:55-65 | takes a full batch off the front, or all there is, while producers go on |
| `AsyncMsgWriters.AsyncMsgWriter.InsertBatch` | server/src/dao/msg_scylla_dao.cpp:97-169 | follows the store's answer: a success was applied; a failure may have been |
| `AsyncMsgWriters.AsyncMsgWriter.Persist` | server/src/dao/async_msg_writer.cpp:40-53 | offers the batch until the first success, four times at most: reported if and only if one of the first four answers is a success; the joint effect is that of one attempt or none |
| `AsyncMsgWriters.AsyncMsgWriter.Turn` | server/src/dao/async_msg_writer.cpp:36-62 | a non-empty queue is served, a batch is given up only after the last retry, and the account of every enqueued message is kept |
| `AsyncMsgWriters.AsyncMsgWriter.DrainQueue` | server/src/dao/async_msg_writer.cpp:64-72 | without producers the drain ends with an empty queue, each batch having met one answer |
| `AsyncMsgWriters.AsyncMsgWriter.WorkerLoop` | server/src/dao/async_msg_writer.cpp:26-75 | every message is offered in exactly one batch, in order; the tables equal one-by-one insertion of the applied batches; batches of the turns are reported or were tried four times |
| `Ids.DecimalRoundTrip` | server/src/utils/id_generator.h:29-35 | decimal printing is injective |
| `Ids.ConvIdIdentifiesPair` | server/src/utils/id_generator.h:29-35 | conversation keys are equal if and only if the unordered pairs are |
| `Ids.ConvIdReads` | server/src/utils/id_generator.h:29-35 | the key reads as the smaller id, an underscore and the larger id |
| `Ids.RandIdDecodes` | server/src/utils/id_generator.h:11-27 | in 64-bit arithmetic an id decodes to its random part and its millisecond modulo 2^42 |
| `Ids.RandIdsEqualIff` | server/src/utils/id_generator.h:11-27 | ids are equal if and only if both parts are |
| `Ids.RandIdsOrdered` | server/src/utils/id_generator.h:11-27 | ids are ordered by millisecond while the offset is below 2^42 |
| `HttpRequests.Parse` | server/src/http/httprequest.cpp:21-60 | the loop computes the parse function and consumes the buffer as it says |
| `HttpRequests.StateNeverGoesBack` | server/src/http/httprequest.cpp:27-57 | on every buffer the state only moves forward |
| `HttpRequests.SplitsRequestLine` | server/src/http/httprequest.cpp:62-74 | a printed request line splits into its parts |
| `HttpRequests.SplitsIff` | server/src/http/httprequest.cpp:62-74 | the pattern matches exactly the lines of three parts without spaces |
| `HttpRequests.RefusedIff` | server/src/http/httprequest.cpp:21-36 | a new request is refused if and only if its first line is no request line |
| `HttpRequests.SplitsHeader` | server/src/http/httprequest.cpp:86-95 | a printed field splits into name and value |
| `HttpRequests.ParsesTightField` | server/src/http/httprequest.cpp:86-95 | a field without the space after its colon is recorded too |
| `HttpRequests.ParsesFields` | server/src/http/httprequest.cpp:39-47 | for any method and body: fields, blank line and body are read to the end of the body's first line |
| `HttpRequests.LastFieldWins` | server/src/http/httprequest.cpp:90 | a name has the value of its last field |
| `HttpRequests.ParseOfPrint` | server/src/http/httprequest.cpp:21-103 | parsing a printed request of any method returns it, with the default-page rewrite and the body as `Received` says |
| `HttpRequests.RoundTripIff` | server/src/http/httprequest.cpp:21-125 | a request comes back whole under every form handler if and only if its body is one line and not one that a POST treats specially |
| `HttpRequests.PageOfRequest` | server/src/http/httprequest.cpp:76-84 | the page asked for: the index for the root, the listed names with `.html`, any other path as it is |
| `Sessions.Server.SetUserId` | server/src/core/tcp_connection.cpp:55-60 | the two actions of a login in a row: the user's entry names the connection, closed or not |
| `Sessions.Server.CloseConn` | server/src/core/tcp_connection.cpp:41-53 | the four actions of a close in a row; closing twice is harmless |
| `Sessions.Server.RemoveClient` | server/src/service/push_service.cpp:13-19 | the user has no entry, present before or not |
| `Sessions.Server.Run` | server/src/core/tcp_connection.cpp:22-60 | any interleaving of the accesses of any threads on a new server leads to the state of the session machine after them |
| `Sessions.CloseAlone` | server/src/core/tcp_connection.cpp:41-53 | an uninterrupted close closes an open connection once and leaves a closed one alone |
| `Sessions.UserCountBalance` | server/src/core/tcp_connection.cpp:22-53 | in every run the counter is the open connections plus decrements to come less double closes |
| `Sessions.UserCountExactIff` | server/src/core/tcp_connection.cpp:41-44 | once all threads are done the counter is the number of open connections if and only if no two threads ever had found the same connection open |
| `Sessions.UserCountCanBeOff` | server/src/core/tcp_connection.cpp:41-44 | a run with the count at -1 and no connection open |
| `SessionRegistry.StepSoundIff` | server/src/service/push_service.cpp:7-19 | from a sound registry an action leads to a sound one if and only if its condition, read off the state before, holds |
| `SessionRegistry.AlwaysSoundIff` | server/src/service/auth_service.cpp:50-57 | for every run the registry is sound throughout if and only if every login met its two conditions |
| `SessionRegistry.RegistryIsSound` | server/src/service/push_service.cpp:7-19 | in runs of single logins, each registered before its connection is closed, every entry points to a connection of its user that is open or about to be unregistered |
| `SessionRegistry.RegistryIsComplete` | server/src/service/push_service.cpp:7-19 | in runs of single logins with no user on two connections every open connection with a user is its entry, unless its login is still to be registered |
| `SessionRegistry.LateLoginIsUnsound` | server/src/service/auth_service.cpp:50-57 | a run of one close and one login after it that leaves an entry for a closed connection |
| `SessionRegistry.CloseUnregistersSameUser` | server/src/core/tcp_connection.cpp:41-53 | closing takes another connection's entry if and only if both have the same user |
| `SessionRegistry.SecondConnectionCanBeLost` | server/src/service/push_service.cpp:13-19 | a run after which an open logged-in connection has no entry |
| `Friends.FriendDao.AddFriend` | server/src/dao/friend_dao.cpp:13-31 | whatever happens between select and insert, the pending row is added exactly if absent |
| `Friends.FriendDao.HandleFriend` | server/src/dao/friend_dao.cpp:33-69 | all queries commit, or none |
| `Friends.StatusOfHandled` | server/src/dao/friend_dao.cpp:39-60 | what every query sees after a request is handled |
| `Friends.StatusOfRequested` | server/src/dao/friend_dao.cpp:17-28 | what every query sees after a request is made |
| `Friends.MessageOfRequested` | server/src/dao/friend_dao.cpp:17-28 | a request is stored with its message unless the pair was known |
| `Friends.MessageStays` | server/src/dao/friend_dao.cpp:13-69 | however a run goes on, a request keeps the message it was made with |
| `Friends.PendingForIsExact` | server/src/dao/friend_dao.cpp:90-115 | exactly the undecided requests are listed, each once and with its message |
| `Friends.HandledSymmetricIff` | server/src/dao/friend_dao.cpp:33-69 | symmetry survives if and only if an acceptance finds its request and a rejection hits no friendship |
| `Friends.FriendshipCanBeOneSided` | server/src/dao/friend_dao.cpp:33-69 | a run of one acceptance without a request that makes a one-sided friendship |
| `Friends.RejectionCanBeOneSided` | server/src/dao/friend_dao.cpp:33-69 | a run that rejects an accepted request and leaves one side of the friendship |
| `Friends.RunIsUnique` | sql/schema.sql:17 | at most one row per ordered pair in every run |
| `Friends.DecidedStaysDecided` | server/src/dao/friend_dao.cpp:13-69 | no decided row becomes pending again |
| `Friends.FriendshipStaysSymmetric` | server/src/dao/friend_dao.cpp:33-69 | if requests are handled only while pending, friendship stays symmetric |

## Left out

- Weak memory: atomic accesses interleave in one order; the acquire and release annotations are not modelled.
- `MpscQueue` keeps deleted nodes readable; reuse of their addresses by the allocator is not modelled.
- HeapTimers.HeapTimer.SiftUp: what a read outside the vector yields; the loop is taken to end there.
- HeapTimers.HeapTimer.Add: what an overflow at line 66 does; the model goes on with the product.
- HeapTimers.HeapTimer.Del: has line 53 as intended; the line as written is `DelAsWritten`.
- Webservers.Webserver.Start: with line 53 of the timer as written, what follows the first check that breaks the index.
- `DoWork` and `Clear` of the timer, which nothing else in the server needs.
- TcpConnections.TcpConnection.Write: stops when a push is flushed on an HTTP connection; what `writev` then sends is not modelled.
- Payloads of 4 GiB and more, whose length field wraps: the framing theorems assume smaller ones.
- Wake-up of a connection through epoll, and the `events_` cache: only the safety of the byte stream is proved.
- AsyncMsgWriters.AsyncMsgWriter.WorkerLoop: applies the statements of a batch in order; for other tie rules see `AgreeingTiesAreApply`.
- Primary keys of the message tables: their schema is not part of the repository, so every key function is allowed; what each user finds is stated for keys that tell users, conversations and messages apart.
- Form decoding and user lookup of a POST, which are a parameter of the parser.
- Building HTTP responses (`stat`, `mmap`, status pages): header and file are parameters.
- Webservers.Webserver.constructor: a server without a timeout, which keeps no timers.
- The join of friend rows with the user table, and timestamps of rows.
- Data races beyond interleavings of single accesses, and the lifetime of connection objects.
- Protobuf serialisation, MySQL, Scylla and JWT calls, logging, thread pool and user interface.
