# Verified models of the repository's data structures and of its ZooKeeper client

The repository bundles several data structures written from scratch and one network client.
This project models them in Dafny, in the form the code has, and proves what they are for.
`dafny verify dfyconfig.toml` checks everything.

* **ZooKeeper client** (`Pipeline`, `PipelineSafety`, `PipelineOutcomes`, `ZHandle`,
  `LinkedQueue`, `Framing`, `Link`, `Connection`).
  The request pipeline is a system of a client, two FIFO wires and a server that answers in
  order; its steps are the sections the client runs under its locks, and lost connections may
  happen at any point.  The theorems speak of every run: `PipelineSafety` of order and conservation,
  `PipelineOutcomes` of what callers, callbacks and watchers are told.  `ZHandle` is the handle as an object
  over the linked lists of `LinkedQueue`, whose methods are proved to take exactly those steps;
  `Framing` goes down to bytes and partial sends and receives, and `Link` is a sender and a
  receiver over bytes.  `Connection` puts handle, links and server together: each of its methods
  adds the step it takes to a run of the system, so the theorems about runs hold of the bytes.
* **Pool allocator** (`Storage`, `PoolSpec`, `PoolRelease`, `Pool`, `ObjectPool`).  Memory is
  a map from word addresses to words; the free list is threaded through the free chunks and
  the block list through the ends of the blocks, as in the code.  The system allocator is an
  oracle that returns a fresh region or 0.
* **Red-black tree** (`RedBlackTree`, `RbTree`).  Nodes are objects with parent links and one
  shared sentinel.  `RedBlackTree` has the trees and places the nodes stand for and the colour
  arithmetic of each case; `RbTree` has the pointer code, proved against it.
* **Hash table, iterator and watch tables** (`Chains`, `HashTable`, `Watchers`).
* **Interval tree** (`IntervalTree`), **record encoding** (`Jute`).
* **Digests** (`ByteOrder`, `Sha256`, `Md5`, `Gost`): buffering, padding, counters and checksum
  around an arbitrary compression function.

Where the code does not do what it is meant to, the code is modelled as it is, a method or lemma
on a concrete input is proved to show the failure, and the exact condition is proved:

* `zoo_add_auth` may put a frame in front of a half-sent one (`FrontQueueBehindStartedHead`);
  the stream survives exactly if the bytes that are out and the new frame commute (`QueueFront`).
  For an auth frame in front of another frame that means exactly if nothing is out
  (`FrontQueueSafeIffUnsent`), unless the other is an auth frame of the same length with eight
  bytes or more out (`AuthBehindAuth`).
* `delete_child` of the red-black tree moves a value but not its key (`DeletedKeyStays`), and
  deleting a root that has only a left child leaves a red root (`DeletedRootLeavesRed`), below
  which the next insert asks for the colour of an uncle that is not there (`NoUncleToAsk`); when
  each happens is stated on the tree before the call (`DeleteValue`).  `delete_value` on an
  empty tree reads through a null root; the model demands a root.
* `findContained` loses intervals that end before they begin (`IllFormedIsSkipped`); which
  interval is lost in which tree is `ContainedExactIff`.  A tree built with bounds over an
  unsorted list can lose overlapping intervals too (`UnsortedIsLost`); which ones is
  `OverlappingExactIff`.
* A null string is written but refused on reading, and a bool other than 0 and 1 comes back
  changed; `SurvivesIff` names exactly these inputs.  The doubling loop of `resize_buffer` does
  not end for a length of 2^30 + 1 (`ResizeNeverEnds`); exactly when it ends is `ResizeEndsIff`,
  and exactly when it leaves room is `RoomIff`.
* `sha256_hash` carries at most once into the high count word, and counts 2^33 bytes as 2^32
  (`CountMisses`); exactly when the count is right is `CountUpIff`.

## Model

| member | source | states |
|---|---|---|
| `PipelineSafety.RepliesComeInOrder` | zookeeper_driver/driver/src/zookeeper.c:2172-2281 | in every run of client, wires and server, through any errors and reconnects: the reply at the head of `to_process` belongs to the oldest outstanding request, so neither the out-of-order branch nor the assertion is reached; a handshake is expected exactly when one comes; only a connected session has a half-sent head |
| `PipelineSafety.EveryRequestOnce` | zookeeper_driver/driver/src/zookeeper.c:2400-2422 | in every run each issued request is in exactly one of `sent_requests`, `completions_to_process` or the finished log, once |
| `PipelineSafety.EndsInOrder` | zookeeper_driver/driver/src/zookeeper.c:1141-1202 | in every run callbacks come in the order of the calls; a request that ended with a header, real or made up, saw its own xid; `outstanding_sync` is the number of waiting callers in `sent_requests` |
| `PipelineSafety.QuietMeansDone` | zookeeper_driver/driver/src/zookeeper.c:2155-2292 | when nothing is in flight nothing is outstanding: every issued request has ended or is ready for delivery, across any number of lost connections |
| `PipelineSafety.RunKeepsInv` | zookeeper_driver/driver/src/zookeeper.c:2155-2292 | every run keeps ledger, shape and order invariants together |
| `PipelineSafety.OrderApply` | zookeeper_driver/driver/src/zookeeper.c:2640-2645 | every step keeps the order invariant: the xids of `sent_requests` are those of the unprocessed replies, the server's wire, the server, the client's wire and `to_send`, in this order |
| `PipelineSafety.LedgerApply` | zookeeper_driver/driver/src/zookeeper.c:2400-2422 | every step keeps the ledger: for each kind of request, the ended, the deliverable and the outstanding ones together are those issued, in order; headers match; `outstanding_sync` counts |
| `PipelineSafety.ShapeApply` | zookeeper_driver/driver/src/zookeeper.c:1679-1765 | every step keeps session state, socket and wires consistent: what can be on the wires in each session state |
| `PipelineSafety.OrderReceive` | zookeeper_driver/driver/src/zookeeper.c:1717-1757 | receiving a reply or the connect response keeps the order invariant; the frames put in front on connect answer no request |
| `PipelineSafety.OrderMatched` | zookeeper_driver/driver/src/zookeeper.c:2219-2277 | a reply in order takes the first xid off both sides of the order invariant |
| `PipelineSafety.HandleErrorFrame` | zookeeper_driver/driver/src/zookeeper.c:1204-1237 | an error empties `sent_requests`, `to_send` and `to_process` and closes the connection |
| `PipelineSafety.LedgerFreeCompletions` | zookeeper_driver/driver/src/zookeeper.c:1141-1202 | failing all outstanding requests loses none and tells each one its own xid |
| `PipelineOutcomes.OutcomesInOrder` | zookeeper_driver/driver/src/zookeeper.c:1141-1237 | in every run callbacks, waiting callers, pings and watchers have been told, or will be, exactly what the steps say, in that order: a step that brings the connection down tells every outstanding request its code and the application the end of a session it knew, a reply goes whole to the oldest request, a watch event becomes one completion |
| `PipelineOutcomes.WhyItEnded` | zookeeper_driver/driver/src/zookeeper.c:1161-1198 | in every run a request that has ended was outstanding at some step; either that step brought the connection down with a code, which the request was told (a callback by a header with its own id, zxid -1 and the code), or the request was the oldest and was told the next reply |
| `PipelineOutcomes.FreedTold` | zookeeper_driver/driver/src/zookeeper.c:1141-1202 | failing all outstanding requests tells each one, in order, the code it is failed with, and nobody else anything |
| `PipelineOutcomes.ErrorTold` | zookeeper_driver/driver/src/zookeeper.c:1217-1237 | an error tells of the end of the session if it was connected or is dead, and then fails the outstanding requests with its code |
| `PipelineOutcomes.WatchEventsKept` | zookeeper_driver/driver/src/zookeeper.c:2187-2201 | in every run the watch events the server has sent on the present connection are, in order, those whose completion is ready or delivered, those received and those on the wire |
| `PipelineOutcomes.LastZxidIs` | zookeeper_driver/driver/src/zookeeper.c:2176-2181 | `last_zxid` is the last positive zxid of all the replies read in a run |
| `PipelineOutcomes.HandshakeDecides` | zookeeper_driver/driver/src/zookeeper.c:1721-1752 | a connect response with another session id than the client has ends the session; any other connects, and the credentials stand first in the queue, then the watches, then what has waited |
| `PipelineOutcomes.SessionStays` | zookeeper_driver/driver/src/zookeeper.c:1679-1765 | over any run a session id once set never changes, and an expired or refused session stays so |
| `PipelineOutcomes.OneRequest` | zookeeper_driver/driver/src/zookeeper.c:2155-2292 | there is a run in which a first connection is made and any request is queued, sent, answered and ended with what the server said |
| `ZHandle.ProcessAllIsRun` | zookeeper_driver/driver/src/zookeeper.c:2172-2281 | the reply loop on a reachable state is that many process steps of the system, so all run theorems hold of it; it empties the queue |
| `ZHandle.Handle.SubmitRequest` | zookeeper_driver/driver/src/zookeeper.c:2400-2422 | given what the test made before the lock has said, queues the entry and the frame together, even if the session has died since; the new state is the step `Submit` |
| `ZHandle.Handle.MayCall` | zookeeper_driver/driver/src/zookeeper.c:2633-2636 | the test the calls make before they take the lock |
| `ZHandle.Handle.FreeCompletionList` | zookeeper_driver/driver/src/zookeeper.c:1141-1202 | the list changes hands as a whole, and the loop over it equals the recursive specification `FreeCompletions` on the whole handle |
| `ZHandle.Handle.CloseOnError` | zookeeper_driver/driver/src/zookeeper.c:1217-1237 | the new state is the step `HandleError` |
| `ZHandle.Handle.QueuePreamble` | zookeeper_driver/driver/src/zookeeper.c:1317-1398 | set-watches goes to the front first, then the auth frames before it; the rest of `to_send` is kept |
| `ZHandle.Handle.ReceivePacket` | zookeeper_driver/driver/src/zookeeper.c:1679-1765 | the new state is the step `Receive`, for a reply, a matching handshake and an expired session |
| `ZHandle.Handle.ProcessOne` | zookeeper_driver/driver/src/zookeeper.c:2172-2281 | one turn of the reply loop is the step `ProcessReply`, with the verdict `Judge` gives |
| `ZHandle.Handle.MatchReply` | zookeeper_driver/driver/src/zookeeper.c:2219-2277 | a reply against the head of `sent_requests`: it ends that entry if the xids agree; otherwise the entry goes back and the connection is failed, and with no entry nothing changes |
| `ZHandle.Handle.ProcessReplies` | zookeeper_driver/driver/src/zookeeper.c:2172-2281 | the reply loop equals `ProcessAll`; without an error it empties `to_process` |
| `ZHandle.Handle.ProcessCompletions` | zookeeper_driver/driver/src/zookeeper.c:2083-2112 | delivers every ready completion once, in order |
| `LinkedQueue.Queue.Enqueue` | zookeeper_driver/driver/src/zookeeper.c:964-985 | adding at either end of the linked list with `head` and `last` is adding at that end of a sequence |
| `LinkedQueue.Queue.Dequeue` | zookeeper_driver/driver/src/zookeeper.c:938-962 | taking the head of the linked list is taking the first element; an empty list gives nothing |
| `LinkedQueue.Queue.TakeAll` | zookeeper_driver/driver/src/zookeeper.c:1141-1150 | the list moves to another list head, node by node the same, and the first is empty |
| `Framing.FramesArrive` | zookeeper_driver/driver/src/zookeeper.c:1022-1133 | however sends and receives are split, the frames that have arrived whole are a prefix of those queued, and all of them once every byte is read and the queue is empty |
| `Framing.ReadInOneWay` | zookeeper_driver/driver/src/zookeeper.c:1076-1133 | a byte stream of length-prefixed frames can be taken apart in one way only |
| `Framing.Sender.SendBuffer` | zookeeper_driver/driver/src/zookeeper.c:1022-1068 | what the wire carries and will carry stays the same with any partial sends; how much of the head is out; 1 means all of it, 0 not all; -1 exactly if the first send that is not taken whole fails |
| `Framing.Sender.RemoveSent` | zookeeper_driver/driver/src/zookeeper.c:954-962 | a head that is wholly out leaves the queue, and what the wire will carry stays the same |
| `Framing.Sender.Flush` | zookeeper_driver/driver/src/zookeeper.c:3247-3310 | flushing, with or without a timeout, loses and reorders nothing; queue, result and number of turns are those of `Flushed`; with a turn for each buffer and a socket that is ready and takes what it is offered the queue is empty and all its bytes are on the wire; when nothing fails it stops because the session is not connected, the queue is empty or, without a timeout, a head that was offered was not taken whole |
| `Framing.FlushEmpties` | zookeeper_driver/driver/src/zookeeper.c:3260-3305 | a socket that is ready and takes all it is offered empties the queue, one buffer a turn |
| `Framing.FlushStops` | zookeeper_driver/driver/src/zookeeper.c:3292-3303 | without a timeout every buffer before some k is taken whole, each at its turn, and the k-th, if there is one, was offered and not taken whole; it and those behind it are left, and the result is a lost connection exactly if that send failed |
| `Framing.FlushEnds` | zookeeper_driver/driver/src/zookeeper.c:3260-3305 | each result has its reason in the last turn: a timeout, an error of `poll`, a failed send; success means an empty queue, no more turns or, without a timeout, a head not taken whole |
| `Framing.OutIff` | zookeeper_driver/driver/src/zookeeper.c:1022-1068 | a buffer is out after a send exactly if the socket took all it was offered |
| `Framing.Sender.QueueFront` | zookeeper_driver/driver/src/zookeeper.c:964-985 | with only the head started, the wire still carries the frames queued exactly if the bytes that are out commute with the new frame |
| `Framing.Receiver.RecvBuffer` | zookeeper_driver/driver/src/zookeeper.c:1076-1133 | exactly the bytes that are missing of the length, and then of the payload, are read, as far as they are there, and the bytes read stay the frames received and the started one; 1 exactly when a non-empty frame is complete, -1 exactly when nothing more comes of what was asked for; an empty frame reads as end of stream |
| `Framing.Receiver.QueueReceived` | zookeeper_driver/driver/src/zookeeper.c:1718-1757 | the finished frame is appended to the received ones and nothing of it is left over |
| `Framing.FrontQueueBehindStartedHead` | zookeeper_driver/driver/src/zookeeper.c:3409-3410 | counterexample, as a proved method: an auth packet goes in front of a read request of which the length is out; the first frame on the wire is then one that nobody queued |
| `Framing.FrontQueueSafeIffUnsent` | zookeeper_driver/driver/src/zookeeper.c:3409-3410 | for every auth frame, and every frame at the head except an auth frame of the same length with eight bytes or more out: the bytes that are out commute with the auth frame if and only if none is out |
| `Framing.AuthBehindAuth` | zookeeper_driver/driver/src/zookeeper.c:3409-3410 | for frames of the same length, and so for that exception: they commute if and only if the two frames agree in what is out and the new one, turned round there, is itself |
| `Framing.FrontThenSend` | zookeeper_driver/driver/src/zookeeper.c:3409-3410 | for all frames and any part of the first that is out: sending both leaves that part, the whole new frame and the rest on the wire |
| `Framing.HeadStarted` | zookeeper_driver/driver/src/zookeeper.c:1022-1068 | a queue with a started head splits into what is out of it and what is left of it |
| `Link.ArrivedHasLeft` | zookeeper_driver/driver/src/zookeeper.c:1022-1133 | while the head is not wholly out, every frame that has arrived is one that has left the queue |
| `Link.Link.Send` | zookeeper_driver/driver/src/zookeeper.c:1022-1068 | seen as whole frames, one send leaves queue and wire alone or moves the head of the queue to the end of the wire; which of them, and the result, is what the socket says |
| `Link.Link.Receive` | zookeeper_driver/driver/src/zookeeper.c:1076-1133 | seen as whole frames, one receive changes nothing or takes the oldest frame off the wire; all that can be read is |
| `Link.Link.NothingInFlight` | zookeeper_driver/driver/src/zookeeper.c:1022-1133 | when every byte sent has been read and the head is unsent, no frame is under way |
| `Link.Link.SendStep` | zookeeper_driver/driver/src/zookeeper.c:1022-1068 | on bytes, `send_buffer` takes one of the two send steps of the run model |
| `Link.Link.PushPacketFront` | zookeeper_driver/driver/src/zookeeper.c:964-985 | on bytes, a packet in front of an unsent queue is the packet at the front of the run model's queue |
| `Link.Link.PushPacket` | zookeeper_driver/driver/src/zookeeper.c:964-985 | on bytes, a queued packet is the packet at the end of the run model's queue |
| `Link.Link.TakePacket` | zookeeper_driver/driver/src/zookeeper.c:1076-1133 | on bytes, the server takes the oldest packet under way or nothing |
| `Link.Link.TakeReply` | zookeeper_driver/driver/src/zookeeper.c:1709-1716 | on bytes, the client takes the oldest packet of the wire back or nothing |
| `Connection.HeadersComeBack` | zookeeper_driver/driver/include/zookeeper.jute.h:144-148 | headers written as xid, zxid and error in 4, 8 and 4 bytes are read back, for every 32-bit and 64-bit value, so packets can be told from their bytes |
| `Connection.Begin` | zookeeper_driver/driver/src/zookeeper.c:2155-2292 | a connection with a new handle, new links and that code is valid, its run being empty |
| `Connection.Connection.Submit` | zookeeper_driver/driver/src/zookeeper.c:2619-2655 | on lists and bytes, a call is the step of the run model, or none if its test failed |
| `Connection.Connection.StartConnect` | zookeeper_driver/driver/src/zookeeper.c:1540-1640 | starting to connect is the connect step |
| `Connection.Connection.Prime` | zookeeper_driver/driver/src/zookeeper.c:1455-1487 | with both links begun anew and the connect request on the way, the handle, the queue that waits behind it and the wires take the prime step |
| `Connection.Connection.AddAuth` | zookeeper_driver/driver/src/zookeeper.c:3370-3413 | with nothing of the head out, an auth frame put in front is the add-auth step, on lists and bytes |
| `Connection.Connection.Send` | zookeeper_driver/driver/src/zookeeper.c:1679-1706 | any partial send is one of the two send steps; one that fails is followed by the error step, which resets both links; which step, with how many bytes, is what the socket says |
| `Connection.Connection.ClientReceive` | zookeeper_driver/driver/src/zookeeper.c:1709-1765 | bytes read complete no packet, and no step is taken, or they complete the oldest one, whose decoding the handle receives, with the frames it then puts in front of the bytes; a failed receive is the error step; all that can be read is |
| `Connection.Connection.Process` | zookeeper_driver/driver/src/zookeeper.c:2172-2281 | one turn of the reply loop is the process step; from a state reached by any bytes the verdict is never out of order |
| `Connection.Connection.ServerReceive` | zookeeper_driver/driver/src/zookeeper.c:1022-1068 | the server's side of the bytes the client sends: no packet is complete, and no step is taken, or the oldest one is, which is the connect request and its answer, or a request taken |
| `Connection.Connection.ServerAnswer` | zookeeper_driver/driver/src/zookeeper.c:2217-2228 | the oldest request the server holds is answered, as the client relies on: the answer step, with the reply's frame on the way back |
| `Connection.Connection.ServerPush` | zookeeper_driver/driver/src/zookeeper.c:2187-2210 | a watch event, or the answer to an auth or set-watches frame, may come between any replies: the push step |
| `Connection.Connection.Fail` | zookeeper_driver/driver/src/zookeeper.c:1204-1237 | an error empties the lists, resets both links and is the error step |
| `Connection.Connection.Deliver` | zookeeper_driver/driver/src/zookeeper.c:2083-2112 | delivering a completion is the deliver step |
| `Connection.Connection.BytesKeepOrder` | zookeeper_driver/driver/src/zookeeper.c:2155-2292 | so of the handle's lists, whatever bytes went which way: the next reply belongs to the oldest outstanding request, callbacks come in the order of the calls, the sync count is exact and each request is in one place once |
| `Connection.Connection.BytesTell` | zookeeper_driver/driver/src/zookeeper.c:1141-1237 | and callers, callbacks and watchers have been told, or will be, what the steps taken say, in order |
| `Connection.LengthIsInt` | zookeeper_driver/driver/src/zookeeper.c:1029-1031 | the length in front of a frame is written like any int of a record |
| `Storage.Store.FindPrev` | PreferDB/allocated/include/simple_segregated_storage.hpp:227-242 | the last free chunk not above the address, with all later ones above it, or 0 |
| `Storage.Store.Segregate` | PreferDB/allocated/include/simple_segregated_storage.hpp:254-284 | a block is threaded into a list of all its whole chunks in address order, ending at `end`, and nothing else is written |
| `Storage.Store.AddOrderedBlock` | PreferDB/allocated/include/simple_segregated_storage.hpp:109-124 | the chunks of a block join the free list at their place; the list stays spaced, ordered and acyclic |
| `Storage.Store.Malloc` | PreferDB/allocated/include/simple_segregated_storage.hpp:132-141 | the first free chunk leaves the list |
| `Storage.Store.OrderedFree` | PreferDB/allocated/include/simple_segregated_storage.hpp:151-168 | the chunk joins the free list at its place; order is kept |
| `Storage.Store.TryMallocN` | PreferDB/allocated/include/simple_segregated_storage.hpp:301-317 | n neighbours in a row are found, or the chunk before the first gap is reported |
| `Storage.Store.FindRun` | PreferDB/allocated/include/simple_segregated_storage.hpp:328-337 | the search stops at the first stretch of n neighbours; skipping a whole short stretch misses none |
| `Storage.Store.MallocN` | PreferDB/allocated/include/simple_segregated_storage.hpp:325-341 | 0 if and only if no n free chunks lie side by side; else the lowest such run, and exactly its chunks leave the list |
| `Storage.FitsIffContiguous` | PreferDB/allocated/include/simple_segregated_storage.hpp:301-317 | in an ordered spaced list, n chunks from an address on are all free exactly when they are n neighbours in the list |
| `Storage.NoFit` | PreferDB/allocated/include/simple_segregated_storage.hpp:328-337 | if no earlier stretch fits, every fit is at or behind the current one |
| `Pool.AllocSize` | PreferDB/allocated/include/pool.hpp:323-336 | the chunk size: whole words, at least one word, at least the request, less than a word more; a small request gets exactly one word |
| `Pool.NumChunks` | PreferDB/allocated/include/pool.hpp:774-777 | as few chunks as hold n objects: at least their size together, and less than one chunk more |
| `Pool.GrowSize` | PreferDB/allocated/include/pool.hpp:727-731 | the block size to ask for next stays between the current one and its double; without a maximum it doubles; below the maximum it is the double or the largest that the maximum allows, above it stays |
| `Pool.Pool.constructor` | PreferDB/allocated/include/pool.hpp:346-357 | a new pool is valid and empty |
| `Pool.Pool.FindBlockPlace` | PreferDB/allocated/include/pool.hpp:739-763 | where a block goes in the address-ordered block list |
| `Pool.Pool.InsertBlock` | PreferDB/allocated/include/pool.hpp:739-763 | a new block is linked in at its place and only header words are written |
| `Pool.Pool.OrderedMalloc` | PreferDB/allocated/include/pool.hpp:414-422 | hands out the lowest free chunk, or the head of a new block, which is then held, and the size to ask for next grows by the rule; 0 exactly when there is no free chunk and the requests to the system fail; the partition into free and live chunks is kept |
| `Pool.Pool.OrderedMallocNeedResize` | PreferDB/allocated/include/pool.hpp:705-766 | retries with half the size above 4; on failure chunks and blocks are as before and the size to ask for next is what was tried last, else the head of the new block is handed out, the block is held and the size grows by the rule |
| `Pool.Pool.OrderedMallocN` | PreferDB/allocated/include/pool.hpp:769-848 | hands out the lowest run of chunks long enough for n objects if there is one, else the head of a new block, which is then held; what is handed out holds n objects and less than a chunk more; 0 exactly for n = 0 or when there is no run and the requests to the system fail; the size to ask for next in each case |
| `Pool.Pool.OrderedFree` | PreferDB/allocated/include/pool.hpp:446-452 | the chunk is free again and exactly it left the live ones |
| `Pool.Pool.OrderedFreeN` | PreferDB/allocated/include/pool.hpp:473-486 | all chunks of the allocation are free again and exactly it left the live ones |
| `Pool.Pool.ClientWrite` | PreferDB/allocated/include/pool.hpp:446-486 | a holder may write anything inside its live chunk: no list word is there, the pool stays valid |
| `Pool.Pool.CheckBlock` | PreferDB/allocated/include/pool.hpp:550-572 | the inner walk tells whether the block's chunks are exactly the next free chunks |
| `Pool.Pool.ReleaseBlock` | PreferDB/allocated/include/pool.hpp:601-620 | a wholly free block and its chunks leave both lists, and only they |
| `Pool.Pool.WalkOver` | PreferDB/allocated/include/pool.hpp:550-624 | one turn of the lockstep walk keeps its invariant, for a kept and for a released block |
| `Pool.Pool.ReleaseMemory` | PreferDB/allocated/include/pool.hpp:506-628 | exactly the blocks all of whose chunks are free are released, with exactly their chunks; order is kept; true iff some block was released; growth starts over; a block stays exactly if one of its chunks was not free |
| `PoolSpec.LiveApart` | PreferDB/allocated/include/pool.hpp:414-486 | no two live allocations overlap, byte for byte |
| `PoolSpec.RunInOneBlock` | PreferDB/allocated/include/pool.hpp:769-848 | a run of chunks never crosses from one block into another |
| `Pool.Pool.AllocationsApart` | PreferDB/allocated/include/pool.hpp:414-486 | in every valid pool no two live allocations overlap, byte for byte |
| `Pool.Pool.AllocationInBlock` | PreferDB/allocated/include/pool.hpp:414-486 | in every valid pool a live allocation lies within one block that is held and shares no chunk with the free list |
| `PoolSpec.OwnedBytes` | PreferDB/allocated/include/pool.hpp:338-342 | no word inside a live chunk is a free-list cell or a block header |
| `PoolRelease.WalkDone` | PreferDB/allocated/include/pool.hpp:506-628 | when either list is exhausted the walk has separated kept from released blocks exactly |
| `PoolRelease.KeptIff` | PreferDB/allocated/include/pool.hpp:506-628 | a block is kept if and only if one of its chunks is not free, and released if and only if all are |
| `PoolRelease.AllFreeMeansNext` | PreferDB/allocated/include/pool.hpp:548-572 | a wholly free block's chunks come next in the free list, so the lockstep comparison finds them |
| `ObjectPool.Objects.Malloc` | PreferDB/allocated/include/object_pool.hpp:102-109 | an object is one live chunk; 0 exactly when no chunk is free and the requests to the system fail |
| `ObjectPool.Objects.Free` | PreferDB/allocated/include/object_pool.hpp:110-117 | the object's chunk is free again |
| `ObjectPool.Objects.Destroy` | PreferDB/allocated/include/object_pool.hpp:204-260 | the destructor runs the element destructor exactly once on each live object and on nothing else, and frees each block once |
| `ObjectPool.Objects.DestroyBlock` | PreferDB/allocated/include/object_pool.hpp:227-241 | in a block, exactly the chunks that are not free are destroyed, in order |
| `ObjectPool.DestroyedAreLive` | PreferDB/allocated/include/object_pool.hpp:204-260 | the chunks that are not free are the live objects, each once |
| `RbTree.Rbtree.constructor` | service_module/algorithm/trees/red_black/rbtree.hpp:100-107 | an empty tree with a black sentinel is valid |
| `RbTree.Rbtree.SwingRight` | service_module/algorithm/trees/red_black/rbtree.hpp:150-183 | the pointer writes of a right rotation: which four nodes change, to what, and the root; no other node is written |
| `RbTree.Rbtree.SwingLeft` | service_module/algorithm/trees/red_black/rbtree.hpp:185-222 | the same for a left rotation, including the branch for a node without a parent |
| `RbTree.Rbtree.RotateRight` | service_module/algorithm/trees/red_black/rbtree.hpp:150-183 | the nodes, parent links included, now form the rotated tree at the place above |
| `RbTree.Rbtree.RotateLeft` | service_module/algorithm/trees/red_black/rbtree.hpp:185-222 | the same, mirrored |
| `RbTree.Rbtree.Recolor` | service_module/algorithm/trees/red_black/rbtree.hpp:454-459 | red uncle: black is pulled down from the grandparent, nothing else changes |
| `RbTree.Rbtree.TurnUp` | service_module/algorithm/trees/red_black/rbtree.hpp:460-489 | black uncle: each of the four cases gives a red-black tree with the same in-order content |
| `RbTree.Rbtree.InsertCase` | service_module/algorithm/trees/red_black/rbtree.hpp:443-490 | from one red node that may be below red: a red-black tree with the same content; it climbs two levels each time |
| `RbTree.Rbtree.InsertBelow` | service_module/algorithm/trees/red_black/rbtree.hpp:401-441 | the new list is the old one with k written, in search order |
| `RbTree.Rbtree.Insert` | service_module/algorithm/trees/red_black/rbtree.hpp:127-141 | the tree stays search-ordered and red-black with consistent links, and its map is the old map with x := y |
| `RbTree.Rbtree.ParentLinks` | service_module/algorithm/trees/red_black/rbtree.hpp:150-222 | in a valid tree links down and up agree at every node, and only the root has no parent |
| `RbTree.Rbtree.Balanced` | service_module/algorithm/trees/red_black/rbtree.hpp:401-490 | the height is at most twice the logarithm of the number of nodes plus one |
| `RbTree.Rbtree.RaiseSibling` | service_module/algorithm/trees/red_black/rbtree.hpp:341-353 | red sibling: it is rotated above the parent; the place stays one black short |
| `RbTree.Rbtree.DeleteByNephew` | service_module/algorithm/trees/red_black/rbtree.hpp:367-398 | a red nephew: the missing black is found, content unchanged |
| `RbTree.Rbtree.DeleteCase` | service_module/algorithm/trees/red_black/rbtree.hpp:333-399 | from a place one black short, even when the node there is the shared sentinel: a red-black tree with the same content |
| `RbTree.Rbtree.DeleteOneChild` | service_module/algorithm/trees/red_black/rbtree.hpp:289-331 | exactly the node goes; the result is red-black if and only if the node was not a root with a real child |
| `RbTree.Rbtree.GetSmallestChild` | service_module/algorithm/trees/red_black/rbtree.hpp:250-255 | the leftmost node of the subtree |
| `RbTree.Rbtree.DeleteChild` | service_module/algorithm/trees/red_black/rbtree.hpp:257-287 | found iff a search for the key ends at a node; the key goes exactly if that node has no right subtree, else the next key goes and its value moves up; the colours survive exactly if the key is not at a root with only a left child |
| `RbTree.Rbtree.DeleteValue` | service_module/algorithm/trees/red_black/rbtree.hpp:143-146 | the same on the whole tree, the colour condition on the links of the root before the call |
| `RbTree.DeletedKeyStays` | service_module/algorithm/trees/red_black/rbtree.hpp:282 | counterexample, as a proved method: after inserting 1 and 2 and deleting 1 the key 1 is still there and 2 is gone |
| `RbTree.DeletedRootLeavesRed` | service_module/algorithm/trees/red_black/rbtree.hpp:300-306 | counterexample, as a proved method: deleting a root with only a left child leaves a tree that is one red node |
| `RbTree.NoUncleToAsk` | service_module/algorithm/trees/red_black/rbtree.hpp:452-454 | as a proved method: the next key hung below that root has a red parent and no uncle, whose colour `insert_case` reads |
| `RedBlackTree.FitsIsRedBlack` | service_module/algorithm/trees/red_black/rbtree.hpp:443-490 | a tree that fits its place makes the whole tree red-black |
| `RedBlackTree.HeightIsLogarithmic` | service_module/algorithm/trees/red_black/rbtree.hpp:401-490 | equal black height and no red below red bound the height by 2 log2(n+1) |
| `RedBlackTree.RecoloredIsHot` | service_module/algorithm/trees/red_black/rbtree.hpp:454-459 | recolouring moves the only possible violation two levels up |
| `RedBlackTree.StraightenedFits` | service_module/algorithm/trees/red_black/rbtree.hpp:476-487 | the single-rotation cases repair the tree and keep the content |
| `RedBlackTree.LiftedFits` | service_module/algorithm/trees/red_black/rbtree.hpp:462-475 | the double-rotation cases repair the tree and keep the content |
| `RedBlackTree.RaisedIsShort` | service_module/algorithm/trees/red_black/rbtree.hpp:341-353 | after the red-sibling case the same place is short and the sibling is black |
| `RedBlackTree.LoweredIsShortOrFits` | service_module/algorithm/trees/red_black/rbtree.hpp:355-366 | with black nephews: the parent's place is short, or the tree is repaired if the parent was red |
| `RedBlackTree.NearTurnedIsShort` | service_module/algorithm/trees/red_black/rbtree.hpp:369-385 | turning the near nephew up leaves a red far nephew and the same content |
| `RedBlackTree.BorrowedFits` | service_module/algorithm/trees/red_black/rbtree.hpp:386-397 | the far-nephew case repairs the tree and keeps the content |
| `RedBlackTree.OnlyThatPair` | service_module/algorithm/trees/red_black/rbtree.hpp:308-328 | bypassing a node removes exactly its pair from the in-order content |
| `RedBlackTree.MovedHere` | service_module/algorithm/trees/red_black/rbtree.hpp:282-283 | swapping only the values and deleting the successor removes the successor's key, not the searched one |
| `Chains.PushFront` | zookeeper_driver/driver/src/hashtable.c:136-159 | a new head of its own bucket keeps every entry in exactly its own chain |
| `Chains.Cut` | zookeeper_driver/driver/src/hashtable.c:181-211 | bypassing one entry of a chain removes exactly it |
| `Chains.EachOnce` | zookeeper_driver/driver/src/hashtable_itr.c:42-76 | going through the buckets meets every entry exactly once |
| `HashTable.CreateHashtable` | zookeeper_driver/driver/src/hashtable.c:28-53 | NULL exactly above 2^30 or without memory, else an empty table |
| `HashTable.Table.constructor` | zookeeper_driver/driver/src/hashtable.c:28-53 | the table is empty and its length is the least listed size above the requested one |
| `HashTable.PrimesGrow` | zookeeper_driver/driver/src/hashtable.c:15-25 | the listed sizes grow, so the first one above a size is the least |
| `HashTable.Table.Search` | zookeeper_driver/driver/src/hashtable.c:162-177 | what the map of the entries gives |
| `HashTable.Table.Insert` | zookeeper_driver/driver/src/hashtable.c:136-159 | the map with k := v, through any rehash; without memory nothing changes; every entry sits in bucket h mod length and `entrycount` is their number; the table grows exactly when the count passes the load limit, there is memory and a larger size is listed |
| `HashTable.Table.Remove` | zookeeper_driver/driver/src/hashtable.c:180-211 | the map without k, and the value it had |
| `HashTable.Table.Expand` | zookeeper_driver/driver/src/hashtable.c:70-126 | the same entries in a table of the next prime length, each in its new bucket; at the last prime, and without memory, nothing changes |
| `HashTable.Table.MoveBucket` | zookeeper_driver/driver/src/hashtable.c:88-95 | an old bucket is emptied into the new buckets and no entry is lost or doubled |
| `HashTable.Table.Unchain` | zookeeper_driver/driver/src/hashtable.c:196-206 | exactly the entry is unlinked, through the bucket head or its predecessor |
| `HashTable.Iterator.constructor` | zookeeper_driver/driver/src/hashtable_itr.c:11-35 | all entries are still to be visited, each once |
| `HashTable.Iterator.Advance` | zookeeper_driver/driver/src/hashtable_itr.c:41-76 | the visit goes on behind the current entry; the result says whether something is left |
| `HashTable.Iterator.Remove` | zookeeper_driver/driver/src/hashtable_itr.c:86-112 | exactly the current entry leaves the table, the visit goes on behind it and the remembered predecessor is right |
| `HashTable.Iterator.SearchKey` | zookeeper_driver/driver/src/hashtable_itr.c:115-142 | the iterator stands on the entry of the key in the given table if it is there, else it is unchanged |
| `HashTable.Sweep` | zookeeper_driver/driver/src/hashtable_itr.c:41-112 | for every choice of removing or stepping over: each entry present at the start is met once and exactly the chosen ones are gone |
| `Watchers.MergedUnion` | zookeeper_driver/driver/src/zk_hashtable.c:228-236 | copying one list into another is union without duplicates |
| `Watchers.WatchList.Search` | zookeeper_driver/driver/src/zk_hashtable.c:150-159 | found iff an equal watcher and context is in the list |
| `Watchers.WatchList.Add` | zookeeper_driver/driver/src/zk_hashtable.c:161-178 | the watch goes to the front unless it is there; the result says which |
| `Watchers.WatchList.CopyFrom` | zookeeper_driver/driver/src/zk_hashtable.c:228-236 | the loop is adding one by one, in order |
| `Watchers.WatchTable.InsertWatcher` | zookeeper_driver/driver/src/zk_hashtable.c:180-200 | the path's list has the watch once; all other paths as before; the result is 0 only for a duplicate |
| `Watchers.WatchTable.MoveTo` | zookeeper_driver/driver/src/zk_hashtable.c:260-270 | the path's watches are merged into the delivery list and the path is gone |
| `Watchers.WatchTable.CopyTo` | zookeeper_driver/driver/src/zk_hashtable.c:238-250 | the list is joined by every watch of the table, each once, and the table is unchanged |
| `Watchers.WatchTable.CollectKeys` | zookeeper_driver/driver/src/zk_hashtable.c:203-218 | exactly the keys of the table, each once |
| `Watchers.WatchTable.Clean` | zookeeper_driver/driver/src/zk_hashtable.c:123-136 | the table is emptied |
| `Watchers.Watches.CollectForSession` | zookeeper_driver/driver/src/zk_hashtable.c:289-296 | the default watch and every registered watch, each once; no table changes |
| `Watchers.Watches.CollectForPath` | zookeeper_driver/driver/src/zk_hashtable.c:297-315 | the watches of the path in the selected tables, each once; the path leaves exactly those tables |
| `Watchers.Watches.CollectWatchers` | zookeeper_driver/driver/src/zk_hashtable.c:285-316 | exactly those owed the event are returned, without duplicates, and the three tables take the step of that event |
| `Watchers.Watches.ActivateWatcher` | zookeeper_driver/driver/src/zk_hashtable.c:326-337 | the three tables take the step of that registration: exactly the table selected for the result code gets the watch |
| `Watchers.OneShot` | zookeeper_driver/driver/src/zk_hashtable.c:297-315 | over any sequence of registrations and events: a watch is told of events on its path at most as often as it stood there and was activated |
| `Watchers.ToldAtMostAsActivated` | zookeeper_driver/driver/src/zk_hashtable.c:161-337 | from empty tables on, no watch is told more often by events on its path than it was activated there |
| `Watchers.ToldByTheNextEvent` | zookeeper_driver/driver/src/zk_hashtable.c:285-337 | an activated watch is owed the next event that selects its table, whatever happens in between |
| `Watchers.WhatFires` | zookeeper_driver/driver/src/zk_hashtable.c:285-337 | exactly which events, by number, a registration with a result code makes its watch owed, for each of the three kinds of registration |
| `Watchers.OneOp` | zookeeper_driver/driver/src/zk_hashtable.c:161-316 | an operation adds a watch only by activating it and tells it only by removing it |
| `Watchers.OnceIsEnough` | zookeeper_driver/driver/src/zk_hashtable.c:180-200 | activating the same watch twice leaves the tables as once does |
| `IntervalTree.MedianSplit` | service_module/algorithm/trees/interval_tree/IntervalTree.h:165-182 | at the start of the median of well-formed intervals, at most half go to each side and some stay |
| `IntervalTree.PartsTogether` | service_module/algorithm/trees/interval_tree/IntervalTree.h:172-182 | every interval goes to exactly one of the three parts |
| `IntervalTree.PartFacts` | service_module/algorithm/trees/interval_tree/IntervalTree.h:172-182 | the parts of a sorted list are sorted; left ones end before the centre, right ones begin after it and do not end before it |
| `IntervalTree.SplitAtMedian` | service_module/algorithm/trees/interval_tree/IntervalTree.h:165-182 | the split of a list with all of the above |
| `IntervalTree.HeightBound` | service_module/algorithm/trees/interval_tree/IntervalTree.h:184-189 | halving on both sides bounds the height by log2(n)+1 |
| `IntervalTree.DepthBound` | service_module/algorithm/trees/interval_tree/IntervalTree.h:123-191 | the depth asked for bounds the levels, over any list |
| `IntervalTree.Node.constructor` | service_module/algorithm/trees/interval_tree/IntervalTree.h:123-191 | the tree holds exactly the input; over a sorted list, or without bounds, its lists are sorted and on well-formed input its height is at most log2(n)+1; at every level, as `Built` says, a short list or the last depth makes a leaf, and any other list is dealt out around the start of its middle interval, the list being sorted first exactly without bounds |
| `IntervalTree.Node.FindOverlapping` | service_module/algorithm/trees/interval_tree/IntervalTree.h:193-211 | appends what `Answer` gives: on sorted lists exactly the multiset of intervals of the tree that overlap the query, for any intervals at all |
| `IntervalTree.Node.FindContained` | service_module/algorithm/trees/interval_tree/IntervalTree.h:213-231 | appends what `Answer` gives: on sorted lists only intervals inside the query and all the well-formed ones |
| `IntervalTree.OverlappingExactIff` | service_module/algorithm/trees/interval_tree/IntervalTree.h:193-211 | for every tree the constructor can build: an interval is returned, every copy of it, to every query with start <= stop that it overlaps if and only if no list that holds it begins with a later start |
| `IntervalTree.ContainedExactIff` | service_module/algorithm/trees/interval_tree/IntervalTree.h:213-231 | for every tree: an interval is returned to every query with start <= stop that it lies in if and only if no list that holds it begins after its end and it is in no left subtree before whose centre it does not begin |
| `IntervalTree.AnswerBound` | service_module/algorithm/trees/interval_tree/IntervalTree.h:193-231 | a query returns nothing more often than the tree holds it, and nothing that does not match |
| `IntervalTree.OrderedKeeps` | service_module/algorithm/trees/interval_tree/IntervalTree.h:193-231 | with sorted lists both conditions hold, the second for every well-formed interval |
| `IntervalTree.AskForOne` | service_module/algorithm/trees/interval_tree/IntervalTree.h:213-231 | a tree over one interval, asked with start <= stop for what lies inside a query that the interval lies in, returns it if and only if the query reaches to its start, as for every well-formed one |
| `IntervalTree.AgreesWithFilter` | service_module/algorithm/trees/interval_tree/IntervalTree.h:193-231 | over well-formed intervals both answers are those of a linear filter of the input |
| `IntervalTree.IllFormedIsSkipped` | service_module/algorithm/trees/interval_tree/IntervalTree.h:214 | counterexample, as a proved method: the interval from 5 to 1 lies in the query from 3 to 3 and is not returned |
| `IntervalTree.UnsortedIsLost` | service_module/algorithm/trees/interval_tree/IntervalTree.h:148-182 | counterexample, as a proved method: over 4 to 10, 5 to 6 and 1 to 9 with bounds, the query from 2 to 3 does not return the last, which overlaps it |
| `Jute.Htonll` | zookeeper_driver/driver/src/recordio.c:83-97 | the eight bytes are swapped end for end |
| `Jute.OArchive.ResizeBuffer` | zookeeper_driver/driver/src/recordio.c:48-61 | the length is the first doubling that is large enough and the written bytes are kept; without memory the buffer is gone |
| `Jute.OArchive.MakeRoom` | zookeeper_driver/driver/src/recordio.c:75-78 | afterwards the value fits; `off <= len`, `len` is 128 times a power of two and an int32 |
| `Jute.ResizeEndsIff` | zookeeper_driver/driver/src/recordio.c:51-53 | in wrapping int32 arithmetic the doubling loop ends if and only if a length of 2^30 is enough |
| `Jute.ResizeNeverEnds` | zookeeper_driver/driver/src/recordio.c:51-53 | counterexample: from 128 on, no number of doublings in wrapping int32 arithmetic reaches 2^30 + 1 |
| `Jute.RoomIff` | zookeeper_driver/driver/src/recordio.c:48-61 | with the sum of length and need wrapped too: the first length the loop stops at leaves room if and only if the sum is at most 2^30; above, the loop does not end or stops at once without room |
| `Jute.RecordFits` | zookeeper_driver/driver/src/recordio.c:48-61 | any record of at most 2^29 bytes can be written without exceeding that |
| `Jute.OArchive.SerializeInt` | zookeeper_driver/driver/src/recordio.c:71-82 | the four native bytes, turned round, are appended: the number they are, high byte first, is the value in two's complement |
| `Jute.OArchive.SerializeLong` | zookeeper_driver/driver/src/recordio.c:99-110 | swapping the native bytes appends the eight bytes high byte first |
| `Jute.IntOnWire` | zookeeper_driver/driver/src/recordio.c:71-82 | an int is written in two's complement, high byte first, and any four bytes are read like that |
| `Jute.LongOnWire` | zookeeper_driver/driver/src/recordio.c:99-110 | the same for eight bytes |
| `Jute.OArchive.SerializeBool` | zookeeper_driver/driver/src/recordio.c:119-131 | one byte, 1 for any non-zero value |
| `Jute.OArchive.SerializeBuffer` | zookeeper_driver/driver/src/recordio.c:133-158 | length and bytes are appended, -1 alone for the null buffer |
| `Jute.OArchive.SerializeString` | zookeeper_driver/driver/src/recordio.c:159-180 | length and bytes are appended, -1 alone for a null string, for which an error is not reported |
| `Jute.IArchive.DeserializeInt` | zookeeper_driver/driver/src/recordio.c:189-199 | what `Decode` says, with the same error and offset |
| `Jute.IArchive.DeserializeBuffer` | zookeeper_driver/driver/src/recordio.c:235-257 | what `Decode` says, including the offset after an error and without memory |
| `Jute.IArchive.DeserializeString` | zookeeper_driver/driver/src/recordio.c:258-279 | what `Decode` says, including the offset after an error and without memory |
| `Jute.ReadBack` | zookeeper_driver/driver/src/recordio.c:189-279 | a value written between any bytes is read back and exactly its bytes are consumed |
| `Jute.ReadsWhatIsThere` | zookeeper_driver/driver/src/recordio.c:189-279 | reading succeeds only on bytes that some value is written as, and gives that value; a bool is any byte |
| `Jute.WhyRefused` | zookeeper_driver/driver/src/recordio.c:189-279 | for any bytes: each error exactly when it is due, for bytes missing, a negative string length or a buffer length below -1, and the offset then |
| `Jute.SurvivesIff` | zookeeper_driver/driver/src/recordio.c:71-279 | decoding what was encoded gives the value back unchanged if and only if it is not a null string and, for a bool, 0 or 1 |
| `Jute.RecordRoundTrip` | zookeeper_driver/driver/src/recordio.c:71-279 | any sequence of values read with the same types gives the same values and consumes exactly the written bytes |
| `Jute.WriteRecord` | zookeeper_driver/driver/src/recordio.c:314-329 | a new archive holds exactly the encoding of the values written |
| `Jute.ReadRecord` | zookeeper_driver/driver/src/recordio.c:297-312 | reading it back gives the values and ends at the end of the record |
| `Sha256.PaddedLength` | service_module/algorithm/hash/HashManager/algo/sha2.cpp:316-351 | the padding of section 5.1.1 of FIPS 180-4 fills whole blocks and is the shortest that does |
| `Sha256.PaddedBytes` | service_module/algorithm/hash/HashManager/algo/sha2.cpp:316-351 | what stands where in the padded message: message, one 1 bit, zeros, and the bit count modulo 2^64 high byte first |
| `Sha256.PaddedInjective` | service_module/algorithm/hash/HashManager/algo/sha2.cpp:316-351 | two messages below 2^61 bytes that pad to the same are the same |
| `Sha256.Context.constructor` | service_module/algorithm/hash/HashManager/algo/sha2.cpp:252-256 | a new context stands for the empty message |
| `Sha256.Context.Hash` | service_module/algorithm/hash/HashManager/algo/sha2.cpp:285-302 | for any split into updates: whole blocks are compressed and the rest waits; the byte count is that of the message modulo 2^64 if and only if the low count word plus the length is below 2^33, as it is for every call with less than 4 GB |
| `Sha256.CountUpIff` | service_module/algorithm/hash/HashManager/algo/sha2.cpp:290-291 | one carry is right for the 64-bit count if and only if the low word plus the length is below 2^33 |
| `Sha256.CountMisses` | service_module/algorithm/hash/HashManager/algo/sha2.cpp:290-291 | counterexample: 2^33 bytes to a new context are counted as 2^32 |
| `Sha256.Context.PadTail` | service_module/algorithm/hash/HashManager/algo/sha2.cpp:317-326 | swapping, and masking by the two tables, leaves the waiting bytes, the 1 bit and zeros, whatever was in the buffer |
| `Sha256.Context.MaskWord` | service_module/algorithm/hash/HashManager/algo/sha2.cpp:306-326 | masking by the two tables keeps the waiting bytes of the word, puts the byte 80 behind them and clears the rest |
| `Sha256.Masked` | service_module/algorithm/hash/HashManager/algo/sha2.cpp:306-326 | the masks and bits of the tables, bit by bit, do that to any word |
| `Sha256.Context.End` | service_module/algorithm/hash/HashManager/algo/sha2.cpp:316-351 | the hash is the compression function folded over the padded message, whatever stale words the buffer held |
| `Sha256.LengthBytes` | service_module/algorithm/hash/HashManager/algo/sha2.cpp:348-349 | the two length words are the bit count as a 64-bit big-endian number |
| `Md5.PaddedLength` | service_module/algorithm/hash/HashManager/algo/md5.cpp:244-246 | the padding of sections 3.1 and 3.2 of RFC 1321 fills whole blocks and is the shortest that does |
| `Md5.PaddedBytes` | service_module/algorithm/hash/HashManager/algo/md5.cpp:231-254 | what stands where in the padded message, with the bit count modulo 2^64 low word and low byte first |
| `Md5.PaddedInjective` | service_module/algorithm/hash/HashManager/algo/md5.cpp:231-254 | two messages below 2^61 bytes that pad to the same are the same |
| `Md5.Context.CountBits` | service_module/algorithm/hash/HashManager/algo/md5.cpp:205-209 | the two words count the bits of the message modulo 2^64 |
| `Md5.Context.Update` | service_module/algorithm/hash/HashManager/algo/md5.cpp:196-229 | for any split into updates: whole blocks are transformed and the rest waits |
| `Md5.Context.Final` | service_module/algorithm/hash/HashManager/algo/md5.cpp:231-254 | the state is the transformation folded over the padded message |
| `Md5.LengthWords` | service_module/algorithm/hash/HashManager/algo/md5.cpp:237-239 | the saved count words are the words of the 64-bit length, low-order first |
| `Gost.Context.AddToSum` | service_module/algorithm/hash/HashManager/algo/gosthash.cpp:282-307 | word by word with carry, the checksum becomes the sum modulo 2^256 |
| `Gost.Context.Block` | service_module/algorithm/hash/HashManager/algo/gosthash.cpp:275-318 | one block is compressed, added to the checksum and counted |
| `Gost.Context.Update` | service_module/algorithm/hash/HashManager/algo/gosthash.cpp:322-348 | the data is appended to the message, whether a full block is fed at once or held back |
| `Gost.Context.Final` | service_module/algorithm/hash/HashManager/algo/gosthash.cpp:353-369 | the result is the hash of the zero-padded blocks, the length and the checksum, for any split into updates |
| `Gost.ZeroPaddedIs` | service_module/algorithm/hash/HashManager/algo/gosthash.cpp:353-369 | the filling is zeros, as few as make whole blocks |
| `Gost.LengthBlockIs` | service_module/algorithm/hash/HashManager/algo/gosthash.cpp:353-369 | as a 256-bit number the length block is the bit length modulo 2^64 |
| `Gost.OneHash` | service_module/algorithm/hash/HashManager/algo/gosthash.cpp:353-369 | that determines the hash: two contexts with the same message agree |

## Left out

- Sockets, `poll`, name resolution, clocks and logging: sends and receives are nondeterministic byte counts and outcomes.
- `zookeeper_close` and teardown: the runs stop before close; no memory failure is modelled in the client.
- The completions given to `zoo_add_auth` are user code and not modelled.
- Callbacks run as steps of their own, as the multi-threaded adaptor runs them; a callback that calls back into the client in the middle of `zookeeper_process` is not modelled.
- Request ids: wrap-around of the 32-bit counter onto the reserved ids -1, -2, -4 and -8 is not modelled; requests get any other id.
- The connect request is taken to fit the socket buffer in one send, as the client itself demands; the connect response, which the client reads as one record of 40 bytes with the length in front, is read as the frame it is.
- `zoo_add_auth` is a step only while the head is unsent; the other case is what `FrontQueueSafeIffUnsent` and `AuthBehindAuth` are about.
- A packet on the bytes of `Connection` is its header in any code that can be decoded, such as `HeaderOf`, and no body; the server is taken to queue whole packets in the order it answers.
- The queue of buffers in `Framing.Sender` and the received packets in `Framing.Receiver` are sequences; the handle's lists are the linked ones of `LinkedQueue`.
- Pool: the unordered operations, `malloc_need_resize`, `purge_memory` and `set_max_size` are left out; address and size arithmetic is unbounded, so overflow of `size_t` is not modelled; a pointer and a size take one word of 8 bytes each.
- Red-black tree: keys and values are integers; `inorder` and the destructor of the tree are left out, and a deleted node is forgotten rather than freed.
- Hash table: keys are compared with equality, the hash function is any function of the key, so the mixing in `hash` is not modelled; the load limit is any function of the table size; duplicate keys, which the code warns against, are excluded.
- HashTable.Table.Insert: a key that is in the table already is excluded; the code calls what a later search gives for such a key undefined.
- HashTable.Table.Expand: when there is no memory for the new table there is none for `realloc` either; the branch where `realloc` succeeds clears memory through an entry of the new table that has not been set.
- Watchers: a list of watches is a sequence that the methods update rather than linked nodes; delivery itself calls user code.
- IntervalTree.Node.constructor: nodes are immutable after construction and the caller's vector is not sorted as a side effect; copying trees is left out.
- Jute: `char` is signed, as a bool byte is read; records generated from the protocol description are not part of this model.
- Jute.OArchive.MakeRoom: a sum of length and need above 2^30 is excluded; between 2^30 and 2^31 the doubling loop does not end, and from 2^31 on the wrapped sum is negative, nothing grows and the copy would overrun the buffer (`RoomIff`).
- Jute.OArchive.ResizeBuffer: lengths above 2^30, for which the loop does not end (`ResizeEndsIff`), are excluded.
- RbTree.Rbtree.DeleteValue: an empty tree is excluded; the code reads through the null root there.
- Digests: the compression functions, their constant tables and the extraction of the digest bytes are left out; words are 32 bits wide; SHA-384, SHA-512 and the other digests repeat the same buffering with other sizes.
- Sha256.Context.PadTail: the host is little-endian; on a big-endian host the byte swaps are absent.
