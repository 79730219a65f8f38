# A verified model of mevent

mevent is a small multi-threaded HTTP and WebSocket server. This project models its hard parts in Dafny and
proves what they promise, for all inputs, all schedules and all interleavings:

- **WebSocket framing and the byte pipeline** (`WebSocketFrame`, `WebSocketWire`, `WebSocket`, `Io`, `Connection`,
  `Pipeline`): a frame printer, an incremental decoder, a write queue over a socket that takes what it likes, and the
  theorem that none of the chunking shows.
- **The HTTP request parser** (`HttpParser`, `HttpResume`, `HttpGrammar`, `HttpRoundTrip`, `HttpCuts`, `HttpText`,
  `Request`): the state machine with its look-ahead, an independent line-by-line reference, resumability, print/parse
  round trips, the exact answer for every request in every division into reads, and the driver under size limits.
- **Connection lifecycle under threads** (`Lifecycle`, `UnlockedUpdate`, `UpdateRaces`, `TaskQueue`, `Lists`,
  `ConnectionPool`, `IdleTimeout`): a step relation over any number of connections and threads, the one list update
  that the code makes without the connection's mutex, the intrusive lists on the heap, the task queues with their
  condition variable, and the timeout thread.
- **Routing** (`SearchTree`, `TernarySearchTree`, `Routing`): a ternary search tree in memory, proved against maps.
- **Codecs** (`Base64`, `Base64Text`, `FormUrlencoded`): loops proved against RFC 4648 and RFC 3986, with their
  inverse laws.

`dafny verify dfyconfig.toml` checks everything.

## How the model is made

- What the source changes step by step is a class or a loop here: connections, requests, WebSockets, pool lists,
  tree nodes, result lists and codec loops. Each such method is proved equal to a function of its inputs or of the
  old state, and the theorems are about those functions. Long loop bodies are split into several methods.
- A byte is an integer from 0 to 255. Masks and shifts are division and remainder; exclusive or is defined bit by
  bit. `uint32_t` and `uint64_t` arithmetic wraps explicitly where it can.
- `read` and `write` follow a script of events (some bytes, EAGAIN, an error, end of file). Every theorem holds for
  every script, so for everything a peer and a kernel can do.
- Threads: a state says where every thread is and who holds every mutex, and a run is any sequence of enabled steps.
  Any thread may do what any thread of the server does, so one event thread, one timeout thread and N workers of
  each kind are a special case. In `Lifecycle` the update of the active list before a read (event_loop.cpp:144) is
  made with the connection's mutex held. The code makes it before it takes that mutex, in two sections of the list's
  mutex. `UnlockedUpdate` models that, with any steps of other threads between the sections: `UnlockedSafety` is
  the exact condition under which the safety results still hold, and `FailingUpdate` a run in which they do not.
  `UpdateRaces` tells from the state before the update whether it can go wrong.
- Tables, alphabets and bit layouts that printers, parsers and references share are stated a second time, in plain
  bytes, bits and characters, against which they are proved (`WebSocketWire`, `HttpText`, `Base64Text`,
  `Bytes.XorIsExclusiveOr`, "In plain text" in `FormUrlencoded`).

Four findings differ from what one would expect of the code. Each has its exact condition and an input.

- A read boundary inside the first nine bytes of a header line that starts with c or C makes the parser skip the
  line's leading c's (request.cpp:514-517). `HttpCuts.CutSurvivesIff` says which boundaries change the answer, for
  all fields; a Content-Length can be lost (`LostLengthExample`) or gained (`GainedLengthExample`).
- For the same reason a header line in which only c's stand before the first carriage return (be it the line's end)
  is taken for the blank line if fewer than nine bytes follow from its start: the header then ends there
  (`SwallowedExample`) or the request is refused (`RefusedExample`). `HttpRoundTrip.ParserMeetsReference` is exact.
- A frame whose header and declared length together reach 2^64 passes both size checks (websocket.cpp:210-216) if
  the sum of the cache and that length, taken modulo 2^64, is within the limit. If the frame is masked, the payload
  loop then runs off the buffer (websocket.cpp:218-222); if not, `insert` gets an iterator range whose end has wrapped
  (websocket.cpp:224). The model calls that outcome `Overflowed`. `WebSocketFrame.OverflowsIff` is its exact condition,
  `CanOverflowIff` says from the cache and the limit alone whether any frame can do it, and `OverflowExample` and
  `NoLimitExample` are streams that do.
- A reset of a connection between the two sections of an update erases it from a list it is not on
  (`UnlockedUpdate.FailingUpdate`). In the model any thread may reset any open connection, so by
  `UpdateRaces.UpdateSafeIff` every update of an active connection can be spoilt as soon as there is a second thread,
  wherever the other threads are.

## Model

| member | source | states |
|---|---|---|
| Bytes.NumberOfDigits | websocket.cpp:190-200 | reading big-endian bytes gives back the number whose bytes they are |
| Bytes.XorIsExclusiveOr | websocket.cpp:220 | bit `i` of the result is set if and only if bit `i` of exactly one of the two bytes is, for all bytes and bits |
| Bytes.ByteOfBits | websocket.cpp:220 | so the result is determined: a byte is known by its eight bits |
| WebSocketFrame.EightDigits | websocket.cpp:77-84 | the eight shifted bytes of a 64-bit length are its base-256 digits |
| WebSocketFrame.MaskTwice | websocket.cpp:218-222 | masking twice with one key is the identity (section 5.3 of RFC 6455) |
| WebSocketFrame.HeaderStable | websocket.cpp:161-208 | a header read from a prefix is the header read from any longer buffer |
| WebSocketFrame.StepStable | websocket.cpp:158-248 | once a frame is decided, later bytes cannot change the decision |
| WebSocketFrame.DecodeAppend | websocket.cpp:157-251 | decoding a stream is decoding a part, then the remainder with the cache left behind |
| WebSocketFrame.DecodeBounds | websocket.cpp:214-216 | cache and delivered messages never exceed `max_buffer_size_`, and what is left over is a suffix of the input |
| WebSocketFrame.OverflowsIff | websocket.cpp:210-216 | a frame passes both size checks and runs off the buffer if and only if the sum of header and declared length reaches 2^64 and that of cache and declared length, wrapped or not, is within the limit, whatever the limit |
| WebSocketFrame.CanOverflowIff | websocket.cpp:210-216 | some frame does that if and only if the cache is not empty (and at most 14 bytes above the limit) or the limit is 2^64 - 14 or more |
| WebSocketFrame.EmptyCacheNeverOverflows | websocket.cpp:210-216 | without fragments in the cache that never happens below a limit of 2^64 - 14 |
| WebSocketFrame.OverflowExample | websocket.cpp:210-222 | at the default limit it happens on a fragment of one byte and a frame that declares 2^64 - 1 bytes |
| WebSocketFrame.NoLimitExample | websocket.cpp:210-224 | with the limit 2^64 - 1 one frame that declares 2^64 - 14 bytes does it on an empty cache |
| WebSocketFrame.DecodeLeavesWaiting | websocket.cpp:158-212 | an accepting decoder stops only where the next frame is incomplete |
| WebSocketFrame.ChunkingInvisible | websocket.cpp:136-155 | for every division of every byte stream, tasks, verdict, cache and unread bytes equal those of the whole stream |
| WebSocketFrame.HeaderRoundTrip | websocket.cpp:165-208 | the parsed header of a printed frame is its flag, opcode, key, size and length, in each of the three length forms |
| WebSocketFrame.FrameRoundTrip | websocket.cpp:157-251 | a printed frame, masked or not, with any bytes behind it, is taken whole with its payload unmasked |
| WebSocketFrame.FragmentsReassemble | websocket.cpp:203-233 | any division of a message into data frames, each masked with any key or not, yields exactly one task with the message and an empty cache (section 5.4 of RFC 6455) |
| WebSocketWire.HeaderOnWire | websocket.cpp:165-208 | for every first byte, mask bit, length field of one, three or nine bytes, and key, the header that these bytes mean |
| WebSocketWire.FrameOnWire | websocket.cpp:157-251 | for every frame of any opcode, masked or not, in any length form, the tasks it delivers (PONG, CLOSE and unknown opcodes too), the cache it leaves, and the payload, bit by bit against wire and key |
| WebSocketWire.ServerFrameIs | websocket.cpp:54-91 | the frames the server prints, in plain bytes |
| WebSocketWire.UnmaskedExample | websocket.cpp:157-251 | the unmasked text message and ping of section 5.7 of RFC 6455 |
| WebSocketWire.MaskedExample | websocket.cpp:157-251 | the masked text message and pong of section 5.7 of RFC 6455 |
| WebSocket.MakeFrame | websocket.cpp:54-91 | appends, in plain bytes, 0x80 plus the opcode, the length in one, three or nine bytes, whichever is the fewest, high byte first, and the message |
| WebSocket.WebSocket.ParseHeader | websocket.cpp:159-208 | reads the header by index arithmetic as the pure decoder does |
| WebSocket.WebSocket.Unmask | websocket.cpp:218-222 | in place, every bit of payload byte `i` becomes the exclusive or of itself and that bit of key byte `i % 4`, and no byte in front or behind changes |
| WebSocket.WebSocket.Deliver | websocket.cpp:226-245 | pushes the task and keeps or clears the cache, opcode by opcode (PONG, CLOSE and unknown opcodes keep it) |
| WebSocket.WebSocket.ParseOne | websocket.cpp:158-248 | one round of the loop is one step of the decoder, and shortens the buffer |
| WebSocket.WebSocket.Parse | websocket.cpp:157-251 | tasks, verdict, buffer and cache are those of the recursive decoder on buffer and cache before the call |
| WebSocket.WebSocket.ReadData | websocket.cpp:136-155 | a run of short reads is one decode of everything received, nothing is lost, and it stops only where the socket does, dry for AGAIN and failed or closed for CLOSE, or at a refused frame |
| WebSocket.WebSocket.Reset | websocket.cpp:39-52 | empties buffer and cache, clears the four callbacks and restores the default limit |
| Io.RecvKeeps | connection.cpp:198-235 | what a successful read returns, followed by what is still to come, is what was to come |
| Io.SendTakesPrefix | connection.cpp:159-196 | whatever the kernel answers, it has taken a prefix of what it was offered |
| Io.SendIs | connection.cpp:159-196 | a write loop sends all of the data if the socket has room for it before its first EAGAIN or failure, and else what there is room for; it then fails if that answer is a failure, and returns how much is out if it is EAGAIN |
| Io.SendFailsIff | connection.cpp:159-196 | it fails if and only if the last answer it has met is an error or a `write` of 0 bytes |
| Connection.FlushConserves | connection.cpp:36-66 | accepted bytes followed by the unsent remainder are what was queued; after a failure the kernel holds a prefix |
| Connection.FlushStopsWhenFull | connection.cpp:41-51 | a flush that stops early has met EAGAIN: until then bytes keep moving |
| Connection.FlushFailsIff | connection.cpp:41-57 | a flush fails if and only if the last answer it has met is an error or a `write` of 0 bytes |
| Connection.NoFailure | connection.cpp:41-57 | so partial writes and EAGAIN never make it fail |
| Connection.FlushDrains | connection.cpp:41-57 | with room for every buffer, all of the queue goes out |
| Connection.RunConserves | connection.cpp:36-66 | over every run of enqueues and flushes, accepted bytes and unsent remainder are everything enqueued, until the first error |
| Connection.Connection.WriteData | connection.cpp:143-157 | queues the data behind everything else, unless it is empty or the connection is closed |
| Connection.Connection.Writen | connection.cpp:159-196 | returns -1 if and only if its last answer is a failure, and otherwise how much is out: all of the data unless the socket ran full |
| Connection.Connection.Readn | connection.cpp:198-235 | the read loop returns what the pure account of its answers says |
| Connection.Connection.FlushFront | connection.cpp:42-54 | the front buffer is dropped when it is out and advanced otherwise, and no other buffer is touched |
| Connection.Connection.Flush | connection.cpp:36-66 | queue, socket and each of the five results; ERROR if and only if its last answer is a failure, and what is left in the queue otherwise has met EAGAIN |
| Connection.Transfer | connection.cpp:36-66 | real connections conserve bytes over whole runs |
| Connection.Connection.Reset | connection.cpp:100-122 | empties the queue and closes an open descriptor |
| Pipeline.PrintedCarries | websocket.cpp:54-91 | the concatenated frames of any messages decode to exactly these messages |
| Pipeline.PrefixCarries | websocket.cpp:157-251 | every prefix of such a stream decodes to a prefix of the messages, and is never refused |
| Pipeline.EndToEnd | connection.cpp:36-66 | for every schedule of sends, flushes with partial writes, and arrivals in any chunks: delivered is a prefix of sent, and all of it once every byte has crossed |
| Pipeline.NeverBroken | connection.cpp:36-66 | partial writes and full sockets never break the connection |
| Pipeline.Completes | connection.cpp:36-66 | after every schedule without failed writes, one more flush and one more read with enough room deliver all messages sent |
| Pipeline.Run | websocket.cpp:136-251 | the same for real endpoint objects: `MakeFrame`, `WriteData`, `Flush` and `Parse` |
| HttpParser.Step | request.cpp:380-617 | a round moves forward in the buffer, or once to a value state; FINISHED sets `header_len_` behind the blank line |
| HttpParser.Run | request.cpp:377-620 | CONTINUE means the buffer is used up; FINISHED that the header ends inside it |
| HttpResume.RunCut | request.cpp:377-620 | parsing a part and then the rest is parsing the whole, across a boundary that is not inside a header line's look-ahead |
| HttpResume.Resumable | request.cpp:314-340 | for every division without such a boundary, the first verdict and all fields are those of one call on the whole stream |
| HttpGrammar.LineRun | request.cpp:380-611 | what the states make of a header line, with any bytes but line feeds in it, is what the line means, as a whole, to the reference, which refuses forbidden characters and a leading carriage return |
| HttpRoundTrip.LeftTakenUp | request.cpp:510-517 | in any pieces, the parser takes a header line up at the end of it that `Left` computes: where it is no c, or nine bytes are at hand |
| HttpRoundTrip.FieldRun | request.cpp:510-611 | and from there the line is worth what the reference makes of that end |
| HttpRoundTrip.RequestRun | request.cpp:377-620 | in any pieces, and for every list of header lines without line feeds, the verdict and the fields: each line is worth what is left of it, and a line of which nothing is left ends the header |
| HttpRoundTrip.RequestLineRun | request.cpp:390-509 | a request line, in any letter case of the method, is read to its end with method, path and query |
| HttpRoundTrip.ParserMeetsReference | request.cpp:377-620 | for every request line and every list of nonempty header lines without line feeds, well formed or not, the verdict and all fields are those of the reference if and only if no line, up to the first malformed one, is misread: one that looks blank but for leading c's, in the last eight bytes of the stream (if it is refused for that, some line behind it must not be malformed) |
| HttpRoundTrip.FieldsMeetReference | request.cpp:377-620 | so for lines without forbidden characters, carriage returns and line feeds that are not of c's alone they always are |
| HttpRoundTrip.SwallowedExample | request.cpp:514-517 | a last line of two c's is taken for the blank line |
| HttpRoundTrip.RefusedExample | request.cpp:510-517 | a request whose last line is a c, a carriage return and an x, which means nothing, is refused |
| HttpRoundTrip.RoundTrip | request.cpp:377-620 | parsing a printed request finishes and recovers method, path, query, content type, key, length and header size (sections 3.1.1 and 3.2 of RFC 7230) |
| HttpRoundTrip.DecimalRoundTrip | request.cpp:566-577 | the accumulator of a decimal below 2^32 is its value |
| HttpRoundTrip.ContentLengthRoundTrip | request.cpp:547-577 | a printed Content-Length below 2^32 is recovered (section 3.3.2 of RFC 7230) |
| HttpText.TokenIs | request.cpp:13-45 | for every byte, what the token table folds it to, in characters |
| HttpText.UrlCharIs | request.cpp:49-81 | for every byte, whether it may stand in a target |
| HttpText.PlainRequest | request.cpp:377-620 | a request in plain text, with the nine methods and the header names as words in any letter case: method, path, query, content type, key, header length, and the length that the digits mean modulo 2^32 |
| HttpText.AccumulateIs | request.cpp:566-577 | the accumulator is the number a decimal numeral means, modulo 2^32 |
| HttpText.ValueEndsAtSpace | request.cpp:566-611 | a header's value ends at the first space |
| HttpText.OtherMethodsRefused | request.cpp:396-477 | a request whose first word is none of the nine methods, in any letter case, is refused, whatever follows |
| HttpText.BadPathRefused | request.cpp:478-499 | a path is refused at a character that may not stand in it |
| HttpText.BadQueryRefused | request.cpp:500-510 | and a query string, also at a second question mark |
| HttpCuts.FeedIsRead | request.cpp:314-340 | calls of `Parse` after each of any number of pieces are one run whose look-ahead sees the bytes up to the next boundary |
| HttpCuts.PiecesMeetReference | request.cpp:314-340 | for every division of every request, with any header lines without line feeds, into pieces, the verdict and all fields |
| HttpCuts.PiecesOfFields | request.cpp:514-517 | in any pieces, a request is the request made of what is left of its lines |
| HttpCuts.CutSurvivesIff | request.cpp:514-611 | for every request with nonempty header lines without line feeds and every boundary, the answer in two pieces is that in one if and only if, up to the first line that is refused, each header line that is hit (it starts with c, the boundary is in its first nine bytes, nine bytes follow its start) keeps some bytes, and neither it nor what is left of it is malformed or has a value that counts (unless it has a forbidden character, or a line behind it is malformed) |
| HttpCuts.LengthInPieces | request.cpp:514-577 | in any pieces, the length is the number whose digits are the Content-Length values of what is left of the lines, and the request is refused if they are no digits |
| HttpCuts.ContentLengthSurvivesIff | request.cpp:514-577 | in two pieces, a request with one Content-Length header finishes with its length if and only if every header that is hit keeps it: that header only a length of 0, another header unless its name is Content-Length without its leading c's and its digits change the number |
| HttpCuts.CutLosesContentLength | request.cpp:514-531 | a cut inside the first nine bytes of its only Content-Length header leaves a finished request of length 0 |
| HttpCuts.LostLengthExample | request.cpp:514-517 | a concrete POST that loses its length |
| HttpCuts.GainedLengthExample | request.cpp:514-517 | a concrete POST of length 5 that is read with length 57 |
| Request.Request.Parse | request.cpp:377-620 | the loop over the object's fields is one run of the pure parser on its buffer |
| Request.Request.ParseHeaderField | request.cpp:510-545 | the look-ahead branch, with its nine-byte guard |
| Request.Request.ParseLengthValue | request.cpp:566-577 | the 32-bit accumulator |
| Request.Request.ParseMethod | request.cpp:418-460 | the method branch with its three outcomes |
| Request.RunFailsForGood | request.cpp:377-620 | a parser that has failed fails again at the same character, whatever arrives |
| Io.RecvStops | connection.cpp:198-235 | a short read ran the socket dry, and a failed one met an error or the end of the file |
| Request.Request.TakeHeader | request.cpp:317-337 | the header limit, the append and the parse, with error codes 500 and 400 each for its own reason, up to a wrap of the counter |
| Request.Request.ReadHeader | request.cpp:314-340 | loses no byte, and stops at the end of the header, at an error with its reason, or when the socket is dry |
| Request.Request.ReadBody | request.cpp:351-366 | loses no byte, and stops when the body is complete or the socket is dry |
| Request.Request.ReadData | request.cpp:306-375 | pushes the request exactly when it becomes complete, keeps the buffer below `max_header_size_ + max_post_size_ + 2048`, and fails only for one of its reasons; the 32-bit counter wraps only after a refused header |
| Request.Request.Reset | request.cpp:260-297 | back to the state of a new request |
| Request.ReadsAsOne | request.cpp:306-340 | the fields the driver has are those of one parse of its buffer, if no boundary fell inside a look-ahead |
| Request.Serve | event_loop.cpp:324-337 | over any number of read events, also after errors whose reply is stuck, a request is queued at most once, and then it holds its whole header and body |
| Lifecycle.StepKeepsInv | event_loop.cpp:156-293 | every step of every thread keeps the placement of every connection |
| Lifecycle.Safety | event_loop.cpp:156-293 | in every reachable state: no list operation was called outside its contract (no double free, double push or stray erase), at most `max_conn_ + 1` connections, and an unlocked connection is open if and only if it is active, and otherwise free or popped by exactly one waiting thread |
| UnlockedUpdate.UpdateInContract | event_loop.cpp:143-147 | an unlocked update, with any steps of other threads between its two sections, is within contract if and only if the connection is active at the erasure and no other thread erases it before the push; then every placement is kept |
| UnlockedUpdate.FreeUpdateInContract | connection_pool.cpp:84-87 | for a connection whose mutex is free, active means open |
| UnlockedUpdate.UnlockedSafety | event_loop.cpp:143-293 | over whole runs with unlocked updates, no list operation leaves its contract if and only if every update is in contract, and then every placement is kept |
| UnlockedUpdate.FailingUpdate | event_loop.cpp:143-147 | a reachable state and an update of an open, unlocked connection that is reset between the two sections and corrupts the list |
| UpdateRaces.UpdateSafeIff | event_loop.cpp:143-147 | from every state of the invariant in which a thread can start the update, every interleaving of it stays in contract if and only if the connection is active and there is no other thread |
| UpdateRaces.AnyThreadErases | event_loop.cpp:284-293 | from wherever it is, any thread can come to take an active connection off the list without a step of the updating thread |
| Lifecycle.LockKept | event_loop.cpp:175-183 | the thread that popped a connection finds it closed, off both lists and its own when it gets the mutex |
| Lifecycle.LeaveFreeKept | connection_pool.cpp:63-68 | a push on the free list meets a connection that is neither there nor popped |
| Lifecycle.LeaveEraseKept | connection_pool.cpp:98-129 | an erasure meets a connection that is on the active list, although it may have been popped again meanwhile |
| Lifecycle.LeavePushKept | connection_pool.cpp:70-82 | a push on the active list meets a connection that is not there |
| Lifecycle.LeavePopKept | connection_pool.cpp:43-61 | a pop hands the connection to one thread alone |
| Lifecycle.LeaveNewKept | connection_pool.cpp:49-58 | a new connection is made only within the limit |
| Lifecycle.Unblocked | event_loop.cpp:352-479 | behind every blocked thread some thread holds a mutex and can move |
| Lifecycle.NoDeadlock | event_loop.cpp:143-293 | no reachable state is a deadlock, for any number of threads and connections |
| TaskQueue.PushKeeps | event_loop.cpp:468-479 | a push signals a waiting worker if there is one |
| TaskQueue.WorkerKeeps | event_loop.cpp:355-368 | every step of a worker keeps the count of awake workers up, spurious wakeups included, and a worker that finds tasks gets the first |
| TaskQueue.TasksConserved | event_loop.cpp:361-367 | from any state, what workers are given and what is queued afterwards is what was queued and what is submitted, in order |
| TaskQueue.Reachable | event_loop.cpp:352-479 | in every reachable state: if a worker waits, the awake workers without a task are at least as many as the queued tasks; the tasks that workers were given, in order, followed by the queue, are exactly the tasks submitted, in order; the mutex excludes |
| Lists.SweepReturnsUntouched | connection_pool.cpp:132-146 | a sweep interleaved with any pushes and erasures returns every element not touched meanwhile, exactly once and in list order |
| Lists.EraseKeepsSwept | connection_pool.cpp:98-103 | an erasure, also at the cursor, neither skips nor repeats another element |
| ConnectionPool.ConnectionPool.FreeListPop | connection_pool.cpp:43-61 | the head of the free list, or a new connection within the limit, or null |
| ConnectionPool.ConnectionPool.FreeListPush | connection_pool.cpp:63-68 | the linked list gains the connection in front |
| ConnectionPool.ConnectionPool.ActiveListPush | connection_pool.cpp:70-82 | the doubly linked list gains the connection at the end |
| ConnectionPool.ConnectionPool.ActiveListErase | connection_pool.cpp:98-129 | the doubly linked list loses the connection, and the cursor moves on if it was there |
| ConnectionPool.ConnectionPool.ActiveListUpdate | connection_pool.cpp:84-87 | the connection moves to the end |
| ConnectionPool.ConnectionPool.ActiveListEmpty | connection_pool.cpp:89-96 | tells whether the list is empty |
| ConnectionPool.ConnectionPool.ActiveListTimeoutCheck | connection_pool.cpp:132-135 | the cursor starts at the head |
| ConnectionPool.ConnectionPool.ActiveListCheckNext | connection_pool.cpp:137-146 | returns the connection at the cursor, or null at the end, and moves on |
| IdleTimeout.SweepIsExact | event_loop.cpp:257-279 | on a sorted list, what a sweep resets before its early break is exactly what has expired |
| IdleTimeout.IdleBound | event_loop.cpp:232-282 | in every run the active list is sorted by time stamp and no connection is ever idle longer than the timeout |
| IdleTimeout.RoundsMakeProgress | event_loop.cpp:243-281 | a round either sleeps exactly until the earliest time at which a connection can expire, or the next round follows at once and does |
| IdleTimeout.EventLoop.ResetConnection | event_loop.cpp:284-293 | on the heap: onto the free list, off the active list, time stamp cleared |
| IdleTimeout.EventLoop.CheckConnectionTimeout | event_loop.cpp:235-281 | one round on the heap resets exactly the expired connections, and returns the length of the sleep |
| IdleTimeout.EventLoop.Activate | event_loop.cpp:185-227 | an accepted connection is last, with the newest time stamp |
| IdleTimeout.EventLoop.Refresh | event_loop.cpp:144-147 | a connection that reads moves to the end with a new time stamp |
| SearchTree.LookupInsert | ternary_search_tree.cpp:22-56 | insertion binds a new key, keeps the first binding of an old one, and changes no other |
| SearchTree.InsertOrdered | ternary_search_tree.cpp:22-56 | insertion keeps the three-way order |
| SearchTree.SearchOneLongest | ternary_search_tree.cpp:121-140 | the search for one result finds the binding of the longest bound prefix |
| SearchTree.AllSorted | ternary_search_tree.cpp:58-82 | the traversal lists bindings in strictly increasing lexicographic order |
| SearchTree.AllFound | ternary_search_tree.cpp:58-82 | the traversal lists exactly what lookup finds |
| SearchTree.TraverseAll | ternary_search_tree.cpp:58-82 | within the limit the bounded traversal is complete |
| SearchTree.SearchComplete | ternary_search_tree.cpp:98-119 | within the limit, the matches of a prefix are all bindings whose keys start with it, once, in order |
| TernarySearchTree.InsertAt | ternary_search_tree.cpp:22-56 | linking nodes in place refines insertion, and reports the node that took the data |
| TernarySearchTree.SearchBelow | ternary_search_tree.cpp:121-140 | writing through the result record refines the search for one result |
| TernarySearchTree.TraverseBelow | ternary_search_tree.cpp:58-82 | appending to the result list refines the bounded traversal, with its early returns |
| TernarySearchTree.SearchAll | ternary_search_tree.cpp:98-119 | the recursive descent refines the bounded search |
| TernarySearchTree.Result.Add | ternary_search_tree.cpp:162-184 | the result stays a well-formed doubly linked list of `count` nodes, one longer |
| TernarySearchTree.TernarySearchTree.Insert | ternary_search_tree.cpp:17-20 | the tree refines a map in which a key keeps its first binding |
| TernarySearchTree.TernarySearchTree.SearchOne | ternary_search_tree.cpp:154-160 | the binding of the longest prefix in the map, or an empty record |
| TernarySearchTree.TernarySearchTree.Search | ternary_search_tree.cpp:142-152 | the bindings in the map whose keys start with the string, once each and in order, if these keys are no more than the limit |
| TernarySearchTree.MatchesCounted | ternary_search_tree.cpp:98-119 | the tree has one match for each key of the map that starts with the string |
| Routing.BindingsAreFirst | event_loop.cpp:15-25 | a path is bound by its first registration |
| Routing.LongestServes | event_loop.cpp:27-41 | longest bound prefix and first registration together give the handler |
| Routing.HTTPHandler.SetHandleFunc | event_loop.cpp:15-25 | registers a nonempty path |
| Routing.HTTPHandler.GetHandleFunc | event_loop.cpp:27-41 | returns the handler registered first for the longest registered prefix of the path, or null if there is none |
| Base64.RoundTrip | base64.cpp:42-123 | decoding inverts encoding, for every byte string |
| Base64.UnpaddedRoundTrip | base64.cpp:84-123 | encoding inverts decoding, for whole groups of symbols |
| Base64.EncodedLength | base64.cpp:42-82 | the output has four characters for every three bytes begun |
| Base64.DigitsByMasks | base64.cpp:52-55 | the shifts and masks are the base-64 digits of the group's 24-bit number (section 4 of RFC 4648) |
| Base64.BytesByMasks | base64.cpp:98-100 | and the other way round |
| Base64.EncodeTail | base64.cpp:63-78 | one or two last bytes are padded as the RFC says |
| Base64.DecodeTailLoop | base64.cpp:108-120 | one to three last symbols give one byte less, although absent symbols are looked up as 255 |
| Base64.Base64Encode | base64.cpp:42-82 | the loop over the scratch buffers is the regrouping of the RFC, with padding |
| Base64.Base64Decode | base64.cpp:84-123 | the loop decodes the symbols in front of the first other character |
| Base64Text.SymbolIs | base64.cpp:31-34 | the 64 symbols, in characters |
| Base64Text.ThreeBytes | base64.cpp:52-58 | three bytes become the symbols of their bits, six at a time |
| Base64Text.TwoBytes | base64.cpp:63-77 | two last bytes become three symbols and an equals sign |
| Base64Text.OneByte | base64.cpp:63-77 | one last byte becomes two symbols and two equals signs |
| Base64Text.StopsAt | base64.cpp:92 | decoding stops at the first character outside the alphabet |
| Base64Text.VectorFoo | base64.cpp:42-82 | a test vector of section 10 of RFC 4648 |
| FormUrlencoded.Htoi | util.cpp:244-259 | two hexadecimal digits in either case |
| FormUrlencoded.DecodeInverts | util.cpp:261-284 | decoding inverts every encoder that writes each byte as itself, as a plus for a space, or as an escape (section 2.1 of RFC 3986) |
| FormUrlencoded.UrlDecode | util.cpp:261-284 | the pointer loop is the recursive decoder, also for malformed escapes |
| FormUrlencoded.EscapeDecodes | util.cpp:244-276 | for every byte, a percent sign and its two hexadecimal digits, each in either case, decode to it |
| FormUrlencoded.PlusDecodes | util.cpp:268-269 | a plus decodes to a space |
| FormUrlencoded.OthersDecode | util.cpp:277-279 | any other byte is itself, also a percent sign without two hexadecimal digits behind it |
| FormUrlencoded.ParseFormUrlencoded | request.cpp:228-258 | the loop splits the C string at ampersands and each item at its first equals sign, drops empty items, and lets later fields replace earlier ones |
| FormUrlencoded.ItemIs | request.cpp:235-246 | an item in front of an ampersand binds its name to its decoded value, unless one of them is empty |
| FormUrlencoded.NoEquals | request.cpp:239-246 | an item without an equals sign is dropped |
| FormUrlencoded.MoreEquals | request.cpp:235-238 | further equals signs are dropped from a value |
| FormUrlencoded.RoundTrip | request.cpp:228-258 | every form, written by any such encoder and in any order, is parsed back to the same map |

## Left out

- TLS: `SSL_read`, `SSL_write` and `SSL_free` are foreign calls; the plain branches of `Readn`, `Writen` and `Reset` are modelled.
- Sockets, epoll and kqueue, SHA-1 and the handshake text, logging, daemonizing and user lookup: foreign calls.
- `TernarySearchTree::Erase`: it can remove nodes that still hold shorter keys, so it does not refine removal from a map; the server never calls it.
- `Search` with more matches than `limit`: the check in `Traverse` does not stop its callers, so no exact limit holds; the model follows the code there, and the theorems are about searches within the limit.
- Keys and paths with NUL characters, and searches for an empty string: C strings end at the NUL.
- Messages with a nonempty PONG, or control frames between fragments, in the round trips: PONG and CLOSE keep the cache and PING flushes it. The refinement theorems cover them.
- `URLEncode`: it shifts the high digit the wrong way, so it is no inverse of `URLDecode`; the round trip is about any encoder that writes bytes as the decoder reads them.
- Write-side liveness: the event loop handles only the read half of a combined event, and `OnWrite` resets an upgraded connection; conservation of bytes is proved instead.
- Which client's request a worker sees when its queued connection has been recycled: only list and ownership safety are claimed.
- Handlers that take mutexes: deadlock freedom assumes that handlers, and the close callback, take none. The locked senders of `WebSocket` are threads that lock one connection.
- Descriptor 0: an accepted descriptor is taken to be positive, as it is while standard input is open.
- Two unlocked updates at once: the pool has one event thread, which makes them one after another.
- IdleTimeout.EventLoop.CheckConnectionTimeout: is about a sweep that no other thread interrupts, with a monotone clock and exact sleeps; `Lists.SweepReturnsUntouched` and `Lifecycle.Safety` cover interrupted sweeps.
- Request.Request.TakeHeader: stops where the 32-bit `rbuf_len_` wraps to a value below the header limit. That takes 4 GiB after a refused header, on a connection whose error reply is stuck; from there on the code's counter and its buffer disagree, and the model says nothing. `ReadHeader`, `ReadData` and `Serve` report that as `wrapped`.
- Request.Request.ReadHeader: says nothing of what is read behind such a wrap.
- Request.Request.ReadData: the same; and the configured limits have to sum to less than 2^32 - 2048.
- Request.Request.Reset: leaves out the client's address and the header and form maps, which no modelled operation uses.
- Connection.Connection.Reset: leaves out the request, response and WebSocket objects, the time stamp, the loop pointer and the write flag; `Request.Request.Reset`, `WebSocket.WebSocket.Reset` and `IdleTimeout.EventLoop.ResetConnection` model what is modelled of these, each on its own object.
- Request.Request.Parse: the branches of the loop body are methods of their own, one per state.
- `S_UPGRADE`, a parser state that is never entered, and the second test for `p` in the start state, which is never reached.
- Header lines with a line feed that no carriage return precedes: the parser takes some of them silently and refuses others; the lines of the model have none.
- Repeated Content-Length headers: the parser goes on accumulating; `HttpGrammar.LineMeaning` says so, and the round trips have each header at most once.
- `Reserve`, `Keepalive`, RC4, CIDR helpers, response header text and the examples: unused, or easy.
