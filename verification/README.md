# IoT.js streams, sockets, HTTP headers, modules and buffers

A verification project for the stateful core of IoT.js, a small Node-like runtime whose
standard library is JavaScript over C modules. It models five parts of it and proves what
they guarantee over whole runs, and exactly where they fail to keep what is documented.

| files | what they model |
|---|---|
| `WritableSpec`, `WritableEffects`, `WritableStream` | the writable stream: a FIFO of requests with one in flight, `drain`, `finish` |
| `ReadableSpec`, `ReadableEffects`, `ReadableStream` | the readable stream: paused or flowing buffer, `data`, `end` |
| `NetSpec`, `NetEffects`, `NetTheorems`, `ServerSpec`, `Net` | TCP sockets made of both streams, and servers that count their sockets |
| `HttpSpec`, `HttpParser`, `IotString` | HTTP headers on their way from parser callbacks in C to a JavaScript map, and the growable string below |
| `Graph`, `Build`, `LoaderSpec`, `Loader` | the build script's choice of modules and the loader that requires them at run time |
| `Buffers`, `Files` | byte buffers, and reading and writing whole files in pieces |

The pattern is the same throughout. An object that the source updates in place is a class
with the source's fields, and each of its methods is proved to take the step of an abstract
machine (a function on values), or to compute what a loop-free definition says. The machines
of the streams, sockets and servers have no redundant counters and record a history of what
an observer sees; lemmas about runs, which are lists of calls and callbacks in any order,
state the guarantees. Since every class method takes exactly one step of its machine, the
lemmas about runs speak about the objects too.

The histories are tied to the inputs as well, so that no machine can meet its guarantees by
doing less: the `Effects` modules state, from the inputs and the state before them alone, what
is taken, sent, delivered, ended and destroyed by each step, and over whole runs that what a
stream or a socket took is what it was given.

Rows that begin with "Bridge:" only tie a method to its step of a machine; the results are the
lemmas about the machine.

The environment is free: acknowledgements, ticks, connection results, incoming data, pop
orders and short reads and writes come in any order and size that their interfaces allow.

## Findings

Where the code does not do what its documentation promises, the project names the input and
proves the exact condition.

* `finish` can overtake data. `docs/IoT.js-API-Stream.md:82-85` promises `finish` after all
  data was flushed. A write accepted between `end()` on an idle stream and the tick queued by
  that `end()` breaks it, and nothing else does (`WritableSpec.LateWriteHazard`).
* A socket can stay open for ever. `destroySoon` tests a field that does not exist, and
  `onread` marks the socket unreadable only if nothing is buffered. A socket that has finished
  writing and learns of the peer's EOF is never destroyed, except by an explicit `destroy()`,
  if and only if that EOF finds bytes buffered and no shutdown callback outstanding
  (`NetTheorems.EofLeak`; the situation is reachable: `HalfCloseIsReachable`,
  `UnreadDataLeaks`). Such a socket keeps its closed server from ever emitting `close`
  (`ServerSpec.StuckSocketPinsServer`), against `docs/IoT.js-API-Net.md:98`.
* `end` can overtake data too: `read()` emits it before it returns the bytes it took. Bytes
  reach an observer after `end` if and only if they are returned by a full `read()` that finds
  EOF pending (`ReadableSpec.LateDelivery`, over whole runs with listeners `ReadableSpec.LateAll`).
* After a failed connection attempt the socket cannot be destroyed, not even by repeated
  `destroy()`, unless `connect()` is called again, if and only if data is queued, `finish` was
  not emitted, and no tick is waiting to emit it (`NetTheorems.ConnectFailLeak`; any write to a
  new client socket leads there: `EarlyWriteStrands`). The last two exclude exactly the case of
  an `end()` before the data. A second attempt that succeeds saves the socket
  (`NetTheorems.RetryRecovers`).
* A finished socket whose connection breaks with a read error instead of an EOF is not destroyed
  without an explicit `destroy()` (`NetTheorems.ReadErrorLeak`).
* A server may emit `close` more than once: a second event is scheduled since the last `listen()`
  if and only if `close()` is called when it was called before, the handle is gone and no
  accepted socket is left (`ServerSpec.CloseTwice`). There are never more events than calls
  (`ServerSpec.CloseExactlyWhenDrained`).
* URLs of later requests on a connection are wrong once any earlier request has overflowed the
  header table, and only then (`HttpSpec.UrlIntact`): the flag `flushed` and the URL text
  collected in JavaScript outlive their message. From that request on, each one gets all URLs
  since then joined together (`HttpSpec.UrlsPileUp`).
* Copying inside one buffer is safe for every content if and only if the destination does not
  start inside the source (`Buffers.OverlapHazard`). Text survives a buffer if and only if it
  holds no NUL (`Buffers.TextRoundTrip`), and a string append is a faithful one if and only if
  nothing but NULs follows a NUL (`IotString.StrncpyFaithful`).

## Model

| member | source | states |
|---|---|---|
| WritableSpec.EveryReachableState | src/js/stream_writable.js:91-277 | In every state of every run: requests are handed over and acknowledged in the order accepted, none lost or duplicated; a promised `drain` or `finish` has a pending write or tick that will deliver it; `finish` is emitted at most once; with no `drain` owed, less than the high-water mark is outstanding; `needDrain` is what a producer concludes from results and `drain` events |
| WritableSpec.RunInv | src/js/stream_writable.js:91-277 | The same from any state that satisfies the invariant, for every list of calls and callbacks |
| WritableSpec.StepInv | src/js/stream_writable.js:91-277 | Each call or callback keeps the invariant |
| WritableSpec.AcceptEffect | src/js/stream_writable.js:171-195 | Accepting a request adds exactly its bytes to what is outstanding, appends it to the accepted history, and sends it at once only if the stream is ready and idle |
| WritableSpec.EveryCleanRun | src/js/stream_writable.js:242-277 | In runs without a write in the window after `end()` on an idle stream, everything accepted is acknowledged when `finish` is emitted, and afterwards nothing is accepted or sent |
| WritableSpec.RunGraceful | src/js/stream_writable.js:242-277 | The same from any graceful state |
| WritableSpec.WindowIsReachable | src/js/stream_writable.js:252-256 | `end()` on a new stream opens the window |
| WritableSpec.LateWriteBreaks | src/js/stream_writable.js:91-102 | A write in that window followed by the waiting tick emits `finish` with the chunk unacknowledged |
| WritableSpec.LateWriteHazard | src/js/stream_writable.js:91-133 | A write is safe under every later schedule if and only if it is not made in that window |
| WritableSpec.AcksFlush | src/js/stream_writable.js:147-239 | From a writing state, one acknowledgement per pending request empties the stream in order and emits the owed `drain` or `finish` exactly once; the whole final state and history are given |
| WritableSpec.BackPressure | src/js/stream_writable.js:178-195 | A producer that writes only while no `drain` is owed never has high-water mark plus one chunk outstanding |
| WritableEffects.StepTakes | src/js/stream_writable.js:91-133 | For every input: data given to `write` or to `end` is taken, in order, until `finish` was emitted, and refused from then on; nothing else is taken or refused |
| WritableEffects.StepSends | src/js/stream_writable.js:171-228 | What goes out in a step: a chunk that finds a ready stream idle, or, on an acknowledgement or when the stream becomes ready, the oldest one waiting; only acknowledgements acknowledge |
| WritableEffects.StepSignals | src/js/stream_writable.js:232-277 | The inputs that emit `finish` and those that emit `drain`, exactly; and what sets the marks for ready, ending and ended, and a tick |
| WritableEffects.StepOwes | src/js/stream_writable.js:178-195 | A `drain` is owed exactly if it was owed and is not emitted now, or the data taken fills what is outstanding to the high-water mark |
| WritableEffects.RunTakes | src/js/stream_writable.js:91-133 | Over every run: the data taken is exactly the data offered by the inputs before `finish`, the data refused exactly what is offered after it |
| WritableEffects.EveryOffer | src/js/stream_writable.js:91-228 | For every run of a new stream: taken and then refused data make up all that was offered, none is refused before `finish`, and what is sent and acknowledged are initial parts of it, in order |
| WritableEffects.FinishMeansDelivered | src/js/stream_writable.js:242-277 | In runs without a write in the window, all data offered before `finish` has been acknowledged once it is emitted |
| WritableStream.Writable.constructor | src/js/stream_writable.js:31-61 | A new stream is empty, not ready, with the given high-water mark or 128 |
| WritableStream.Writable.Write | src/js/stream_writable.js:91-102 | Takes the machine's step; the data is taken exactly if `finish` was not emitted, and the result is true exactly if moreover no `drain` is owed |
| WritableStream.Writable.End | src/js/stream_writable.js:112-133 | Takes the machine's step: a last chunk is taken unless `finish` was emitted, then come the ending mark and its tick if idle |
| WritableStream.Writable.ReadyToWrite | src/js/stream_writable.js:138-143 | Bridge: takes the machine's step; the counters keep agreeing with the queue |
| WritableStream.Writable.OnWrite | src/js/stream_writable.js:147-156 | Takes the machine's step: the request in flight is acknowledged, the next one is sent, or the owed event is emitted |
| WritableStream.Writable.OnTick | src/js/stream_writable.js:252-256 | Bridge: takes the machine's step for the queued `finish` |
| WritableStream.Writable.WriteOrBuffer | src/js/stream_writable.js:171-195 | Sends or queues, counts, and raises `needDrain` as the machine does with sums over the queue |
| WritableStream.Writable.WriteBuffered | src/js/stream_writable.js:198-208 | Bridge: hands over the oldest queued request if none is in flight |
| WritableStream.Writable.DoWrite | src/js/stream_writable.js:211-228 | Fails and changes nothing exactly if a write is in flight; its callers prove that this never happens |
| WritableStream.Writable.OnEmptyBuffer | src/js/stream_writable.js:232-239 | Bridge: emits `finish` when ending, else an owed `drain` |
| WritableStream.Writable.EndWritable | src/js/stream_writable.js:244-257 | Bridge: marks the stream ending and queues one tick exactly if it is idle |
| ReadableSpec.EveryRun | src/js/stream_readable.js:57-214 | Every run, with `data` listeners that call back to any depth: bytes emitted or returned, followed by bytes buffered, are the bytes accepted; nothing is accepted after EOF; `end` is emitted once, exactly when EOF was seen and the buffer is empty; no data is emitted after it, and bytes are returned after it only by the very call of `read` that emitted it; the two internal checks never fail |
| ReadableSpec.ExecInv | src/js/stream_readable.js:57-214 | One operation, listeners included, keeps that invariant, inside an emission too |
| ReadableSpec.EmitDataInv | src/js/stream_readable.js:189-198 | After an emission, whatever its listener did, `end` was emitted if it was due |
| ReadableSpec.PartialReadChangesNothing | src/js/stream_readable.js:149-168 | Reading a part of the buffer throws and changes nothing |
| ReadableSpec.ReleaseEnd | src/js/stream_readable.js:57-79 | With EOF behind buffered bytes, one resume emits all of them and then `end`; one full read emits `end` and then returns all of them |
| ReadableSpec.EofBehindBytes | src/js/stream_readable.js:206-214 | A chunk pushed to a paused stream, then EOF, leave bytes buffered behind EOF |
| ReadableSpec.ResumeEnds | src/js/stream_readable.js:105-114 | Such a resume has emitted `end` when it returns, whatever the listener did |
| ReadableSpec.LateDelivery | src/js/stream_readable.js:57-79 | An operation delivers bytes after `end` if and only if it is, or its listeners perform, a full `read` with EOF pending |
| ReadableSpec.LateAll | src/js/stream_readable.js:57-79 | The same for every list of operations |
| ReadableEffects.PushTakes | src/js/stream_readable.js:122-146 | Until EOF every chunk pushed is taken: a flowing stream emits it at once, a paused one keeps it behind the bytes it has and emits `readable`; after EOF it is refused |
| ReadableEffects.ResumeReleases | src/js/stream_readable.js:105-114 | `resume` on a paused stream starts the flow and emits all that is buffered as one chunk, then a due `end` |
| ReadableEffects.PauseStops | src/js/stream_readable.js:95-102 | `pause` stops the flow and moves no byte |
| ReadableEffects.ReadReturns | src/js/stream_readable.js:57-79 | For every count: `read` returns the whole buffer, behind a due `end`, exactly if the count is absent or covers it; throws for a part; else does nothing |
| ReadableEffects.EofEnds | src/js/stream_readable.js:206-214 | `push(null)` marks the stream ended and emits `end` if nothing is buffered and it was not emitted |
| ReadableEffects.RunTakes | src/js/stream_readable.js:122-146 | Over every run with any listeners: the bytes taken are exactly those of the chunks pushed before the first `push(null)`, in the order in which the pushes are performed |
| ReadableEffects.EveryByte | src/js/stream_readable.js:57-214 | For every run of a new stream: the bytes emitted or returned, followed by those still buffered, are the bytes pushed before `push(null)` |
| ReadableEffects.PlainPerformed | src/js/stream_readable.js:57-146 | If no listener calls back, the operations performed are those of the run |
| ReadableStream.Readable.Perform | src/js/stream_readable.js:57-146 | Each operation takes the machine's step, nested listener calls included |
| ReadableStream.Readable.ReadBytes | src/js/stream_readable.js:57-79 | Returns the whole buffer, after a due `end`, and empties it, exactly if there are bytes and the count is absent or covers them; else returns null or throws, and leaves it |
| ReadableStream.Readable.ReadBuffer | src/js/stream_readable.js:149-168 | Everything, null, or an exception, exactly for a count strictly between 0 and the length |
| ReadableStream.Readable.PushChunk | src/js/stream_readable.js:122-146 | Rejects after EOF, emits while flowing, buffers while paused; before EOF every chunk is taken, and a paused stream has it behind its bytes |
| ReadableStream.Readable.ResumeFlow | src/js/stream_readable.js:105-114 | Starts flowing and emits the whole buffer as one chunk |
| ReadableStream.Readable.OnEof | src/js/stream_readable.js:206-214 | Bridge: records EOF and emits `end` if nothing is buffered |
| ReadableStream.Readable.EmitData | src/js/stream_readable.js:189-198 | Checks, emits, lets the listener act, then emits a due `end` |
| NetSpec.RunInv | src/js/net.js:135-432 | Over every run of a socket: its handle is closed at most once and exactly when it is destroyed, only after `finish`; it points to its server exactly until then; both stream invariants hold |
| NetSpec.StepInv | src/js/net.js:135-432 | Each call or callback keeps the socket invariant |
| NetTheorems.GracefulClose | src/js/net.js:162-299 | In runs without a write in the window, the handle is closed at most once and never with accepted data unacknowledged |
| NetTheorems.DisciplineIsClean | src/js/net.js:162-171 | Giving no data to a socket after `end()` or `destroy()` is enough for that |
| NetTheorems.DestroyCompletes | src/js/net.js:175-198 | After `destroy()` on a connected socket, acknowledging the pending writes, or the next tick if there are none, closes the handle |
| NetTheorems.EofLeak | src/js/net.js:364-420 | A finished socket is never destroyed after an EOF without an explicit `destroy()` if and only if the EOF finds bytes buffered and no shutdown callback outstanding |
| NetTheorems.StuckForever | src/js/net.js:202-215 | A stuck socket stays stuck in every run without `destroy()`, `destroySoon()` included |
| NetTheorems.HalfCloseIsReachable | src/js/net.js:405-420 | `end()`, its tick and the shutdown callback leave an accepted socket half-closed |
| NetTheorems.UnreadDataLeaks | src/js/net.js:359-373 | Data that nobody reads, then EOF, leave a half-closed socket stuck |
| NetTheorems.BothOverMeansDestroyed | src/js/net.js:329-432 | In runs without such an EOF, a socket that is over in both directions with no shutdown pending is destroyed |
| NetTheorems.ConnectFailLeak | src/js/net.js:263-282 | After a failed connection attempt no run without a second `connect()` destroys the socket if and only if data is queued, `finish` was not emitted and no tick is waiting to emit it |
| NetTheorems.EarlyWriteStrands | src/js/net.js:175-198 | A new client socket that writes before its connection fails is never destroyed without a second `connect()` |
| NetTheorems.RetryRecovers | src/js/net.js:77-100 | A second attempt that succeeds, followed by the acknowledgements of the queued data, destroys every socket that failed with data queued and `finish` not emitted |
| NetTheorems.ReadErrorLeak | src/js/net.js:374-376 | After a read error a finished socket is not destroyed in any run without EOF and without `destroy()` |
| NetEffects.StepMoves | src/js/net.js:77-432 | For every input, exactly: which step it makes each half take; when the writable half is ended (by the owner, by destruction, or by `end` unless half-open is allowed); when the socket is destroyed or waits for `finish` to be; when a shutdown is requested; and the connection flags |
| NetEffects.NewSocketsAre | src/js/net.js:28-70 | A new socket has the high-water mark and the half-open choice of its options |
| NetEffects.EofEndsBoth | src/js/net.js:364-432 | EOF with nothing buffered: unless half-open is allowed the writable half is ended too, and the pending acknowledgements or the tick destroy the socket; with half-open allowed a socket that still writes is left alone |
| NetEffects.LastReadEndsBoth | src/js/net.js:424-432 | The same when a `resume` or a full `read` takes the bytes before an EOF |
| NetEffects.AcceptedSocketAtEof | src/js/net.js:424-432 | An accepted socket is destroyed by EOF and a tick, and stays writable after EOF if half-open is allowed |
| NetEffects.RunHalves | src/js/net.js:62-70 | Every run of a socket is a run of a writable stream and a run of a readable stream |
| NetEffects.SocketTakes | src/js/net.js:135-171 | Over every run: a socket takes all data it is given until `finish` and refuses it from then on; the handle gets and acknowledges an initial part of it, in order |
| NetEffects.DataTaken | src/js/net.js:377-381 | Data that arrives is taken, in every state in which it can arrive |
| NetEffects.SocketReceives | src/js/net.js:359-382 | Over every run: the bytes delivered, followed by those still buffered, are the bytes that arrived |
| ServerSpec.ServerMoves | src/js/net.js:465-589 | For every input, exactly: when the server holds a handle (a closed one after a failed `listen`) and listens, how the count changes, and when `close` is scheduled |
| ServerSpec.SocketsMove | src/js/net.js:569-589 | A connection adds one live socket linked to the server and with its half-open choice; an input touches no other socket |
| ServerSpec.RunInv | src/js/net.js:285-299 | In every state of every run `_socketCount` is the number of sockets that still point to the server |
| ServerSpec.CloseExactlyWhenDrained | src/js/net.js:530-559 | `close` is scheduled if and only if `close()` was called since the last `listen()` and every accepted socket is destroyed, at most once per call; the count is never negative |
| ServerSpec.CloseTwice | src/js/net.js:530-559 | In every run of a new server, more than one `close` event is scheduled since the last `listen()` if and only if `close()` was called on a server already closed and drained |
| ServerSpec.ClosedAgain | src/js/net.js:530-559 | The same from any state that satisfies the invariant |
| ServerSpec.CloseTwiceIsReachable | src/js/net.js:530-559 | `listen()` and two calls of `close()` are such a run |
| ServerSpec.EveryCloseIsGraceful | src/js/net.js:135-589 | The graceful close of every socket, in runs of a server with any number of sockets |
| ServerSpec.StuckSocketPinsServer | src/js/net.js:530-559 | A stuck accepted socket keeps `close` from ever being scheduled, unless it is destroyed explicitly |
| Net.Socket.constructor | src/js/net.js:47-70 | A connected socket linked to its server, or a connecting client socket |
| Net.Socket.Write | src/js/net.js:135-141 | Bridge: takes the machine's step |
| Net.Socket.End | src/js/net.js:162-171 | Bridge: takes the machine's step |
| Net.Socket.Destroy | src/js/net.js:175-198 | Takes the machine's step and releases the server exactly if the handle is closed now |
| Net.Socket.DestroySoon | src/js/net.js:202-215 | Bridge: ends the socket and always waits for a future `finish` |
| Net.Socket.CloseHandle | src/js/net.js:285-299 | Closes once, decrements the server's count once, and lets go of the server |
| Net.Socket.MaybeDestroy | src/js/net.js:329-337 | Bridge: destroys exactly when neither connecting, writable nor readable |
| Net.Socket.OnSocketFinish | src/js/net.js:405-420 | Bridge: destroys, or shuts the outgoing half down |
| Net.Socket.RunDestroyers | src/js/events.js:43-58 | Running all one-shot destroyers has the effect of one, and uses all of them up |
| Net.Socket.EmitFinish | src/js/events.js:43-58 | The listeners of `finish` together take the machine's step |
| Net.Socket.OnWritten | src/js/net.js:153-158 | Takes the machine's step, `finish` listeners included |
| Net.Socket.OnTick | src/js/stream_writable.js:252-256 | Takes the machine's step, `finish` listeners included |
| Net.Socket.OnShutdown | src/js/net.js:414-418 | Destroys exactly if EOF was seen meanwhile |
| Net.Socket.Connect | src/js/net.js:85-100 | Bridge: accepted unless connecting or connected |
| Net.Socket.OpenWritable | src/js/net.js:343-348 | Bridge: the flags of a connected socket, then `readyToWrite` |
| Net.Socket.OnSocketConnect | src/js/net.js:340-356 | Bridge: the socket is connected and ready; `finish` listeners included |
| Net.Socket.AfterConnect | src/js/net.js:264-279 | Becomes ready, or destroys, or does nothing if already destroyed |
| Net.Socket.OnSocketEnd | src/js/net.js:424-432 | Takes the machine's step for `end`: unless half-open is allowed the socket is no longer writable and waits to be destroyed; otherwise, still readable, it is unchanged |
| Net.Socket.Receive | src/js/net.js:359-382 | Bridge: an operation on the readable half, followed by the `end` listener if it fired |
| Net.Socket.OnReadEof | src/js/net.js:364-373 | Bridge: takes the machine's step for EOF |
| Net.Socket.OnReadData | src/js/net.js:377-381 | Bridge: takes the machine's step for data |
| Net.Socket.OnRead | src/js/net.js:359-382 | Takes the machine's step: data is taken, EOF is recorded, a read error changes nothing |
| Net.Server.constructor | src/js/net.js:436-458 | Bridge: a server without handle and without sockets |
| Net.Server.Listen | src/js/net.js:465-515 | Bridge: holds a handle, which listens exactly if neither bind nor listen failed; returns the error |
| Net.Server.Close | src/js/net.js:530-546 | Bridge: gives the handle up and schedules `close` if drained |
| Net.Server.EmitCloseIfDrained | src/js/net.js:549-559 | Bridge: schedules `close` exactly if there is neither a handle nor a socket |
| Net.Server.OnConnection | src/js/net.js:569-589 | Bridge: creates a ready socket linked to the server and counts it |
| HttpSpec.HeaderReceived | src/module/iotjs_module_httpparser.c:106-138 | However name and value of a header are cut up, the header is received whole |
| HttpSpec.LastWinsMeaning | src/js/http_incoming.js:53-62 | The map has exactly the names of the block, each with its last value |
| HttpSpec.StoredFacts | src/iotjs_string.c:124-146 | A message whose pieces have no NUL is held by C strings as it is |
| HttpSpec.UrlIntact | src/js/http_common.js:57-66 | A request's URL arrives intact if and only if no earlier request on the connection overflowed the table |
| HttpSpec.UrlsPileUp | src/js/http_common.js:57-66 | From the first request that overflows the table on, a request gets the URLs of all requests since then, joined |
| HttpParser.AddHeader | src/js/http_common.js:114-123 | Appends one list to the other, in place |
| HttpParser.IncomingMessage.AddHeaders | src/js/http_incoming.js:53-62 | The last-wins map of the block is laid over the headers the message has |
| HttpParser.HttpParserWrap.constructor | src/module/iotjs_module_httpparser.c:31-80 | Empty table, nothing flushed |
| HttpParser.HttpParserWrap.OnMessageBegin | src/module/iotjs_module_httpparser.c:84-89 | Forgets the URL on the C side only, and the status text |
| HttpParser.HttpParserWrap.OnUrl | src/module/iotjs_module_httpparser.c:92-96 | Appends a piece of the URL, as `strncpy` copies it |
| HttpParser.HttpParserWrap.OnStatus | src/module/iotjs_module_httpparser.c:99-103 | Appends a piece of the status text, as `strncpy` copies it |
| HttpParser.HttpParserWrap.OnHeaderField | src/module/iotjs_module_httpparser.c:106-123 | Extends or begins a name; a flush on the way changes neither the headers received nor the URL, and happens exactly at the header that would fill the table; the assertion and all indices hold |
| HttpParser.HttpParserWrap.OnHeaderValue | src/module/iotjs_module_httpparser.c:126-138 | Completes a header or extends its value; the assertion and all indices hold |
| HttpParser.HttpParserWrap.MakeHeader | src/module/iotjs_module_httpparser.c:242-255 | A new list with the complete headers of the table |
| HttpParser.HttpParserWrap.Flush | src/module/iotjs_module_httpparser.c:258-280 | Headers and URL move to JavaScript, none lost or repeated |
| HttpParser.HttpParserWrap.OnHeaders | src/js/http_common.js:128-134 | A batch is appended to what JavaScript has |
| HttpParser.HttpParserWrap.OnHeadersComplete | src/module/iotjs_module_httpparser.c:141-202 | The message has the last-wins map of all complete headers and the collected URL, flushed or not; the parser is ready for the next message |
| HttpParser.HttpParserWrap.ParserOnHeadersComplete | src/js/http_common.js:57-94 | Uses the list handed over or the collected one, and resets the latter only then |
| HttpParser.HttpParserWrap.DeliverHeader | src/module/iotjs_module_httpparser.c:106-138 | All callbacks of one header, in any fragmentation, add exactly that header |
| HttpParser.HttpParserWrap.ParseMessage | src/module/iotjs_module_httpparser.c:84-202 | Requests and responses, for every fragmentation and every table size from 2: the headers are the last-wins map of the block; a request has its URL once, behind what was left over from before, a response its status text |
| HttpParser.ParseConnection | src/js/http_common.js:57-134 | Over a whole connection of requests or of responses: every message has its own headers and status, and a request its own URL if and only if no earlier one overflowed the table, otherwise all URLs since the first that did; pieces with NULs count as the C strings hold them |
| HttpParser.ParseBoth | src/module/iotjs_module_httpparser.c:106-168 | Two parsers, of requests or responses each, with tables of any two sizes deliver equal headers for any two fragmentations of one block |
| IotString.StrncpyFaithful | src/iotjs_string.c:124-146 | The copy is faithful if and only if nothing but NULs follows a NUL |
| IotString.StrncpyMeaning | src/iotjs_string.c:124-146 | The copy is the source up to the first NUL, and NULs from there on |
| IotString.DoubledIsLeast | src/iotjs_string.c:136-139 | The loop doubles as often as is needed and not once more |
| IotString.DoubledBounds | src/iotjs_string.c:136-139 | The doubling loop ends at a capacity that suffices, below twice the need, and at least twice the old one |
| IotString.Amortised | src/iotjs_string.c:109-146 | However a text is split into appends, all copying by reallocations together is less than twice its length, and so is the capacity |
| IotString.String.CreateWithSize | src/iotjs_string.c:32-50 | Holds exactly the given bytes, terminated |
| IotString.String.Reserve | src/iotjs_string.c:75-88 | Keeps the text and its terminator, and has at least the capacity asked for |
| IotString.String.MakeEmpty | src/iotjs_string.c:98-106 | Holds nothing and no block |
| IotString.String.Append | src/iotjs_string.c:109-146 | The text followed by what `strncpy` makes of the new bytes, terminated inside the block; sizes follow the growth rule |
| IotString.String.Grow | src/iotjs_string.c:136-141 | Doubles until the need fits and keeps the text |
| Graph.ReachLeast | tools/build.py:608-623 | Reachable names are the least closed set above the seeds |
| Build.InitialQueue | tools/build.py:577-606 | Succeeds if and only if the command line and the configuration fit together, and then yields exactly the names asked for on the command line, the mandatory ones and, unless the build is minimal, the optional ones, without those excluded by either; an error carries a name that is at fault for the reason it gives |
| Build.FaultMeansInconsistent | tools/build.py:577-606 | Such an error is possible only for arguments that do not fit together |
| Build.ConsistentMeans | tools/build.py:577-606 | What fitting together means for each single name: how often, and in which of the lists, it may occur |
| Build.WantedIsScanned | tools/build.py:577-597 | Every module asked for, mandatory or, in a build that is not minimal, optional is in the build unless it is excluded |
| Build.ObstacleMeansUnbuildable | tools/build.py:611-623 | An error of the scan is possible only for sources that cannot be built |
| Build.Analyze | tools/build.py:608-631 | Terminates; succeeds if and only if every source reached exists and requires nothing excluded, and otherwise names such a source; then the modules are `iotjs` and exactly the names reachable from the seeds, without `native`, and the native bindings are exactly those named in the sources read |
| Build.AnalyzeModuleDependency | tools/build.py:571-638 | Both together, with the module set, the native bindings and the errors of both |
| Build.ExcludedStayOut | tools/build.py:599-606 | On success no source read had been excluded, and every mandatory module is in |
| Loader.Native.Require | src/js/iotjs.js:194-209 | Terminates on every graph, cycles included, and changes the cache as the function of that name says; every module is compiled once |
| Loader.Native.Compile | src/js/iotjs.js:212-219 | Runs the requirements of a module in order until one throws |
| Loader.Native.CompileNativePtr | src/module/iotjs_module_process.c:77-114 | Finds a name exactly if the table has it |
| LoaderSpec.RequireLoads | src/js/iotjs.js:194-219 | A load makes only reachable entries; on success each of them is in the table and everything it requires is loaded; on failure one of them is unknown |
| LoaderSpec.FirstRequire | src/js/iotjs.js:194-219 | From an empty cache: succeeds if and only if everything reachable is in the table, and then loads exactly the reachable modules |
| LoaderSpec.ResultsAt | src/js/iotjs.js:194-209 | The k-th call of a session has the result and the effect of one `require` in the cache that the calls before it left |
| LoaderSpec.BuildIsClosed | tools/js2c.py:253-256 | The table made by the build is closed under everything its modules may require |
| LoaderSpec.ClosedNeverFails | src/module/iotjs_module_process.c:77-114 | With a closed table every load of a name in it succeeds and stays in it |
| LoaderSpec.BuildToRuntime | src/js/iotjs.js:194-219 | After a successful build every call of every session returns, every module asked for is loaded, and nothing outside the table ever is; a session is any list of calls by `iotjs.js` and loaded modules of names in their text, and by `module`, on behalf of user code, of any name in the table |
| Loader.Native.Serve | src/js/iotjs.js:194-209 | The results and the cache of any list of calls are those of the function on caches |
| Loader.BuildAndServe | tools/build.py:571-638 | The build fails exactly on its conditions; if it succeeds and the table holds what it found, every call of the session returns, every module asked for is compiled once, and only modules of the table are |
| Buffers.LexZeroIsEqual | src/module/iotjs_module_buffer.c:122-146 | Comparison yields 0 exactly for equal contents |
| Buffers.LexAntisymmetric | src/module/iotjs_module_buffer.c:122-146 | Swapping the operands negates the result |
| Buffers.LexTransitive | src/module/iotjs_module_buffer.c:122-146 | The order is transitive, strictly if either part is |
| Buffers.LexMeaning | src/module/iotjs_module_buffer.c:122-146 | Less means a proper prefix or a smaller byte at the first difference |
| Buffers.LexOnBytes | src/module/iotjs_module_buffer.c:122-146 | The same on the byte values, for unsigned `char` and for signed, where bytes from 128 on come first |
| Buffers.Compare | src/module/iotjs_module_buffer.c:122-146 | Computes that order: -1, 0 or 1 exactly as the first operand is less, equal or greater |
| Buffers.OverlapHazard | src/module/iotjs_module_buffer.c:148-160 | A copy inside one buffer is faithful for all contents if and only if the destination does not start inside the source |
| Buffers.CopyInternal | src/module/iotjs_module_buffer.c:148-160 | Copies as much as fits; inside one buffer it repeats the bytes between source and destination |
| Buffers.CopyTo | src/js/buffer.js:116-130 | Range error, or the clamped copy |
| Buffers.SliceLaws | src/module/iotjs_module_buffer.c:282-317 | Slices compose, adjacent slices join, negative indices count from the end |
| Buffers.SlicedOutOfRange | src/module/iotjs_module_buffer.c:282-317 | Slices beyond either end are what there is of them |
| Buffers.Slice | src/module/iotjs_module_buffer.c:282-317 | A new buffer with the clamped part |
| Buffers.Concat | src/js/buffer.js:58-79 | A new buffer with the contents of all buffers in order |
| Buffers.Write | src/js/buffer.js:139-153 | Range error, or the clamped write |
| Buffers.ToString | src/module/iotjs_module_buffer.c:320-347 | The clamped part up to its first NUL |
| Buffers.TextRoundTrip | src/js/buffer.js:25-47 | A text put into a new buffer comes back if and only if it has no NUL |
| Files.File.WriteSync | src/module/iotjs_module_fs.c:274-308 | Throws for empty data and ranges outside, else overwrites the file with the bytes moved |
| Files.OverwrittenMeaning | src/module/iotjs_module_fs.c:274-308 | A write changes exactly the bytes at its position, and the file grows only as far as they reach |
| Files.WriteFileSync | src/js/fs.js:325-347 | Under every schedule of short writes the file holds the first bytes of the data, as many as returned, all of them unless a request threw |
| Files.ReadFileSync | src/js/fs.js:253-275 | Under every schedule of short reads a prefix of the file, all of it unless a request threw |
| Files.WriteThenRead | src/js/fs.js:253-347 | Written and read back, the data itself without exceptions, otherwise a prefix of it |

## Left out

- Machine integers: sizes, counts and capacities are unbounded; the wrap-around of `unsigned` sizes is not modelled.
- Characters: strings are bytes; a JavaScript string and its encoded form have the same length here.
- Re-entrant listeners: calls made by `data` listeners of a readable stream are nested in the run; after every other emission only `read` (its return) and `onread` (`net.js:368-372`, after `end`) still act, and calls made by listeners of such events are later inputs of the run: a user's `end` listener acts after `onread` has cleared `readable`, not in between. For sockets `data` listeners too act later, and a user's own `finish` listener runs after the socket's. Listeners do not throw; an exception from a `data` listener would skip the check for `end` at `stream_readable.js:195-197`.
- Net.Socket: its class invariant covers the two streams and the writable flag; the socket invariant follows for all runs from `NetSpec.RunInv`, since each method takes one step. An exception of a missing handle (a socket that never began to connect) is not modelled; a failing name lookup, which calls a method that does not exist, is not either.
- Net.Server.Listen: the events `listening`, `connection` and `error`, which change no state.
- Shutdown: a shutdown of a handle that is not connected fails without a callback; a connected one calls back once.
- Writes: each call of `_write` is acknowledged once; the status passed to the acknowledgement is ignored, as it is by the source.
- HttpParser.HttpParserWrap.OnHeaderValue: its requirement that a name or value came before is the grammar of the HTTP parser, as are non-empty URLs of requests. The parser itself, bodies, upgrade and keep-alive are not modelled, and neither are trailers. Header names that are special properties of a JavaScript object are treated like any other. The table size, 10 in the source, is a parameter.
- HttpParser.HttpParserWrap.Flush: the table holds byte sequences, not string objects. Appending a piece adds exactly what the contract of `IotString.String.Append` says; for pieces without NUL that is the piece. Ownership of the string blocks is not modelled.
- HttpParser.HttpParserWrap.ParserOnHeadersComplete: the URL of a response, which JavaScript leaves undefined, is the empty sequence here.
- IotString.String.Reserve: the block it asks for when empty is zeroed, as the allocator does; `create_with_buffer` with an empty buffer, which the source's own assertions exclude from later appends, is not modelled.
- LoaderSpec.BuildToRuntime: while they are loaded, module bodies require only names that their text requires literally; `iotjs.js`, which the build does not scan, only mandatory modules. User modules, whose cyclic requires do not terminate, are modelled only by the calls that `module` makes for them.
- Build.Analyze: a source is reduced to the two lists of names that the regular expressions find.
- Process tick queue: ticks may run in any order relative to other callbacks, which includes the order the queue gives.
- Asynchronous `readFile` and `writeFile`: on success they move the same pieces as the synchronous ones; on error they call back twice.
- NuttX branches of `end` and `onread`, socket timeouts, DNS, UDP, GPIO, I2C, PWM, console, timers and the test driver.
