# Verification models of the Linux_Advance servers

Dafny models of the four stateful cores of the repository, with proofs of what they promise:

- **The calculator protocol and the edge-triggered reactor** (`day_02/demo_01/reactor`, and the blocking
  server and client in `day_01/demo_01/tcp_server_cal`). `Text`, `Decimal` and `Protocol` model the byte
  strings, decimal numbers, frames `len CRLF payload CRLF` and the `SELF` text codec; `Draining` the loop
  that cuts frames off a growing buffer; `Service` what one connection answers; `Calculate` the calculator.
  `Kernel` is the environment: open descriptors, the epoll interest set and, for every system call, a finite
  script of answers about which nothing is assumed. `Loops` gives the receive, send and accept loops as
  functions of such scripts, `Handlers` what the handlers and a whole batch of events make of a connection and
  of those scripts, and `Edges` what edge triggering asks of them. `ReactorServer` (file
  `Reactor.dfy`) holds the reactor itself as classes that change in place: `Connection`, `Reactor`,
  `IOService`, `PackageParse`, `Listener`, and `Dispatcher` for the event loop. `Blocking` holds the
  blocking server, the client, and the two put together.
- **The thread pool** (`day_01/demo_01/tcp_server_echo/Threadpool.hpp`): `Threadpool` is a transition system
  with one step for each statement that touches shared fields, any number of workers, spurious wakeups and
  signals that wake at least one thread (`pthread_cond_signal`, `pthread_cond_wait` and
  `pthread_cond_broadcast` of POSIX.1-2017). `Singleton` is `GetInstance` for any number of callers.
- **The select and poll servers** (`day_02/demo_01/select_server_echo`, `poll_server_echo`): `FdTable`,
  `SelectServer`, `PollServer`.
- **The HTTP/1.0 message reader and writer** (`day_01/demo_02/http/Http.hpp`; messages as in sections 4 to 6
  of RFC 1945): `Http`.

## Reading the model

One `char` of a `string` stands for one byte. `int` arithmetic that the C++ code does in 32 bits is wrapped
explicitly (`Decimal.Wrap32`); a signed overflow in the calculator has no defined behaviour and is the result
`None`. An exception that nobody catches is a result of its own (`Threw`, `NumberThrew`, `Died`, `Crash`).
Object state, loops and handlers of the source are classes and methods. The kernel keeps its own record
(`Kernel.Record`, written only by the system calls): for each descriptor the chunks delivered and the bytes
taken, the streams of closed descriptors, the descriptors `recv` was called on, the calls of `accept`, and what
`epoll_wait`, `select` and `poll` reported. Other ghost fields (`rx`, `tx`, `bursts`, `finished`, `calls`,
`stored`, `offered`, `wire`, `short`) record what the servers saw of it; the invariants tie `rx`, `tx` and
`finished` to the kernel's record, so that the theorems speak about bytes on the wire. A handler may stop in the
middle because a system call does not come back (`Stalled`), because the drain loop never ends (`Looping`) or
because the process dies (`Dead`); the safety theorems hold at those moments too.

The bodies of a few long functions are split: `SendWhilePossible`, `ReadWhilePossible`, `DrainInto`,
`AcceptOne`, `Readable`, `Writable`, `Dispatch`, `DispatchNext`, `AnswerPackages` and `ShowPackages` are the loops
(or one round of the loop) of the method named after them in the table; `WaitForEvents` is the call of
`epoll_wait` at the head of `LoopOnce`.

## Where the code does less than its names or comments promise

Each of these is proved, with the exact condition where there is one.

- A stream may be cut into chunks in any way only if it is `Robust` (`Draining.ChunkingInvariance`). An empty
  payload is taken for "not complete" although its frame was erased (`Draining.EmptyPayloadStalls`); a
  negative length is accepted by `std::stoi`, and one that makes the total length zero keeps the drain loop
  going forever (`Draining.NegativeLengthSpins`). When the loop ends and how is `Draining.DrainEnds`, with
  `Service.ServeEnds` for the servers and `Blocking.ShowEnds` for the client.
- `HandlerRecv` clears `errno` once, and `recv` does not set it when it returns 0. A peer's close after an
  interruption in the same call is never noticed (`Loops.CloseNoticed`).
- The result of `DeSerialize` is ignored, so a first package that is rejected is answered with the
  uninitialized request (`Service.StaleRequestShows`), and a later one with the reply to the last request that
  was parsed (`Service.RejectedRepeats`).
- Data received in the same call as the peer's close is dropped with the connection; the contract of
  `ReactorServer.IOService.HandlerRecv` says so.
- Received bytes are appended as C strings, so a NUL byte cuts its chunk (`Blocking.BytesSurvive`).
- The client starts every round with an empty buffer, so a reply that arrives in two pieces is lost
  (`Blocking.RunClient`, `Blocking.SplitReplyIsLost`).
- The blocking service ignores what `send` returns, so a short send loses bytes in the middle of the stream
  (`Blocking.RunService`, `Blocking.ShortSend`).
- `Accepter` stops on ECONNABORTED or EMFILE although clients are queued; under edge triggering they wait until
  another one arrives (`Edges.NoEdgeLost`, `Edges.AbortedConnection`).
- The select server's table has room for descriptors its fd_set has no bit for (`SelectServer.SetOverflowsFirst`,
  `SelectServer.Server.BuildSet`).
- `GetInstance` assigns `_instance` before `InitThreadPool` runs, so a caller on the fast path can get a pool
  that is not running yet and refuses tasks (`Singleton.PublishedTooEarly`, `Singleton.NotRunningExactlyWhen`);
  and a `Stop` called in that moment is undone (`Singleton.StopLastsExactlyWhen`).
- A response codec round trip needs a one-digit flag and a non-empty equation (`Protocol.ResponseRoundTrip`);
  everything `Execute` answers has both (`Calculate.ExecuteMeetsCodec`).

## Model

| member | source | states |
|---|---|---|
| Text.Find | day_02/demo_01/reactor/Protocol.hpp:34 | the lowest occurrence at or after an index, and nothing before it; none means there is none |
| Text.RFind | day_02/demo_01/reactor/Protocol.hpp:102 | the highest occurrence below an index, and nothing above it |
| Text.CString | day_02/demo_01/reactor/IOService.hpp:21-22 | appending a received buffer as a C string keeps exactly what precedes the first NUL |
| Decimal.StoiToString | day_02/demo_01/reactor/Protocol.hpp:76-113 | `std::stoi` undoes `std::to_string` for every 32-bit int, negatives included |
| Decimal.ToStringExactly | day_02/demo_01/reactor/Protocol.hpp:23-25 | `std::to_string` gives the one string with that value that has a minus sign exactly for negative numbers and no leading zero but in 0 |
| Protocol.DecodeEncode | day_02/demo_01/reactor/Protocol.hpp:21-55 | a frame followed by any bytes decodes to its payload and leaves exactly those bytes, whatever the payload holds |
| Protocol.EncodeIsFrame | day_02/demo_01/reactor/Protocol.hpp:20-30 | a string is what Encode makes of a payload if and only if it is the decimal length, CR, LF, the payload, CR, LF, byte by byte |
| Protocol.DecodePrefix | day_02/demo_01/reactor/Protocol.hpp:32-50 | on every proper prefix of a frame Decode returns nothing and leaves the buffer alone |
| Protocol.HeaderAppend | day_02/demo_01/reactor/Protocol.hpp:34-44 | bytes that arrive later do not change a header that is already there |
| Protocol.RequestRoundTrip | day_02/demo_01/reactor/Protocol.hpp:72-127 | request DeSerialize inverts Serialize for all 32-bit operands and every operator byte, blank included |
| Protocol.RequestTextExactly | day_02/demo_01/reactor/Protocol.hpp:72-78 | a string is the serialized request if and only if two blanks with one byte between them, the operator, cut it into the decimal operands |
| Protocol.ResponseTextExactly | day_02/demo_01/reactor/Protocol.hpp:141-147 | a string is the serialized response if and only if it is result, blank, flag, blank, equation, in this order, the numbers in decimal |
| Protocol.ResponseRoundTrip | day_02/demo_01/reactor/Protocol.hpp:141-197 | response DeSerialize inverts Serialize if and only if the flag is 0 to 9 and the equation is not empty |
| Calculate.TruncatingDivision | day_02/demo_01/reactor/Calculate.hpp:47-62 | the C++ quotient and remainder belong together and the remainder has the sign of the dividend |
| Calculate.ExecuteCases | day_02/demo_01/reactor/Calculate.hpp:18-72 | the result is defined if and only if it fits an int; the flag says exactly which case it was |
| Calculate.ExecuteMeaning | day_02/demo_01/reactor/Calculate.hpp:18-72 | results are inverse to the operands, quotient and remainder are the truncating ones, a good equation is the serialized request followed by the result, and each error flag has its own text |
| Calculate.ExecuteMeetsCodec | day_02/demo_01/reactor/Calculate.hpp:18-72 | every answer of Execute survives the response codec and is not an empty payload |
| Draining.ChunkingInvariance | day_02/demo_01/reactor/PackageParse.hpp:17-47 | feeding a stream in any chunks gives the same payloads and the same end as draining it at once, if and only if the stream is Robust |
| Draining.FramesDrain | day_02/demo_01/reactor/PackageParse.hpp:17-47 | any number of frames with non-empty payloads, followed by anything that holds no complete frame, drain to exactly the payloads and keep the rest; such streams are Robust |
| Draining.PartOfFrames | day_02/demo_01/reactor/PackageParse.hpp:17-47 | a stream of frames cut anywhere drains to its first payloads, waits for more, and is Robust; every byte is in the frames of those payloads or still in the buffer |
| Draining.FeedIsDrainOfFrames | day_02/demo_01/reactor/PackageParse.hpp:17-47 | feeding any part of such a stream in any chunks, from any quiet buffer, is draining it at once, however long the stream is |
| Draining.AnyChunkingOfFrames | day_02/demo_01/reactor/PackageParse.hpp:17-47 | every chunking of such a stream gives the receiver the same payloads in order and the same final buffer |
| Draining.CutFrameIsQuiet | day_02/demo_01/reactor/Protocol.hpp:47-50 | a cut-off frame makes the drain loop wait and changes nothing |
| Draining.EmptyPayloadStalls | day_02/demo_01/reactor/PackageParse.hpp:19-21 | after an empty payload the next request waits or is served depending on the chunking |
| Draining.NegativeLengthSpins | day_02/demo_01/reactor/Protocol.hpp:44-54 | an input on which the drain loop returns the same package forever |
| Draining.DrainEnds | day_02/demo_01/reactor/PackageParse.hpp:17-47 | for every buffer: the drain loop fails to terminate if and only if the headers met lead to a zero-byte frame, and throws if and only if they lead to one std::stoi cannot read |
| Service.ServeOneMore | day_02/demo_01/reactor/PackageParse.hpp:10-47 | one more run of the drain loop continues from the buffer the earlier runs left |
| Service.ServeGood | day_02/demo_01/reactor/PackageParse.hpp:17-47 | on well-formed packages the drain loop's replies are the encoded responses to them, one each, in order |
| Service.AnswersIndependentOfDelivery | day_02/demo_01/reactor/PackageParse.hpp:10-47 | the reply bytes depend only on the received bytes: neither on the chunking nor on uninitialized requests; for frames of good requests without any bound on their total |
| Service.AnswersSoFar | day_02/demo_01/reactor/PackageParse.hpp:10-47 | while part of a stream has been served, the reply bytes are a prefix of the right answers to the whole stream |
| Service.ServeEnds | day_02/demo_01/reactor/PackageParse.hpp:17-47 | the server's loop ends as the drain loop does unless a package kills the process first; it fails to terminate if and only if the buffer spins and no package does |
| Service.StaleRequestShows | day_02/demo_01/reactor/PackageParse.hpp:15-31 | the initial value of `req` shows in the replies if and only if the first package is rejected |
| Service.StaleRequestExample | day_02/demo_01/reactor/PackageParse.hpp:15-31 | a buffer on which it shows: the one-byte package "x" |
| Service.RepliesAreLatest | day_02/demo_01/reactor/PackageParse.hpp:15-31 | on any buffer and with any initial request each reply is that to the last request parsed so far, or to the initial one |
| Service.RejectedRepeats | day_02/demo_01/reactor/PackageParse.hpp:15-31 | packages that are rejected get the reply of the package before them once more, however many there are |
| Service.RepliesAllGood | day_02/demo_01/reactor/PackageParse.hpp:17-47 | reply by reply, the server sends the frames of the right responses |
| Loops.RecvReturns | day_02/demo_01/reactor/IOService.hpp:13-40 | the receive loop comes back if and only if some answer ends it: a failure other than EINTR, or a close with no interruption before it |
| Loops.RecvEndsAt | day_02/demo_01/reactor/IOService.hpp:14-40 | the receive loop reads all data before the first answer that ends it and nothing after it, and only EAGAIN leads on to parsing |
| Loops.CloseNoticed | day_02/demo_01/reactor/IOService.hpp:24-39 | a peer's close is noticed if and only if no EINTR came earlier in the same call |
| Loops.SendReturns | day_02/demo_01/reactor/IOService.hpp:50-82 | the send loop ends after at most one answer for each buffered byte, one for each interruption, and one more |
| Loops.SendEndsAt | day_02/demo_01/reactor/IOService.hpp:50-82 | the answer that ends the send loop is the first that is neither EINTR nor a positive count, or the one that empties the buffer; the connection is given up if and only if it is an error other than EAGAIN, and bytes are left without an error only by EAGAIN or a send that took nothing |
| Loops.AcceptEndsAt | day_02/demo_01/reactor/Listener.hpp:24-61 | the accept loop takes everybody before the first failure that is not an interruption, and nobody after it |
| Edges.NoEdgeLost | day_02/demo_01/reactor/Listener.hpp:42-59 | in every run of one descriptor, whatever waits in it is behind a pending event whenever its handler is not running, if and only if no accept loop breaks off on an error with clients left and no new event |
| Edges.ReceiverNeverStuck | day_02/demo_01/reactor/IOService.hpp:14-40 | a connection never waits without an event: HandlerRecv leaves it empty or removes it |
| Edges.StuckUntilArrival | day_02/demo_01/reactor/Listener.hpp:54-58 | clients left behind that way wait until another client arrives |
| Edges.AbortedConnection | day_02/demo_01/reactor/Listener.hpp:54-58 | a run that leaves one behind: two clients, one event, ECONNABORTED |
| Edges.RunsAsAcceptLoop | day_02/demo_01/reactor/Listener.hpp:24-61 | in such a run Accepter goes on exactly as long as its loop does on the answers given |
| Edges.RunsAsRecvLoop | day_02/demo_01/reactor/IOService.hpp:13-40 | likewise HandlerRecv, with the same way of ending |
| Handlers.EventReads | day_02/demo_01/reactor/Reactor.hpp:82-94 | one event on a client takes from the recv answers exactly one receive loop if it is readable, hung up or in error, and nothing otherwise, and touches no accept answer |
| Handlers.EachDone | day_02/demo_01/reactor/Reactor.hpp:69-95 | in a batch that was worked off every event did what its handlers do, from the answers the event before it left, the first from those at the return of epoll_wait |
| Handlers.BatchAnswers | day_02/demo_01/reactor/Reactor.hpp:69-95 | over a whole batch the recv answers are used by one receive loop for each readable client, the accept answers by one accept loop if the listening socket is readable, in the order of the events |
| ReactorServer.Connection.DecodeInbuffer | day_02/demo_01/reactor/PackageParse.hpp:19 | Decode on the input buffer in place: what it returns and what it leaves |
| ReactorServer.Connection.OutBufferRemove | day_02/demo_01/reactor/Connection.hpp:58-61 | exactly the first n bytes of the output buffer go, or all of them |
| ReactorServer.Reactor.constructor | day_02/demo_01/reactor/Main.cc:22-30 | the server starts with only the listening socket, watched, and every invariant established |
| ReactorServer.Reactor.AddConnection | day_02/demo_01/reactor/Reactor.hpp:16-31 | the new entry, the kernel mask, and that an existing entry is never replaced |
| ReactorServer.Reactor.EnableReadWrite | day_02/demo_01/reactor/Reactor.hpp:40-50 | the stored mask and the kernel mask change together; table and interest set still agree |
| ReactorServer.Reactor.RemoveConnection | day_02/demo_01/reactor/Reactor.hpp:52-63 | the entry, the interest and the open descriptor go together, no other entry changes, and a second call does nothing |
| ReactorServer.IOService.SendWhilePossible | day_02/demo_01/reactor/IOService.hpp:50-82 | bytes the kernel took on this descriptor followed by bytes left are the old buffer, for every script of short writes, EINTR, EAGAIN and errors; nothing is sent on another descriptor; it terminates |
| ReactorServer.IOService.HandlerSend | day_02/demo_01/reactor/IOService.hpp:45-95 | conservation of bytes, output interest exactly when bytes are left, removal exactly on an error; the connection's buffers agree with what the kernel recorded for its descriptor; all server invariants kept |
| ReactorServer.IOService.ReadWhilePossible | day_02/demo_01/reactor/IOService.hpp:13-40 | everything the kernel delivered on this descriptor is appended once and in order, up to the answer that ends the loop; no other descriptor is read |
| ReactorServer.IOService.HandlerRecv | day_02/demo_01/reactor/IOService.hpp:10-43 | which of parsing, removal and waiting follows; what was read in the call that finds the connection broken is never served; invariants kept |
| ReactorServer.IOService.HandlerExcept | day_02/demo_01/reactor/IOService.hpp:97-100 | exactly this connection goes, with what its wire carried recorded |
| ReactorServer.PackageParse.DrainInto | day_02/demo_01/reactor/PackageParse.hpp:17-47 | the in-place drain loop appends exactly the replies of the specification and leaves its rest |
| ReactorServer.PackageParse.Parse | day_02/demo_01/reactor/PackageParse.hpp:10-54 | one burst is served, then sent if there is output; no other connection is touched, and the invariants hold at every exit |
| ReactorServer.Listener.Accept | day_02/demo_01/reactor/Listener.hpp:19-62 | every accepted descriptor is new to the table and gets a fresh entry, old entries stay, interruptions are retried, one entry for each accepted socket |
| ReactorServer.Dispatcher.Readable | day_02/demo_01/reactor/Reactor.hpp:83-88 | the callback for input runs to its end: a client's receive loop with all that follows it, or the listening socket's accept loop, whose clients are in the table; no other entry is removed or replaced |
| ReactorServer.Dispatcher.Writable | day_02/demo_01/reactor/Reactor.hpp:90-94 | the callback for output runs the send loop of a client that is still registered; otherwise nothing happens |
| ReactorServer.Dispatcher.Dispatch | day_02/demo_01/reactor/Reactor.hpp:71-94 | one event makes exactly its callbacks, input before output, on the connection it was raised on, and leaves that connection, the kernel's answers and the table as those handlers do one after the other; the one for output is left out only if the one for input removed the entry; no other entry is removed or replaced |
| ReactorServer.Dispatcher.LoopOnce | day_02/demo_01/reactor/Reactor.hpp:66-96 | every event of the batch does to its connection and to the kernel's answers what its handlers do, each from where the one before it stopped, and a connection is as its own event left it; the callbacks made are exactly those of the events, in order: none on an object other than the one registered when epoll_wait returned, no readable event passed over, and no writable one unless its entry was removed in the batch |
| ReactorServer.Dispatcher.Despatcher | day_02/demo_01/reactor/Reactor.hpp:99-110 | over any number of rounds against any kernel: the bytes the kernel took are a prefix of the right answers to those it delivered, on every descriptor, open or closed since, for clients of good requests without any bound on the traffic; every batch epoll_wait returned was worked off before it is called again; between rounds sent and buffered bytes are all of the answers, and table, interest set, masks and open descriptors agree; the callbacks made are exactly those of the batches, none stale |
| ReactorServer.WireIsRight | day_02/demo_01/reactor/PackageParse.hpp:10-54 | from the recorded bursts to received and sent bytes alone: chunking and leftover memory do not show, and a client of good requests gets a prefix of its replies |
| ReactorServer.CaughtUpIsAnswered | day_02/demo_01/reactor/PackageParse.hpp:10-54 | the input buffer is what follows the last complete request, and sent plus buffered bytes answer all the others; of a client of good requests nothing is missing |
| ReactorServer.RepliesInOrder | day_02/demo_01/reactor/IOService.hpp:10-95 | for a client that sends well-formed requests the wire carries a prefix of the replies, in order, however much of the requests has arrived |
| ReactorServer.NothingMissing | day_02/demo_01/reactor/IOService.hpp:10-95 | between rounds the bytes received are the frames of the consumed requests followed by the input buffer, and bytes sent followed by the output buffer are the replies to exactly those |
| Blocking.Socket.Recv | day_01/demo_01/tcp_server_cal/Socket.hpp:143-153 | positive exactly when data came, which is then appended as a C string |
| Blocking.Socket.Send | day_01/demo_01/tcp_server_cal/Socket.hpp:154-158 | some prefix is taken, and a send that took less than it was given is remembered |
| Blocking.CalculatorService.AnswerPackages | day_01/demo_01/tcp_server_cal/Main.cc:44-71 | the inner loop hands exactly the specified replies to send and leaves the specified rest |
| Blocking.CalculatorService.AddService | day_01/demo_01/tcp_server_cal/Main.cc:21-73 | whatever recv answers, the bytes handed to send are the right answers to the bytes received, and how the service ends is determined by them; the wire carries those answers if and only if the kernel's answers to the sends take every reply whole |
| Blocking.RunService | day_01/demo_01/tcp_server_cal/Main.cc:21-73 | a service run on good requests in any chunks quits, with exactly the results of Execute on the wire, in order, if and only if every reply frame is taken whole |
| Blocking.ShortSend | day_01/demo_01/tcp_server_cal/Main.cc:69-70 | answers under which bytes are lost: two requests, and a first send that takes one byte |
| Blocking.ServeAllStops | day_01/demo_01/tcp_server_cal/Main.cc:37-48 | what arrives after the service has died or hangs does not matter |
| Blocking.ShowEnds | day_01/demo_01/tcp_server_cal/TcpClient.cc:113-125 | the client's loop ends as the drain loop does unless a number in a reply cannot be read; it fails to terminate if and only if the buffer spins and all replies can be read |
| Blocking.ClientConnection.ShowPackages | day_01/demo_01/tcp_server_cal/TcpClient.cc:113-125 | everything complete in one receive buffer is shown, a rejected package as the default response |
| Blocking.ClientConnection.Process | day_01/demo_01/tcp_server_cal/TcpClient.cc:58-127 | the bytes sent are the encoded requests up to the failing round, each round shows what its own recv held, and the status names the cause of the end |
| Blocking.ShowOne | day_01/demo_01/tcp_server_cal/TcpClient.cc:102-125 | a round that receives part of one reply shows it if and only if it received all of it |
| Blocking.ClientNeedsWholeReplies | day_01/demo_01/tcp_server_cal/TcpClient.cc:102-125 | over a whole run every reply is shown in its round if and only if every recv delivered exactly one whole frame |
| Blocking.BytesSurvive | day_01/demo_01/tcp_server_cal/Socket.hpp:149-150 | all received bytes reach the buffer, in any chunks, if and only if none of them is NUL |
| Blocking.RequestsArrive | day_01/demo_01/tcp_server_cal/TcpClient.cc:85-94 | a request stream reaches the server's buffer unharmed if and only if no operator is the NUL byte |
| Blocking.ReplyNotNul | day_01/demo_01/tcp_server_cal/Main.cc:57-70 | no encoded reply ever contains a NUL byte |
| Blocking.RequestsAreAnswered | day_01/demo_01/tcp_server_cal/Main.cc:27-72 | for every chunking of the requests the service sends one reply for each, in order, and nothing is left over |
| Blocking.ReplyFitsOneRecv | day_01/demo_01/tcp_server_cal/Main.cc:57-70 | every reply survives the codec and its frame is shorter than the receive buffer |
| Blocking.RunClient | day_01/demo_01/tcp_server_cal/TcpClient.cc:58-127 | a connected client sends its requests, one each round, and shows every result of Execute in its round if and only if every recv took exactly one whole reply |
| Blocking.ServiceFeedsClient | day_01/demo_01/tcp_server_cal/Main.cc:27-72 | what the client of RunClient receives is a prefix of what AddService sends for the same requests in any chunking, and all of it if every recv takes a whole reply |
| Blocking.SplitReplyIsLost | day_01/demo_01/tcp_server_cal/TcpClient.cc:102-118 | for every request and every cut of the reply, a recv that gets the first part shows nothing |
| Blocking.SplitReply | day_01/demo_01/tcp_server_cal/TcpClient.cc:102-118 | an input on which that happens: 1 + 1 and the first byte of its reply |
| Blocking.RepliesAreRecovered | day_01/demo_01/tcp_server_cal/TcpClient.cc:113-125 | for every chunking of the replies, cutting them with a buffer kept across recvs and parsing gives exactly the results of Execute |
| Blocking.ClientServerComposition | day_01/demo_01/tcp_server_cal/TcpClient.cc:85-125 | serialize, encode, any chunking, serve, any chunking back, decode, parse: a receiver that keeps its buffer recovers exactly the list of results |
| Threadpool.InvStep | day_01/demo_01/tcp_server_echo/Threadpool.hpp:46-142 | every statement of every worker and caller, every signal, broadcast and spurious wakeup keeps the invariant |
| Threadpool.EnqueueCall | day_01/demo_01/tcp_server_echo/Threadpool.hpp:118-133 | one whole Enqueue from any reachable state, whatever other threads do meanwhile: it returns true if and only if the pool runs, and exactly then the task is accepted and last in the queue, and if a worker slept fewer do |
| Threadpool.StopCall | day_01/demo_01/tcp_server_echo/Threadpool.hpp:135-142 | one whole Stop likewise: at its end the pool does not run, nobody sleeps, and no task was touched |
| Threadpool.NoLostWakeup | day_01/demo_01/tcp_server_echo/Threadpool.hpp:55-61 | in every reachable state with the mutex free, `_waitnum` is the number of workers in the wait, and while one sleeps in a running pool the queue is no longer than the number already woken |
| Threadpool.TasksAreServed | day_01/demo_01/tcp_server_echo/Threadpool.hpp:118-133 | a queued task never waits with every worker asleep |
| Threadpool.FirstInFirstOut | day_01/demo_01/tcp_server_echo/Threadpool.hpp:72-77 | taken tasks followed by the queue are the accepted tasks in order; each taken task is in one worker's hands or has run once |
| Threadpool.StoppedStep | day_01/demo_01/tcp_server_echo/Threadpool.hpp:55-69 | after Stop nobody goes to sleep, nothing is accepted, and every worker step lowers a measure that no other step raises |
| Threadpool.ShutdownTerminates | day_01/demo_01/tcp_server_echo/Threadpool.hpp:135-142 | after Stop the workers take at most as many steps as the measure says, whatever callers do |
| Threadpool.ShutdownDrains | day_01/demo_01/tcp_server_echo/Threadpool.hpp:63-69 | when a stopped pool comes to rest all workers have left, the queue is empty and every accepted task ran exactly once |
| Threadpool.NeverStuck | day_01/demo_01/tcp_server_echo/Threadpool.hpp:135-142 | until all workers of a stopped pool have left, a worker or the caller holding the mutex can go on |
| Singleton.OneInstance | day_01/demo_01/tcp_server_echo/Threadpool.hpp:95-116 | in every interleaving at most one pool is constructed, every caller gets that one, and one that went through the lock gets it running unless Stop was called |
| Singleton.PublishedTooEarly | day_01/demo_01/tcp_server_echo/Threadpool.hpp:105-107 | an interleaving in which a caller gets the pool before it runs |
| Singleton.NotRunningExactlyWhen | day_01/demo_01/tcp_server_echo/Threadpool.hpp:98-115 | a caller gets a pool that is not running if and only if the creator is between the assignment and the end of InitThreadPool, which takes the fast path, or Stop was called after InitThreadPool |
| Singleton.StopLastsExactlyWhen | day_01/demo_01/tcp_server_echo/Threadpool.hpp:83-92 | a Stop lasts in every continuation if and only if the pool is not just being initialized: InitThreadPool undoes an earlier Stop |
| FdTable.Store | day_02/demo_01/select_server_echo/SelectServer.hpp:53 | storing a new descriptor in an empty slot adds it to the set and keeps entries distinct |
| FdTable.Clear | day_02/demo_01/select_server_echo/SelectServer.hpp:75 | emptying a slot removes exactly its descriptor |
| FdTable.FullMeansCapacity | day_02/demo_01/select_server_echo/SelectServer.hpp:38-50 | the table is full if and only if it holds as many descriptors as it has slots |
| FdTable.ReadyFromExact | day_02/demo_01/select_server_echo/SelectServer.hpp:89-105 | what one scan services are exactly the ready descriptors of the table, each once |
| FdTable.ScanServices | day_02/demo_01/select_server_echo/SelectServer.hpp:87-106 | scanning the slots behind the listening socket for a report of open descriptors reads each reported client once and nothing else; stopping early reads part of them |
| SelectServer.Server.constructor | day_02/demo_01/select_server_echo/SelectServer.hpp:19-26 | the table holds exactly the listening socket, in slot 0 |
| SelectServer.Server.AcceptClient | day_02/demo_01/select_server_echo/SelectServer.hpp:28-57 | one accept; a new client gets the first empty slot, or is closed again exactly when the table is full; slots and open sockets still agree |
| SelectServer.Server.ServiceIO | day_02/demo_01/select_server_echo/SelectServer.hpp:59-85 | one recv on that client; slot and socket go together, exactly when no data came |
| SelectServer.Server.HandlerRead | day_02/demo_01/select_server_echo/SelectServer.hpp:87-106 | one scan calls recv on exactly the ready clients that were in the table when select returned, each once, never on one accepted meanwhile; it accepts one client if and only if the listening socket is ready, and stores it if and only if the table is not full; it looks outside the fd_set if and only if the descriptor it stored has no bit there |
| SelectServer.Server.BuildSet | day_02/demo_01/select_server_echo/SelectServer.hpp:113-123 | FD_SET writes outside the fd_set if and only if an open descriptor is above 1023; otherwise the set handed to select is the set of open sockets and maxfd its maximum |
| SelectServer.Server.Loop | day_02/demo_01/select_server_echo/SelectServer.hpp:108-144 | over any number of rounds the table is the set of open sockets with the listener in slot 0; each report of select leads to one recv on each reported client and to none on the listener, and the calls of accept are the reports of the listener; the fd_set is left if and only if a descriptor it began with or stored has no bit |
| SelectServer.LowestFirst | day_02/demo_01/select_server_echo/SelectServer.hpp:28-57 | the tables that accept fills with the lowest free numbers, each one AcceptClient step after the other, none full |
| SelectServer.SetOverflowsFirst | day_02/demo_01/select_server_echo/SelectServer.hpp:44-54 | with client 1021 such a table holds descriptor 1024 while slots are empty, and not before: the full-table branch does not protect the fd_set |
| PollServer.ReportedIsReady | day_02/demo_01/poll_server_echo/PollServer.hpp:99-122 | a scan of the poll table services what a scan of the select table does for the same descriptors |
| PollServer.Server.constructor | day_02/demo_01/poll_server_echo/PollServer.hpp:20-32 | the table holds exactly the listening socket, in slot 0, with input asked for |
| PollServer.Server.AcceptClient | day_02/demo_01/poll_server_echo/PollServer.hpp:34-65 | as for select, and a new slot starts with nothing reported |
| PollServer.Server.ServiceIO | day_02/demo_01/poll_server_echo/PollServer.hpp:67-97 | as for select; an emptied slot asks for and reports nothing |
| PollServer.Server.HandlerRead | day_02/demo_01/poll_server_echo/PollServer.hpp:99-122 | one scan calls recv on exactly the clients poll reported, each once, never on one accepted meanwhile; it accepts one client if and only if the listening socket is reported, and stores it if and only if the table is not full |
| PollServer.Server.Loop | day_02/demo_01/poll_server_echo/PollServer.hpp:124-145 | over any number of rounds the table is the set of open sockets with the listener in slot 0; each report of poll leads to one recv on each reported client and to none on the listener, and the calls of accept are the reports of the listener; no descriptor number is too large |
| Http.ReadInvertsPrint | day_01/demo_02/http/Http.hpp:42-84 | reading a printed message gives request line, header list and body back if and only if first line and header lines are non-empty and have no CRLF inside; the body is arbitrary |
| Http.HeadLinesAreLines | day_01/demo_02/http/Http.hpp:63-80 | on any input the header lines read are non-empty and have no CRLF |
| Http.FieldRoundTrip | day_01/demo_02/http/Http.hpp:156-159 | splitting at the first ": " undoes joining if and only if the name has no ": " |
| Http.ReadFieldsExact | day_01/demo_02/http/Http.hpp:152-162 | for any header lines the map holds exactly the names that occur before the first line without ": ", each with the value of its last line there |
| Http.ReadFieldsSucceeds | day_01/demo_02/http/Http.hpp:152-162 | ParseReqHeader returns true if and only if every line has a ": " |
| Http.ResponseReadsBack | day_01/demo_02/http/Http.hpp:227-245 | splitting a serialized response by the request's rules gives status line, header map and body back, in any hash order, if and only if there is no CRLF outside the body and no ": " in a name |
| Http.StatusLineText | day_01/demo_02/http/Http.hpp:229 | a string is the status line if and only if it is HTTP/1.0, blank, the code in decimal, blank, the description |
| Http.PrintedMessage | day_01/demo_02/http/Http.hpp:236-243 | first line, header lines, empty line and body, each line with its own CR and LF |
| Http.StaleHeadersAreOverwritten | day_01/demo_02/http/Http.hpp:230-233 | header lines left by an earlier Serialize do not change what is read |
| Http.RequestLineRead | day_01/demo_02/http/Http.hpp:86-125 | every request line: its first three words are method, uri and version, missing ones empty; a GET splits the uri at its first question mark; the path is wwwroot, the uri, and index.html exactly after a final slash; success and suffix are those of the last dot |
| Http.RequestLineReadsBack | day_01/demo_02/http/Http.hpp:86-125 | a line printed from any number of words is read back as those words, in the same sense |
| Http.TargetReadsBack | day_01/demo_02/http/Http.hpp:94-107 | a GET line gives target and arguments back, or the target and no arguments, if and only if the target has no question mark |
| Http.GetAndSpace | day_01/demo_02/http/Http.hpp:90-94 | eight spellings of the method count as GET, and six bytes separate words |
| Http.HttpRequest.GetOneLine | day_01/demo_02/http/Http.hpp:42-54 | the line returned and the text left are those of the specification |
| Http.HttpRequest.ParseReqLine | day_01/demo_02/http/Http.hpp:86-125 | the fields after the call and the result are those of the specification, from any earlier state |
| Http.HttpRequest.ParseReqHeader | day_01/demo_02/http/Http.hpp:152-162 | the map after the call and the result are those of the specification |
| Http.HttpRequest.DeSerialize | day_01/demo_02/http/Http.hpp:58-84 | terminates on every input and sets all fields as specified; the body is set only if an empty line was found |
| Http.HttpResponse.ADDHeader | day_01/demo_02/http/Http.hpp:218-221 | the entry is set and lines of earlier calls still belong to names of the map |
| Http.HttpResponse.Serialize | day_01/demo_02/http/Http.hpp:227-245 | the printed text, one header line appended for each entry of the hash map in some order, and that all lines together read back as the present map |

## Left out

- Blocking.ClientServerComposition: the receiver keeps its buffer across recvs and no send is short; the repository's own client does neither, and `Blocking.RunClient` and `Blocking.RunService` say exactly when it comes to the same.
- Blocking.RepliesAreRecovered: the same receiver; it is a fact about the protocol, not about `Process`.
- SIGPIPE: a send to a peer that has gone kills the process by default; `SendFailed` models sends that return an error, as with the signal ignored.
- jsoncpp branches of `Serialize` and `DeSerialize`: the library's source is not part of this model; the `SELF` branches are (the `SELF` macro is commented out in the repository).
- Arbitrary streams of 2^31 bytes and more: where headers may be anything, `Fits` keeps the position of a CRLF inside the code's `int`. Streams of frames, whose headers are short, have no such bound: only each single frame has.
- `Request` and `Response` are values: `DeSerialize` is a function returning the new object or why it was not assigned, so assigning `_x` before a later `std::stoi` throws is not visible (nothing reads the object after the exception).
- `Threadpool` and `GetInstance` are transition systems over values, not classes: the subject is interleaving. The C++ memory model, thread creation and joining, and fairness of the scheduler are not modelled.
- `conn->_R` is the parameter `R` of the handlers, and `std::function` callbacks are an enumeration; deleting a `Connection` is its ghost flag `alive`, which every later method call on it requires.
- `epoll_ctl` failures for lack of memory, and failed `fcntl` in `SetNonBlock`: epoll_ctl refuses only closed, duplicate or unwatched descriptors.
- Loop and Despatcher run any finite number of rounds: the source's loops have no end.
- In the select and poll servers the null socket of a failed accept ends the model's run (`NullSocket`); the echoed text and its send are not modelled.
- The blocking server's `sleep`, and the product of random requests by `CalFactory` in the client: the requests are a parameter.
- Reconnecting and the status switch of the client, which keep no invariant worth stating.
- HTTP file loading, MIME and status tables, redirects, cookies and sessions, and the setters `ADDStatusLine` and `ADDText`.
- Socket, address, daemon, logging and lock wrappers, the UDP servers, the `popen` servers, the chatroom list and `EpollServer.hpp`: plumbing, or covered by the reactor.
