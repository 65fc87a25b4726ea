# RPC framework: a verified model

The system is a C++ RPC framework. A client sends a request over a TCP socket; the server cuts frames out of
the bytes it reads, hands each request to a thread pool and writes one response back. This project models the
four parts that hold the state and the arithmetic, and proves what they promise over every input, every run
and every interleaving.

**Thread pool** (`PoolModel`, `PoolInvariants`, `PoolTheorems`, `ThreadPool`). The pool is a transition system.
One action is one atomic operation, or one stretch of code under `queue_mutex` between two reads of an atomic
that other threads may write. Popping a task, counting it as active, executing it and counting it as done are
separate actions, so the windows between them are part of every run. `PoolInvariants.Inv` is the whole
invariant; `PoolTheorems` derives the promises from it. The class `ThreadPools.ThreadPool` has the fields of
the source. Each of its methods is one critical section, or one stretch outside the mutex, written as the
source writes it, and shown to be a run of the transition system, so the theorems apply to it. Here
and in the exchange, lemmas with the premise `Inv(s)` hold in every reachable state by `ReachableInv`.

**Wire stack** (`Bytes`, `Base64`, `Cipher`, `Protocol`, `Wire`, `Network`). Messages are serialized, compressed,
enciphered with two keys, written as Base64, prefixed with a length, and parsed back out of a buffer of at
most 1 MiB. Each loop of the source is a method proved against a function; round trips, exact acceptance,
size limits and independence of how the stream is cut are theorems about those functions.

**Exchange** (`Answers`, `Client`, `Exchange`, `ExchangeTheorems`, `ExchangeOnWire`). Any number of clients, one server, and
descriptors the kernel hands out again once they are closed. The client compares no sequence ids and the
server knows connections only by descriptor. That answers are nevertheless matched and routed correctly is an
invariant of all runs, in which writes fail, waits time out, connections are removed, `fcntl` fails and the
pool refuses tasks at any point. `Client.RpcClient` is the client as a class, with the retry loop and the read loop.
`ExchangeOnWire` relates the steps that move a message to the bytes of its frame.

**Balancers** (`Balancers`). Round robin and weighted round robin over a list of servers.

## Where code and comments differ

The model follows the code.

- `enqueue` refuses only on `stop_`, so SHUTTING_DOWN still accepts tasks although the comments at
  `thread_pool.cpp:239` and `thread_pool.h:169-179` say otherwise (`RefusesOnlyWhenStopped`).
- The comment above `shutdown` promises true only when all tasks are done. That holds for the call that won the
  CAS (`GracefulShutdown`). A second caller returns true as soon as the state is STOPPED, which can be while a
  popped task has not run: `LosingShutdownGap` is such a run and `LosingShutdown` gives the exact condition.
- A `packaged_task` keeps the exception of the user function, so `tasks_failed_` stays zero (`Conservation`).
- The length check admits 16 MiB, but the 1 MiB buffer only lets 786397 compressed bytes through
  (`DeliverableExactly`). A client whose request or answer is longer waits until it gives up (`TooLongOnlyGivesUp`).
- `ReadWithTimeout` is documented to wait `timeout_ms`, but only its `select` does. The client's socket blocks:
  `initSocket` sets neither O_NONBLOCK nor a receive time-out. After a full `::read` of 4096 bytes `Read` makes
  another, and if nothing is behind the response that one never returns, with the mutex of the client held and the
  whole response in the buffer. `CallAnswered` says exactly when: if and only if the last `::read` was full.
  `FullFrameSticks` is a response that does it in one piece, of 3035 to 3037 compressed bytes; of responses that
  are there all at once, three compressed sizes in every 3072 do it (`AllAtOnce`).
- The length prefix is truncated to 32 bits, so the bound above does not hold beyond 4 GiB of ciphertext:
  `HugeDelivered` is such a message that is delivered, and `DeliverableExactly` has the exact condition.
- Round robin is fair over n selects unless the 64-bit counter wraps inside them and n does not divide 2^64
  (`RoundFairExactly`).

## Conventions

- A byte is a number from 0 to 255. Masks and shifts are the remainders and quotients they compute; values
  stored in `unsigned char`, `uint32_t` or `size_t` are reduced explicitly. The host is little-endian.
- Zstd is a pair of partial functions. The one assumption, `Wire.RoundTrips`, is that decompression undoes a
  compression that succeeded, and that nonempty input never compresses to nothing.
- The random session key is a parameter. Every `::read`, `::write`, `select`, `accept` and connection attempt
  is an element of a list of outcomes given to the method. When a list ends, a wait times out, a write is still
  going on (`Spinning`), and a read has nothing more: on the server it returns, on the client it blocks (`Hung`).
- In the pool a task is the number of the `enqueue` call that accepted it and its priority. Ties of priority
  are broken arbitrarily, as `std::priority_queue` leaves them open.
- `wait_for` may return at any time, with the value its predicate has at that moment.
- In the exchange a message carries the number of its call; no action looks at it. Sockets hold whole
  messages. A message is sent only if it can be framed, and taken in only if its frame fits the buffer.

## Model

| member | source | states |
|---|---|---|
| PoolInvariants.KeepsInv | rpc_src/thread_pool/thread_pool.cpp:65-325 | every atomic step of workers, producers, `pause`, `resume`, `shutdown` and `stop_now` keeps the whole invariant: mutex ownership, lifecycle flags, one place per task, counters, thread bounds, queue bound |
| PoolInvariants.ReachableInv | rpc_src/thread_pool/thread_pool.cpp:40-325 | the invariant holds in every state any run from a fresh pool can reach |
| PoolTheorems.Conservation | rpc_src/thread_pool/thread_pool.cpp:121-203 | accepted = queued + in a worker's hands + completed + failed + discarded at every moment, `active_threads_` is the number of workers between its two updates, and nothing ever counts as failed |
| PoolTheorems.OnePlace | rpc_src/thread_pool/thread_pool.cpp:121-191 | each accepted task is exactly one of queued, held and not yet run, run, or discarded by `stop_now`; it runs at most once, one worker at most holds it, and a held task has run exactly if its worker is past `execute` |
| PoolTheorems.GracefulShutdown | rpc_src/thread_pool/thread_pool.cpp:254-293 | without `stop_now`, when the `shutdown` that won the CAS has returned true every accepted task has run exactly once, nothing is queued or held and all threads are gone, although STOPPED may be set while a popped task is not yet counted active |
| PoolTheorems.LosingShutdown | rpc_src/thread_pool/thread_pool.cpp:254-261 | a `shutdown` that lost the CAS and returned true guarantees an empty queue; all tasks have run if and only if no worker is between pop and the end of `execute` |
| PoolTheorems.LosingShutdownObserved | rpc_src/thread_pool/thread_pool.cpp:254-293 | and they all have run, once each, as soon as the winning `shutdown` has returned true or `tasks_completed_` equals the number accepted |
| PoolTheorems.LosingShutdownGap | rpc_src/thread_pool/thread_pool.cpp:121-142 | there is a run in which the losing `shutdown` returns true and the only accepted task has not run |
| PoolTheorems.ImmediateStop | rpc_src/thread_pool/thread_pool.cpp:304-325 | when a `stop_now` has returned all threads are gone, the queue is empty, and each accepted task was run or discarded, never both |
| PoolTheorems.LifecycleEdges | rpc_src/thread_pool/thread_pool.cpp:212-325 | what each step makes of the state, exactly: `pause` turns RUNNING into PAUSED, `resume` PAUSED into RUNNING, `shutdown` RUNNING into SHUTTING_DOWN, a drained `shutdown` and `stop_now` anything into STOPPED, and nothing else changes it |
| PoolTheorems.StopAgreesWithState | rpc_src/thread_pool/thread_pool.cpp:280-310 | outside the two critical sections that stop the pool, `stop_` holds exactly when the state is STOPPED, and the queue is then empty |
| PoolTheorems.StoppedForever | rpc_src/thread_pool/thread_pool.h:247-288 | after `stop_` no run accepts a task, adds or reaps a thread or leaves STOPPED |
| PoolTheorems.RefusesOnlyWhenStopped | rpc_src/thread_pool/thread_pool.h:248-267 | `enqueue` refuses if and only if the pool is STOPPED, and accepts if and only if it is not and the queue has room |
| PoolTheorems.TimedOutShutdown | rpc_src/thread_pool/thread_pool.cpp:257-278 | once a `shutdown` has timed out no `shutdown` returns true in any continuation unless `stop_now` intervenes; the state stays SHUTTING_DOWN |
| PoolTheorems.ThreadBounds | rpc_src/thread_pool/thread_pool.cpp:92-100 | core <= `current_threads_` <= max, `workers_` holds the current threads and the reaped ones, and until the stop the live threads number `current_threads_` |
| PoolTheorems.PauseStopsPops | rpc_src/thread_pool/thread_pool.cpp:78-137 | while the pool stays PAUSED at most one task is popped in total, and only if a worker had already passed the test holding the mutex |
| PoolTheorems.QueueBound | rpc_src/thread_pool/thread_pool.h:254-276 | with a positive limit the queue never exceeds it, whatever the number of producers |
| PoolTheorems.PopsHighest | rpc_src/thread_pool/thread_pool.h:104-106 | a HIGH task may always be popped, a NORMAL one only without HIGH ones in the queue, a LOW one only among LOW ones |
| PoolTheorems.PopsDescend | rpc_src/thread_pool/thread_pool.cpp:121-136 | between two enqueues no HIGH task is popped after a NORMAL or LOW one and no NORMAL one after a LOW one, all of them from the queue at the start |
| PoolTheorems.DrainStep | rpc_src/thread_pool/thread_pool.cpp:75-205 | while shutting down, every worker step except polling an empty queue lowers the measure of outstanding work, and polling never raises it |
| PoolTheorems.DrainBounded | rpc_src/thread_pool/thread_pool.cpp:75-205 | however the workers interleave they make at most as many progress steps as the measure |
| PoolTheorems.DrainEnabled | rpc_src/thread_pool/thread_pool.cpp:266-278 | until the predicate `shutdown` waits for holds, some progress step is possible, given at least one core thread |
| PoolTheorems.DrainCompletes | rpc_src/thread_pool/thread_pool.cpp:254-278 | from every shutting-down state the workers alone can reach that predicate |
| ThreadPools.ThreadPool.constructor | rpc_src/thread_pool/thread_pool.cpp:40-60 | starts as many idle threads as core threads, RUNNING, with nothing queued or counted |
| ThreadPools.ThreadPool.Pause | rpc_src/thread_pool/thread_pool.cpp:212-217 | is the pause step: only RUNNING becomes PAUSED |
| ThreadPools.ThreadPool.Resume | rpc_src/thread_pool/thread_pool.cpp:223-228 | is the resume step: only PAUSED becomes RUNNING |
| ThreadPools.ThreadPool.AdjustThreadCount | rpc_src/thread_pool/thread_pool.cpp:399-416 | adds one thread if overloaded below the maximum and the thread starts, else restores the counter |
| ThreadPools.ThreadPool.Enqueue | rpc_src/thread_pool/thread_pool.h:233-293 | refused exactly when STOPPED, blocked exactly when full, else the task is queued and at most one thread added; the effect is a run of the machine |
| ThreadPools.ThreadPool.TakeTask | rpc_src/thread_pool/thread_pool.cpp:78-137 | a task is taken exactly when there is one in RUNNING or SHUTTING_DOWN, LOW only if all queued are LOW and HIGH whenever one is; otherwise the worker is dismissed when STOPPED, reaped when stale and above the core number, or nothing changes; a run of the machine |
| ThreadPools.ThreadPool.RunTask | rpc_src/thread_pool/thread_pool.cpp:140-191 | a popped task runs once, is counted completed and `active_threads_` is as before; a run of the machine |
| ThreadPools.TaskRuns | rpc_src/thread_pool/thread_pool.cpp:140-191 | a task in the hands of a worker was never run before, and the four steps from count to uncount lead to the state of `RunTask` |
| ThreadPools.ThreadPool.CallOfShutdown | rpc_src/thread_pool/thread_pool.cpp:254-263 | wins exactly in RUNNING; a loser returns whether the pool is STOPPED |
| ThreadPools.ThreadPool.EndWait | rpc_src/thread_pool/thread_pool.cpp:265-283 | stops the pool exactly when queue and active count are empty, else times out; a run of the machine |
| ThreadPools.ThreadPool.JoinWorkers | rpc_src/thread_pool/thread_pool.cpp:285-292 | the joins go as far as threads have left, and the call returns exactly when all have; a winning `shutdown` without `stop_now` then has every accepted task run exactly once |
| ThreadPools.ThreadPool.StopNow | rpc_src/thread_pool/thread_pool.cpp:304-313 | the pool is STOPPED, exactly the queued tasks are discarded and counted, everything else is unchanged; a run of the machine |
| Base64.Base64Encode | rpc_src/encrypt/aes_encrypt.cpp:106-166 | every three bytes are the 24 bits of four characters of the alphabet, most significant first; one or two bytes over are filled up with zero bits and padded |
| Base64.Base64Decode | rpc_src/encrypt/aes_encrypt.cpp:180-246 | every four characters of the alphabet before the first padding give the 24 bits as three bytes; two or three over give one or two bytes, one alone none |
| Base64.BuildTable | rpc_src/encrypt/aes_encrypt.cpp:180-195 | the entry of a character is its place in the alphabet, and -1 elsewhere |
| Base64.OutsideCounts | rpc_src/encrypt/aes_encrypt.cpp:196-246 | a byte outside the alphabet is not refused: in the first three places of a group it counts as '/', in the fourth it makes the third byte one less than an 'A' would |
| Base64.DecodeEncode | rpc_src/encrypt/aes_encrypt.cpp:106-246 | decoding an encoded byte string gives it back, for all lengths |
| Base64.EncodeDecode | rpc_src/encrypt/aes_encrypt.cpp:106-246 | encoding a decoded text gives it back if and only if the text is canonical (section 3.5 of RFC 4648) |
| Base64.EncodedIsCanonical | rpc_src/encrypt/aes_encrypt.cpp:106-166 | every encoding is canonical |
| Base64.FillerNeverEmitted | rpc_src/encrypt/aes_encrypt.cpp:217-246 | whatever fills the unused slots of a short group, the 255 of the table included, reaches no decoded byte |
| Base64.EncodeLength | rpc_src/encrypt/aes_encrypt.cpp:106-166 | four characters for every three bytes begun |
| Cipher.ShiftEncrypt | rpc_src/encrypt/aes_encrypt.cpp:260-275 | each byte is congruent modulo 256 to the input byte plus the key byte plus the position |
| Cipher.ShiftDecrypt | rpc_src/encrypt/aes_encrypt.cpp:287-302 | the input is congruent, byte by byte, to the result plus the key plus the position |
| Cipher.UnshiftShift | rpc_src/encrypt/aes_encrypt.cpp:260-302 | unshifting undoes shifting and the offset 512 keeps the dividend positive |
| Cipher.DecipherEncipher | rpc_src/encrypt/aes_encrypt.cpp:260-302 | `ShiftDecrypt` undoes `ShiftEncrypt` for every input and every nonempty key |
| Cipher.Encrypt | rpc_src/encrypt/aes_encrypt.cpp:311-349 | refuses only empty data; else the text decodes to the 32 key bytes shifted by the master key and the data shifted by the session key |
| Cipher.Decrypt | rpc_src/encrypt/aes_encrypt.cpp:367-404 | refuses exactly what decodes to 32 bytes or fewer; else the decoded text is the result wrapped under some session key in that way |
| Cipher.WrapsOnce | rpc_src/encrypt/aes_encrypt.cpp:311-404 | and there is only one session key and one result for which it is |
| Cipher.DecryptEncrypt | rpc_src/encrypt/aes_encrypt.cpp:311-404 | `Decrypt` recovers every nonempty plaintext from `Encrypt` under every session key |
| Cipher.EncryptedLength | rpc_src/encrypt/aes_encrypt.cpp:311-349 | the ciphertext of z bytes has 4 * ceil((32 + z) / 3) characters |
| Protocol.RpcRequest.Serialize | rpc_src/protocol/rpc_protocol.cpp:9-50 | magic number, body size, sequence id and the three fields with their sizes in front stand at their offsets, the least significant byte first; sizes are kept modulo 2^32 |
| Protocol.RpcRequest.Deserialize | rpc_src/protocol/rpc_protocol.cpp:52-126 | accepts exactly the strings laid out as a request and yields it; on failure the fields read so far stay assigned |
| Protocol.RequestLaidOut | rpc_src/protocol/rpc_protocol.cpp:52-126 | a string is taken for r if and only if magic number, id and fields of r stand at their offsets |
| Protocol.RpcResponse.Serialize | rpc_src/protocol/rpc_protocol.cpp:128-171 | header, two fields, error code and sequence id stand at their offsets, the id in the header too |
| Protocol.RpcResponse.Deserialize | rpc_src/protocol/rpc_protocol.cpp:173-234 | accepts exactly the strings laid out as a response, reads past the end exactly of those that end where a size or the two numbers should stand, and rejects the rest |
| Protocol.ResponseLaidOut | rpc_src/protocol/rpc_protocol.cpp:173-234 | a string is taken for r if and only if it has its announced length and the fields and numbers of r stand at their offsets |
| Protocol.ParseRequestExactly | rpc_src/protocol/rpc_protocol.cpp:52-126 | a string parses to r if and only if it has the magic number, r's id at offset 8 and from offset 12 the body written for r; length word and trailing bytes are free |
| Protocol.ParseSerializedRequest | rpc_src/protocol/rpc_protocol.cpp:9-126 | with any bytes behind it a serialized request parses to its fields cut modulo 2^32, and to itself if and only if the sizes fit 32 bits |
| Protocol.ParseResponseExactly | rpc_src/protocol/rpc_protocol.cpp:173-234 | a string parses to r if and only if it has the magic number, its exact length and the body of r |
| Protocol.ParseSerializedResponse | rpc_src/protocol/rpc_protocol.cpp:128-234 | a serialized response parses to itself if its size fits 32 bits and is rejected otherwise |
| Wire.ReadAppends | rpc_src/network/connection.cpp:32-66 | `Read` only appends and the buffer never exceeds 1 MiB |
| Wire.ReadStops | rpc_src/network/connection.cpp:31-66 | how `Read` ends is settled by the first `::read` that does not fill its 4096 bytes: end of file, error and overflow end the connection, a short read the call; without one it returns or, on a blocking descriptor, hangs |
| Wire.FramesExist | rpc_src/network/connection.cpp:188-211 | every message has a frame under some codec that round-trips, so the premises of the lemmas below can be met |
| Wire.ExtractCuts | rpc_src/network/connection.cpp:102-160 | the four bytes in front announce the size in network order: too few bytes and sizes over 16 MiB leave the buffer as it is, else so many bytes are used up and a frame is complete exactly if it decrypts, decompresses and starts with the magic number |
| Wire.FramedIsFrame | rpc_src/network/connection.cpp:188-211 | the bytes written are the size of the text in network order and a text that decrypts to the compressed message; refused is only what does not compress, or to nothing |
| Wire.ExtractMore | rpc_src/network/connection.cpp:102-160 | bytes arriving behind a complete frame or an error change neither and are left in the buffer |
| Wire.ExtractFramed | rpc_src/network/connection.cpp:102-211 | the bytes of `WriteFrame` in front of anything give the message back and exactly they are consumed, if and only if the ciphertext passes the 16 MiB check |
| Wire.ExtractPartial | rpc_src/network/connection.cpp:102-123 | a proper prefix of a frame is never taken for complete or wrong |
| Wire.RequestEndToEnd | rpc_src/network/connection.cpp:102-233 | through all layers a request comes back equal if and only if its field sizes fit 32 bits, for every session key and every compressor that round-trips |
| Wire.ResponseEndToEnd | rpc_src/network/connection.cpp:102-222 | likewise for responses |
| Wire.SerializedAreMessages | rpc_src/protocol/rpc_protocol.cpp:9-171 | what is serialized has the header that `ExtractFrame` asks for, so only compression can refuse to frame it |
| Wire.SizeLimits | rpc_src/network/connection.h:60-61 | the compressed sizes at which the length check and the buffer limit begin to refuse |
| Wire.TooLongComplete | rpc_src/network/connection.cpp:51-125 | a buffer of 1 MiB makes nothing complete of a frame of more than 786397 compressed bytes, but for what a prefix truncated beyond 4 GiB cuts out and decompression accepts, exactly |
| Wire.AlwaysDelivered | rpc_src/network/connection.cpp:23-160 | a frame of at most 786397 compressed bytes is extracted after any reads that bring it without end or error, in whatever sizes |
| Wire.DeliverableExactly | rpc_src/network/connection.cpp:23-160 | some reads let a frame be extracted if and only if it has at most 786397 compressed bytes, or its truncated prefix cuts out a piece that decompresses to the same message |
| Wire.HugeDelivered | rpc_src/network/connection.cpp:201-211 | the second case occurs: under a codec that round-trips, a message of more than 4 GiB of ciphertext is delivered |
| Wire.CalmReadsSucceed | rpc_src/network/connection.cpp:30-66 | without end or error every `Read` of a stream that fits the buffer succeeds |
| Wire.DrainExactly | rpc_src/network/message_cycle.cpp:170-193 | the requests dispatched from a buffer are those of its whole frames, each once and in order, up to the first bytes that are none; a corrupt frame, or one that holds no request, is bad |
| Wire.DrainCovers | rpc_src/network/message_cycle.cpp:170-193 | every buffer is of that form |
| Wire.DrainMore | rpc_src/network/message_cycle.cpp:170-193 | draining a buffer, then the rest with more bytes, is draining it all at once |
| Wire.ResidueIncomplete | rpc_src/network/message_cycle.cpp:170-193 | what a loop without a bad frame leaves is shorter than one frame |
| Wire.ChunkingIndependent | rpc_src/network/message_cycle.cpp:160-194 | for every stream and every way of cutting it, the requests dispatched are those of a one-shot parse up to its first bad frame, and the bytes left over are the same |
| Wire.ServeParsesStream | rpc_src/network/message_cycle.cpp:160-194 | the same for successful calls of `Read` with their 4096-byte reads |
| Network.WrittenReadsBack | rpc_src/network/connection.cpp:102-211 | a write that reports success left bytes that read back as the message, and one that did not left only an incomplete frame |
| Network.Connection.Read | rpc_src/network/connection.cpp:23-67 | keeps the buffer bound and appends what arrived; end of file, error or overflow after full reads disconnects and returns false; a short read returns true, and so does a pause unless the descriptor blocks; with only full reads it returns on a non-blocking descriptor and hangs on a blocking one |
| Network.Connection.ReadWithTimeout | rpc_src/network/connection.cpp:69-100 | a time-out changes nothing; otherwise it is `Read`, which on a blocking descriptor may hang past the time-out |
| Network.Connection.ExtractFrame | rpc_src/network/connection.cpp:102-160 | cuts the buffer exactly as the four bytes in front announce, corrupt frames being used up |
| Network.PushedExactly | rpc_src/network/connection.cpp:169-185 | a write fails exactly if an error comes before the socket has taken everything, and spins if neither comes |
| Network.Connection.WriteBytes | rpc_src/network/connection.cpp:162-186 | all data is sent if the socket takes it before any error; else exactly what it took, and an error disconnects |
| Network.Connection.WriteFrame | rpc_src/network/connection.cpp:188-211 | refuses exactly when disconnected or nothing comes of compression; else the bytes sent are the one frame of the message, or a prefix of it |
| Network.Connection.WriteRequest | rpc_src/network/connection.cpp:224-233 | sends the frame of the serialized request |
| Network.Connection.WriteResponse | rpc_src/network/connection.cpp:213-222 | sends the frame of the serialized response |
| Network.ConnectionManager.AddConnection | rpc_src/network/connection_manager.cpp:6-10 | the entry at the connection's descriptor and no other is set |
| Network.ConnectionManager.RemoveConnection | rpc_src/network/connection_manager.cpp:12-16 | the entry at the descriptor and no other is erased |
| Network.ConnectionManager.GetConnection | rpc_src/network/connection_manager.cpp:18-23 | the entry at the descriptor, or null |
| Network.MessageCycle.HandleNewConnection | rpc_src/network/message_cycle.cpp:55-93 | a fresh connected object under its descriptor, removed again if `epoll_ctl` failed, none if `accept` or `fcntl` failed |
| Network.MessageCycle.DispatchFrames | rpc_src/network/message_cycle.cpp:169-193 | one task per whole request in the buffer, in order, each holding its connection |
| Network.MessageCycle.HandleClientData | rpc_src/network/message_cycle.cpp:160-194 | end of file or an error after full reads removes the entry and dispatches nothing; else what a one-shot parse of the buffer finds is dispatched, and a bad frame removes the entry |
| Answers.AnswerExactly | rpc_src/network/message_cycle.cpp:112-144 | the answer carries the request's id and: 6000, no data and "Invalid request" without a service or method name; 3000, no data and "Service not found" if the service failed; else 0, what the service returned and "Success" |
| Network.MessageCycle.HandleRpcRequestSync | rpc_src/network/message_cycle.cpp:112-144 | writes one frame, which holds a response laid out as one that answers the request in that sense |
| Network.MessageCycle.SendErrorResponse | rpc_src/network/message_cycle.cpp:146-158 | writes one frame with the given id, code and text and no data |
| Client.RpcClient.Connect | rpc_src/core/rpc_client.cpp:79-117 | succeeds if and only if connected already or some attempt does; then the object is fresh and of the first attempt that succeeded |
| Client.RpcClient.Disconnect | rpc_src/core/rpc_client.cpp:119-127 | closes and drops the connection object |
| Client.RpcClient.ReadResponse | rpc_src/core/rpc_client.h:72-119 | outcome and buffer are those of the awaited first frame, on a socket that blocks; a time-out ends it as lost with the buffer as it was, whatever would come later; `is_connected_` survives exactly if it was not lost |
| Client.TimeOutEnds | rpc_src/core/rpc_client.h:82-87 | for all waits before and after it, what comes behind a time-out changes nothing |
| Client.FirstWait | rpc_src/core/rpc_client.h:78-103 | what a wait leads to, from what its `::read`s give: lost on end of file, error and overflow, stuck on full reads, and after a short one the buffer decides: a corrupt frame loses the call, a whole one is read, too few bytes wait on |
| Client.RpcClient.Ask | rpc_src/core/rpc_client.h:53-66 | takes the next id modulo 2^32, sends one request frame, then reads one response, gives the connection up, or is stuck in a write or a read |
| Client.RpcClient.Call | rpc_src/core/rpc_client.h:31-67 | a lost connection is replaced by a fresh one with an empty buffer before anything is sent; early failures consume no id |
| Client.PiecesAwaited | rpc_src/core/rpc_client.h:78-89 | fed with a frame in pieces of any sizes the loop ends with exactly that frame when the last piece is in, not before, and leaves nothing; but after a full last read it never ends |
| Client.ResponseAwaited | rpc_src/core/rpc_client.h:72-119 | a response that has arrived whole is returned if and only if its last `::read` was shorter than 4096 bytes |
| Client.AllAtOnce | rpc_src/network/connection.cpp:30-66 | a response all there at once is returned if and only if its frame is no multiple of 4096 bytes, in terms of its compressed size |
| Client.FullFrameSticks | rpc_src/core/rpc_client.cpp:48-77 | a response of 3035 to 3037 compressed bytes arriving in one piece is never returned |
| Client.RequestDispatched | rpc_src/network/message_cycle.cpp:160-194 | a request of at most 786397 compressed bytes arriving in whatever pieces is dispatched once, its fields cut modulo 2^32, and nothing is left over |
| Client.CallAnswered | rpc_src/network/message_cycle.cpp:112-194 | over the whole stack both ways, however the bytes are cut, the server dispatches the request as it was, and the client is given the answer to it if and only if its last `::read` was short; else it never returns |
| Exchange.KeepsInv | rpc_src/network/message_cycle.cpp:55-200 | every step of clients and server, failures included, keeps the invariant on descriptors, sockets, clients and history |
| Exchange.ReachableInv | rpc_src/core/rpc_client.h:31-119 | the invariant holds in every state any run can reach |
| ExchangeTheorems.MatchedReply | rpc_src/core/rpc_client.h:72-119 | the frame a waiting client reads is always the answer to the call it waits on, as the server read that request, and carries its current sequence id, although no id is compared |
| ExchangeTheorems.ReturnedAnswers | rpc_src/core/rpc_client.h:31-119 | every result ever returned answers that client's own request, with the code, data and text the case calls for, whole if its field sizes fit 32 bits, and no call returns twice |
| ExchangeTheorems.IdsCount | rpc_src/core/rpc_client.h:121-121 | over any run a client's sequence id is the number of its attempts to send modulo 2^32 |
| ExchangeTheorems.OneInFlight | rpc_src/core/rpc_client.h:31-67 | a socket never carries more than one request, task or response, and none between the calls of a connected client |
| ExchangeTheorems.HandledOnce | rpc_src/network/message_cycle.cpp:95-144 | no call is handled twice and no two tasks belong to one call |
| ExchangeTheorems.RoutesBack | rpc_src/network/message_cycle.cpp:95-158 | while a task waits, its connection's descriptor is open on the socket its request was read from and its caller sent it on |
| ExchangeTheorems.NeverMisrouted | rpc_src/network/message_cycle.cpp:112-158 | every response ever written went to the socket its request came from, across reuse of descriptors |
| ExchangeTheorems.OpenWhileOwned | rpc_src/network/connection.cpp:18-21 | a descriptor is open if and only if the table or a task owns its connection object, on that object's socket, and no two owned objects share one |
| ExchangeTheorems.TableSound | rpc_src/network/connection_manager.cpp:6-10 | a descriptor `accept` returns is never in the table already, and each key is its connection's open descriptor |
| ExchangeTheorems.AbandonedForGood | rpc_src/core/rpc_client.cpp:79-117 | over any run no call is sent on an abandoned socket and no late answer is taken from it |
| ExchangeTheorems.FailureAbandons | rpc_src/core/rpc_client.h:59-96 | a failed write, a time-out or a bad frame abandons the socket in use for good |
| ExchangeTheorems.CallCompletes | rpc_src/core/rpc_client.h:31-119 | in every reachable state a connected client whose socket is in the table can make a call that comes to its end if and only if the payload is not empty and both frames fit the buffers; it is then given the answer |
| ExchangeTheorems.TooLongOnlyGivesUp | rpc_src/core/rpc_client.h:80-96 | over any run a client whose request or answer does not fit is given nothing and is moved on by nothing but giving up |
| ExchangeOnWire.SendOnWire | rpc_src/network/connection.cpp:188-233 | what the client's successful `Write` puts on the wire is the frame of the message that `Send` adds to its socket |
| ExchangeOnWire.DispatchOnWire | rpc_src/network/message_cycle.cpp:160-194 | the frame of the next request in whatever pieces makes `HandleClientData` hand over exactly the request of the task that `Dispatch` adds |
| ExchangeOnWire.DispatchExactly | rpc_src/network/connection.cpp:51-125 | a request whose length prefix is not truncated can be dispatched if and only if it has at most 786397 compressed bytes |
| ExchangeOnWire.RespondOnWire | rpc_src/network/message_cycle.cpp:112-158 | what the worker's successful `Write` puts on the wire is the frame of the response that `Respond` adds to the socket |
| ExchangeOnWire.ReceiveOnWire | rpc_src/core/rpc_client.h:72-119 | the frame of the reply in whatever pieces makes `ReadResponse` end with exactly what `Receive` returns, if the last `::read` was short, and else not end |
| ExchangeOnWire.OversizedNotAwaited | rpc_src/network/connection.cpp:51-58 | no pieces of a response of more than 786397 compressed bytes ever give the waiting client a result |
| Balancers.RoundRobin.Select | rpc_src/conn_balancer/round.h:13-23 | picks the element at the old counter modulo n and advances the counter modulo 2^64 |
| Balancers.WeightedRoundRobin.Select | rpc_src/conn_balancer/weight.h:12-38 | the prefix-sum loop amounts to the element at the advanced index and the final fallback is never reached |
| Balancers.SelectRound | rpc_src/conn_balancer/round.h:13-23 | successive selects pick the servers the theorems below speak of |
| Balancers.SelectWeighted | rpc_src/conn_balancer/weight.h:12-38 | likewise |
| Balancers.WeightedFair | rpc_src/conn_balancer/weight.h:26-37 | any n consecutive selects pick each server exactly once |
| Balancers.RoundFairExactly | rpc_src/conn_balancer/round.h:21-22 | n consecutive selects pick each server exactly once if and only if the counter does not wrap among them or n divides 2^64 |
| Balancers.WeightedFollowsRound | rpc_src/conn_balancer/weight.h:10-38 | from fresh state the k-th weighted pick is the (k+1)-th round-robin pick |

## Left out

- ThreadPools.ThreadPool.Enqueue: a method body runs without a break; what other threads do meanwhile is in `PoolModel`, where the same steps interleave freely.
- ThreadPools.ThreadPool.TakeTask: the whole turn with the mutex is one stretch; a `pause` between its two reads of `state_` is covered by the separate actions of `PoolModel`.
- Balancers.WeightedRoundRobin.Select: at most INT_MAX servers, beyond which the `int` sum of weights overflows; two threads in the unsynchronised load and store of the index are not modelled.
- PoolTheorems.DrainCompletes: that some run drains the pool, and that no run makes progress forever; that the scheduler takes those steps is fairness and is not claimed.
- ExchangeTheorems.CallCompletes: that the call can come to its end; time-outs and failures may come first, and so may a full last read of the client.
- Exchange.KeepsInv: messages with 4 GiB of ciphertext or more are not sent. Their truncated prefix makes the receiver cut out something else, as `TooLongComplete` says, and what follows on that socket is not modelled.
- Client.RpcClient.ReadResponse: `Stuck` holds as long as nothing more arrives; if the server then closes the connection the call ends as lost and the frame in the buffer is dropped.
- Protocol.RpcResponse.Deserialize: what the code reads past the end of a string, and what it makes of it.
- The constructor of the pool is one step: workers that start before it returns are not interleaved with it. A thread that cannot be started throws there and is not modelled.
- The destructor of the pool, `get_stats`, `queue_size`, the task times and the singleton around the pool.
- Clocks, exact time-outs, wake-ups and fairness of condition variables. No claim is made for producers blocked on a full queue, whom neither `shutdown` nor `stop_now` notifies.
- Two threads joining the same worker at once, as concurrent `shutdown` and `stop_now` may.
- Writes by several workers to one connection at a time: under the one-outstanding-request discipline of the client they do not happen.
- A client's `Disconnect` in the middle of its own `Call`; in the exchange it happens between calls.
- Bytes that a failed write of a request leaves on its socket: the socket is abandoned, and the server removes the connection or waits on an incomplete frame.
- `stoi` on the port, sockets, epoll, `select` and `fcntl` beyond their outcomes; listening sockets.
- Zstd itself, ZooKeeper, service registration, JSON and Protocol Buffers, configuration files, logging, the demo programs and the random balancer.
