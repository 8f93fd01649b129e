# Verified models of the protocol and data-structure code

The repository is a collection of C++ experiments around sockets, threads and
caches. This project models the parts of it that carry an algorithm or a
protocol and proves what they are for. Code that changes objects in place is
modelled by classes and loops, and each such method is tied by its `ensures` to
a specification function or to a relation between the old and the new state;
the lemmas then state properties of those specifications.

| Part | Modules |
|---|---|
| Length-prefixed chat protocol, client and server (`muduo/`) | `Framing`, `ChatSpec`, `ChatRun`, `Chat` |
| Worker thread pool as a monitor (`mong-c-test/inc/ThreadPool.h`) | `PoolSpec`, `PoolProof`, `ThreadPool` |
| The `ccnet` reactor with the echo server | `Buffer`, `Names`, `Reactor`, `LoopPool` |
| Token scanner over a trie (`inc/acl/stdlib/acl_token_tree.h`) | `Trie`, `Scanner` |
| Redis connection pool, reply decoding and hash reads (`hiredis_test/`) | `RedisPool`, `CStrings`, `RedisReply`, `RedisClient` |
| FNV and PJW hashes, hexadecimal printer (`hash_psd/`) | `Bits`, `Hash`, `FnvConformance`, `PjwValue`, `Hex` |
| Notice documents, written and read back (`mong-c-test/src/dbio_mongodb.cpp`) | `Notice` |

## Main results

* **Total-order broadcast.** In every run of connects, disconnects and data in
  chunks of any size, what a connection was sent is the encoding of the slice of
  the server's log from its join to its leave (`ChatRun.SentIsSlice`); a client
  decodes that slice whatever the fragmentation (`ChatRun.ClientSeesSlice`), two
  clients agree wherever their slices overlap (`ChatRun.ClientsAgree`), and the
  log holds exactly the messages in what the server has read from each sender
  (`ChatRun.BroadcastsFromSender`).
  A connection is live from its join until it disconnects or sends a bad header
  (`ChatRun.LiveIff`). The server's and the client's loops over their buffers
  refine these steps.
* **Framing.** A message goes out under its length in network byte order; a header
  is refused exactly above 65536 (`Framing.FirstFrame`). The decoder's answer is
  the only solution of a description that does not mention the decoder
  (`Framing.DecodeUnique`), it does not depend on how the stream is cut, and it
  inverts the encoder for exactly the message lists within the limit.
* **Thread pool.** In every run the tasks submitted before the stop, and no
  others, start once and in the order of submission; no task waits for a sleeper
  that nobody is about to wake; once `notify_all` ran, any schedule ends within a
  bound, no state is stuck, and when all workers are gone every submitted task has
  run exactly once.
* **Reactor.** Connection map, poller map and kernel interest set agree after
  any round of the loop, for whatever the kernel can report, if and only if no
  connection was closed twice in it; because they agree, every descriptor the
  kernel reports is the listener's or that of a connection that is up. A report
  for the listener accepts the waiting socket, and one for a connection is handled
  exactly once: read until nothing comes, offer all that waits, close or not. While a
  connection is up, what it received is what it sent followed by what waits to
  be sent; what it has sent is a prefix of what it received even after that.
* **Scanner.** The three loops compute one specification; a reported word is the
  longest at its place; and the scanner finds the leftmost word of every text if
  and only if the dictionary is restartable (`Trie.ScanIsLeftmostIff`), which is a
  question about its paths and words alone.
* **Redis.** No connection is lent twice, each is idle, lent or dropped by its
  holder, and at most max(n, 151 - n) are ever made, a limit that is reached.
  `HKeys`, `HGetAllByKeys` and `HGetAll` give back what they borrowed, but for the
  one early return that drops a connection; the two ways to read a hash agree if
  and only if no value contains a NUL.
* **Hashes.** The unrolled 64-bit shift-add loop is the simple 32-bit fold. That
  fold is FNV-1 on 7-bit text and never with an odd number of chars above 127;
  for an even number it is FNV-1 exactly if an alternating sum over those chars,
  computed from FNV-1 alone, is 0 modulo 2 to the 24, which does happen. PJW is
  given digit by digit in hexadecimal for every accumulator and char, and does not
  depend on the accumulator's width in its low 32 bits; hexadecimal printing is
  exact and injective.
* **Notices.** The document holds the id's texts and one array per group under its
  name; what comes back is a prefix merge of the maps, with texts cut at a NUL; for
  data without NULs that is what was written if and only if keys never disappear
  along a vector.

## Where the code differs from what it says

* The comment beside `FNV_OP` reads as FNV-1, but `*str` is a signed char and is
  sign-extended (`FnvConformance.ConformsIffNoDrift` has the exact condition). A second
  char above 127 can undo the first: in a text of two chars that begins with char
  159, any such char does (`FnvConformance.HighCharsCancel`).
* `RedisPool::InitPool` assigns `pool_max_size_` to itself: the maximum passed in
  has no effect and stays 150. Its counter starts at the requested size and also
  counts every connection made, hence the bound `Limit`.
* A hang-up without input but with `EPOLLPRI`, and nothing to read, closes a
  connection twice; the second `disableAll` finds the descriptor gone from the
  poller's map and registers it again (`Reactor.TcpServer.Dispatch`). The read
  branch also tests `EPOLLRDHUP`, but no registered mask asks for it, so the
  kernel cannot report it (`Reactor.TcpConnection.BothHandlers`).
* `HGetAllByKeys` borrows a second connection while it holds one. If it took the
  last idle one and the counter is past the maximum, it waits for itself
  (`RedisPool.SecondBorrow`); if the names do not come, it drops the one it holds.
* `readFd` returns 0 also when there is merely nothing to read yet, or no room;
  `handleRead` then closes the connection. The model does the same.
* `GetVecRecord` does not clear its record between the documents of one array.
* The encoders cut a message's length to 32 bits and do not check the limit that
  the decoders enforce.
* The scanner resumes where a failed walk ended and never goes back: with the one
  word "aab" it finds nothing in "aaab" (`Trie.MissedWord`).
* A thread pool of no workers accepts tasks and never runs them, and its
  destructor returns at once.

## Model

| member | source | states |
|---|---|---|
| Framing.HeaderRoundTrip | muduo/chat_client.cc:41-43 | the receiver reads back the message size cut to a signed 32-bit number, for every size |
| Framing.HeaderFromLength | muduo/chat_server.cc:52-54 | a four-byte header is determined by the non-negative length it announces |
| Framing.HeaderIsBigEndian | muduo/chat_client.cc:41-43 | the four header bytes, read most significant first, are the length modulo 2 to the 32 |
| Framing.WireFormat | muduo/chat_client.cc:40-45 | a message goes out as that header followed by itself |
| Framing.FirstFrame | muduo/chat_server.cc:50-71 | from the bytes alone: fewer than four wait, an announced length above 65536 is refused, and otherwise that many bytes after the header are the first message once they are there |
| Framing.LimitIs | muduo/chat_server.cc:55 | 65536 bytes are delivered and 65537 refused |
| Framing.DecodeSound | muduo/chat_client.cc:67-88 | the input is the encoding of the delivered messages followed by the rest, all messages are within the limit, and the rest holds no whole frame |
| Framing.DecodeUnique | muduo/chat_client.cc:67-88 | that description has exactly one solution, the decoder's answer |
| Framing.DecodeFrame | muduo/chat_client.cc:78-83 | an encoded message within the limit, before any bytes, is the first message decoded and nothing else changes |
| Framing.DecodeFrames | muduo/chat_client.cc:67-88 | the same for a list of messages |
| Framing.RoundTrip | muduo/chat_client.cc:35-47 | decoding the encoding gives the messages back with nothing left if and only if each is at most 65536 bytes |
| Framing.OversizedBlocks | muduo/chat_client.cc:72-77 | a message whose cut length is over the limit blocks the stream at its header |
| Framing.DecodeResume | muduo/chat_server.cc:50-71 | decoding a prefix and then the rest plus the new bytes is decoding the whole |
| Framing.ChunkIndependence | muduo/chat_server.cc:46-72 | for every split of a stream into chunks the reader ends where decoding it whole ends |
| Framing.DeliveryIsMonotone | muduo/chat_server.cc:55-60 | more bytes never retract a message, and after a bad header none is ever added |
| Framing.PartialStream | muduo/chat_client.cc:67-88 | any part of an encoding decodes to the first messages, in order, with no bad header |
| Framing.ResidueBound | muduo/chat_server.cc:61-70 | unless a bad header blocks it, the reader holds fewer than 65540 bytes |
| ChatSpec.BroadcastKeeps | muduo/chat_server.cc:74-85 | a broadcast changes no membership, status or unread input |
| ChatSpec.BroadcastSends | muduo/chat_server.cc:74-85 | exactly the live members receive the encoded messages, and the log grows by them |
| ChatSpec.BroadcastFrom | muduo/chat_server.cc:74-85 | broadcasts of one sender add to that sender's messages in the log and to no other's |
| ChatSpec.StepInv | muduo/chat_server.cc:32-72 | every event keeps: the set holds exactly the connections not yet down, and every logged message fits a frame |
| ChatSpec.RunInv | muduo/chat_server.cc:32-85 | that holds at every time of every run |
| ChatSpec.StepSends | muduo/chat_server.cc:46-85 | over one event a connection is sent exactly the encoding of what the log grew by, if it was live, and a connection shut down never becomes live again |
| ChatRun.LogGrows | muduo/chat_server.cc:74-85 | the log of an earlier time is a prefix of the log of a later one |
| ChatRun.SentIsSlice | muduo/chat_server.cc:32-85 | in every run, at every time, the bytes sent to a connection are the encoding of the log's slice from its join to its leave |
| ChatRun.StatusIs | muduo/chat_server.cc:32-60 | at every time a connection is down if it disconnected, shut down if the bytes read from it hold a bad header, and otherwise connected |
| ChatRun.LiveIff | muduo/chat_server.cc:55-60 | it is sent broadcasts from its join until it disconnects or sends a bad header, and no longer |
| ChatRun.SliceIsShort | muduo/chat_server.cc:55-66 | no message of a slice exceeds the limit |
| ChatRun.ClientSeesSlice | muduo/chat_client.cc:62-89 | a client that received any part of its stream in any chunks has decoded a prefix of its slice, and all of it once everything arrived |
| ChatRun.ClientsAgree | muduo/chat_client.cc:62-89 | two clients that received everything decoded the same message for each log entry made while both were connected |
| ChatRun.BroadcastsFromSender | muduo/chat_server.cc:46-72 | the broadcasts that stem from a connection are the messages in the bytes read from it, in order, and its unread input is the rest |
| ChatRun.WrittenIsBroadcast | muduo/chat_client.cc:35-47 | a client that wrote messages within the limit has had a prefix of them broadcast, all of them once its bytes arrived |
| Chat.ReceiveIsDrain | muduo/chat_server.cc:46-72 | appending a chunk to the input and draining it is receiving the chunk |
| Chat.DrainNext | muduo/chat_server.cc:61-66 | taking one frame (header dropped, broadcast, body dropped) keeps the loop's relation to the whole buffer |
| Chat.DrainEnd | muduo/chat_server.cc:55-70 | where the loop stops, the state is that of receiving the whole buffer, with a shutdown exactly at a bad header |
| Chat.ChatServer.OnConnection | muduo/chat_server.cc:32-45 | the connection is in the set exactly if it is up; the others are as before |
| Chat.ChatServer.Up | muduo/chat_server.cc:37-40 | the callback for a new connection is the step Connect |
| Chat.ChatServer.Down | muduo/chat_server.cc:41-44 | the callback for a lost one is the step Disconnect |
| Chat.ChatServer.SendAll | muduo/chat_server.cc:74-85 | the loop over the set, in whatever order, is the broadcast step |
| Chat.ChatServer.DeliverFrame | muduo/chat_server.cc:63-66 | the branch for a whole frame broadcasts its body once and drops the frame |
| Chat.ChatServer.OnMessage | muduo/chat_server.cc:46-72 | the loop that retrieves and broadcasts frame by frame is one Receive of the whole buffer |
| Chat.ChatServer.DataArrives | muduo/chat_server.cc:46-72 | a chunk's arrival is the step Data |
| Chat.ChatClient.Write | muduo/chat_client.cc:35-47 | one encoded message is handed to the connection, if there is one |
| Chat.ChatClient.OnMessage | muduo/chat_client.cc:62-89 | the loop is one Feed of the framing's reader; the connection is shut down exactly if it was up and the input decodes to a bad header |
| Chat.ChatClient.DataArrives | muduo/chat_client.cc:62-89 | a chunk from the server feeds the reader with exactly that chunk, and shuts the connection down exactly at a bad header |
| PoolProof.NextInv | mong-c-test/inc/ThreadPool.h:37-97 | every step keeps the queue order, the single owner of each task, the wake-up accounting, and the conditions on exited and sleeping workers |
| PoolProof.RunInv | mong-c-test/inc/ThreadPool.h:37-97 | hence so does every run |
| PoolProof.StartsAreFifo | mong-c-test/inc/ThreadPool.h:49-50 | in every run tasks start in the order of acceptance, each once, and the queue holds exactly the rest |
| PoolProof.NothingAcceptedAfterStop | mong-c-test/inc/ThreadPool.h:74-76 | once stopped, no run accepts a task or puts a worker to sleep |
| PoolProof.NoTaskWaitsForASleeper | mong-c-test/inc/ThreadPool.h:45-46 | with tasks queued, no notification pending and no worker awake, every worker is running a task |
| PoolProof.SleepersAreCovered | mong-c-test/inc/ThreadPool.h:72-83 | while a worker sleeps, queued tasks are at most awake workers plus pending notifications |
| PoolProof.DrainedAtExit | mong-c-test/inc/ThreadPool.h:47-50 | when all workers have exited, every accepted task started in order and finished once, if and only if there was a worker or nothing was accepted |
| PoolProof.ShutdownStep | mong-c-test/inc/ThreadPool.h:94-96 | after `notify_all` each step other than a refused enqueue lowers a measure |
| PoolProof.ShutdownIsBounded | mong-c-test/inc/ThreadPool.h:94-96 | no schedule after `notify_all` takes more such steps than the measure, however unfair |
| PoolProof.ShutdownProgress | mong-c-test/inc/ThreadPool.h:95-96 | after `notify_all` all workers have exited if and only if none can take a step |
| PoolProof.JoinReturns | mong-c-test/inc/ThreadPool.h:95-96 | from every such state there is a schedule after which all workers have exited |
| PoolProof.PhaseIs | mong-c-test/inc/ThreadPool.h:88-97 | the destructor's progress is that of the schedule |
| PoolProof.AcceptedIsSubmitted | mong-c-test/inc/ThreadPool.h:74-78 | in every run exactly the tasks handed in before the stop are accepted, each once and in order |
| PoolProof.NotifiesOwed | mong-c-test/inc/ThreadPool.h:78-83 | each acceptance owes exactly one notification |
| PoolProof.StartsAreSubmitted | mong-c-test/inc/ThreadPool.h:43-53 | tasks start in the order of submission, and the queue holds exactly the submitted rest |
| PoolProof.AllSubmittedRun | mong-c-test/inc/ThreadPool.h:47-50 | when all of at least one worker have exited, every submitted task has run exactly once |
| PoolProof.ShutdownRunsAll | mong-c-test/inc/ThreadPool.h:88-97 | after any schedule with a stop and `notify_all` the workers can go on until they have all exited and every submitted task has run exactly once |
| ThreadPool.ThreadPool.constructor | mong-c-test/inc/ThreadPool.h:32-57 | the pool starts with all workers about to test the queue |
| ThreadPool.ThreadPool.Enqueue | mong-c-test/inc/ThreadPool.h:71-82 | the locked block of `enqueue` is the step Enqueue; it is refused exactly once stopped |
| ThreadPool.ThreadPool.NotifyOne | mong-c-test/inc/ThreadPool.h:83 | some waiting worker is woken, if there is one |
| ThreadPool.ThreadPool.WorkerTurn | mong-c-test/inc/ThreadPool.h:43-51 | the locked block of a worker's loop is the step Check |
| ThreadPool.ThreadPool.TaskDone | mong-c-test/inc/ThreadPool.h:53 | the task finishes and its worker goes back to the queue |
| ThreadPool.ThreadPool.SetStop | mong-c-test/inc/ThreadPool.h:90-93 | the destructor's locked block is the step Stop |
| ThreadPool.ThreadPool.NotifyEveryone | mong-c-test/inc/ThreadPool.h:94 | every waiting worker, and no other, becomes awake |
| Trie.LastStopIsLast | inc/acl/stdlib/acl_token_tree.h:128-129 | the word kept on a walk is the longest one passed |
| Trie.WalkIsMaximal | inc/acl/stdlib/acl_token_tree.h:117-131 | a walk ends where no longer text from its start is a path |
| Trie.WalkMeetsWords | inc/acl/stdlib/acl_token_tree.h:117-131 | a word starts at a position if and only if the maximal walk from there passes one |
| Trie.ScanSound | inc/acl/stdlib/acl_token_tree.h:115-133 | a reported word is the longest starting at its position and the cursor is at the end of the maximal walk; otherwise the cursor is at the end |
| Trie.WalkCut | inc/acl/stdlib/acl_token_tree.h:117-131 | a walk over a part of the text is the walk over the text, cut off |
| Trie.RunsPastIff | inc/acl/stdlib/acl_token_tree.h:117-131 | the first walk over a path and a word gets past the path without a word if and only if two facts about the sets of paths and words hold |
| Trie.PassedBy | inc/acl/stdlib/acl_token_tree.h:118-126 | a word that starts inside a walk without words is one the dictionary lets the scanner run past |
| Trie.NothingSkipped | inc/acl/stdlib/acl_token_tree.h:118-126 | for a restartable dictionary no word starts inside a walk that met none |
| Trie.RestartableSuffices | inc/acl/stdlib/acl_token_tree.h:115-133 | for a restartable dictionary the scan finds the leftmost word, or there is none |
| Trie.RestartableNeeded | inc/acl/stdlib/acl_token_tree.h:118-126 | for any other dictionary there is a text whose leftmost word is missed |
| Trie.ScanIsLeftmostIff | inc/acl/stdlib/acl_token_tree.h:66-134 | leftmost on every text if and only if the dictionary is restartable |
| Trie.RootLabelsSuffice | inc/acl/stdlib/acl_token_tree.h:121-126 | a dictionary is restartable if no label at the root occurs deeper in the trie |
| Trie.MissedWord | inc/acl/stdlib/acl_token_tree.h:115-133 | the word "aab" is in "aaab" and is not found |
| Scanner.Advance | inc/acl/stdlib/acl_token_tree.h:128-131 | one step down the trie extends the walk and keeps the longest word on it |
| Scanner.Stuck | inc/acl/stdlib/acl_token_tree.h:118-122 | without a way on, the scan is over if a word was kept and otherwise resumes here from the root |
| Scanner.Skip | inc/acl/stdlib/acl_token_tree.h:122-126 | a byte that starts no path is skipped |
| Scanner.Inside | inc/acl/stdlib/acl_token_tree.h:72-76 | a position is before the end of the scanned text exactly if its byte is neither zero nor a delimiter |
| Scanner.Consume | inc/acl/stdlib/acl_token_tree.h:117-131 | the body shared by the three loops either ends with the scan's answer or keeps the relation to it, one byte on |
| Scanner.MatchPlain | inc/acl/stdlib/acl_token_tree.h:115-133 | the loop without delimiters reports token and cursor of the scan of the whole text |
| Scanner.IsDelim | inc/acl/stdlib/acl_token_tree.h:73-76 | the inner loop finds a byte exactly if it is in the delimiter string |
| Scanner.MatchDelim | inc/acl/stdlib/acl_token_tree.h:70-94 | the loop with a delimiter string reports the scan of the text before the first delimiter |
| Scanner.MatchTable | inc/acl/stdlib/acl_token_tree.h:95-114 | so does the loop with a table |
| Scanner.Match | inc/acl/stdlib/acl_token_tree.h:66-134 | so does the macro, whichever of its arguments are given |
| Scanner.VariantsAgree | inc/acl/stdlib/acl_token_tree.h:70-114 | string and table give the same answer when the table marks the string's bytes, and an empty string is no delimiter |
| Scanner.MatchIsLeftmost | inc/acl/stdlib/acl_token_tree.h:66-134 | for a restartable dictionary the macro's answer is the leftmost word before the first delimiter, taken longest |
| Scanner.WordMatch | inc/acl/stdlib/acl_token_tree.h:49-64 | the token of the whole word if the dictionary has it, and otherwise null |
| Hash.ShiftAddIsProduct | hash_psd/hash_psd.cc:38 | the wrapping shifts and additions multiply by 16777619, on 64 bits and on the low 32 |
| Hash.FnvOp | hash_psd/hash_psd.cc:38-39 | one macro step on 64 bits is, in its low half, one step of the 32-bit fold |
| Hash.ConsumeEight | hash_psd/hash_psd.cc:40-49 | the unrolled body consumes eight characters |
| Hash.ConsumeRest | hash_psd/hash_psd.cc:50-59 | the fall-through switch consumes exactly the characters left |
| Hash.FnvHash | hash_psd/hash_psd.cc:33-61 | the function is the per-character fold of the first len characters, for every length, and the offset basis for a negative one |
| FnvConformance.StepConforms | hash_psd/hash_psd.cc:38-39 | one char keeps agreement with FNV-1 if it is 7-bit, and otherwise brings it about exactly if the products mirror each other |
| FnvConformance.SevenBitTail | hash_psd/hash_psd.cc:38-39 | 7-bit text at the end neither spoils nor repairs agreement |
| FnvConformance.FnvOnSevenBit | hash_psd/hash_psd.cc:35-39 | on 7-bit text the fold is 32-bit FNV-1 (section 2 of draft-eastlake-fnv) |
| FnvConformance.ProductInjective | hash_psd/hash_psd.cc:36 | products by the prime modulo 2 to the 32 are equal if and only if the numbers are |
| FnvConformance.ConformsIff | hash_psd/hash_psd.cc:35-39 | on all other text the fold is FNV-1 if and only if the exclusive or of the two products before the last char above 127 is 0xFFFFFF00 |
| FnvConformance.OneHighChar | hash_psd/hash_psd.cc:39 | with at most one char above 127 it is FNV-1 if and only if there is none |
| FnvConformance.MirroredAgain | hash_psd/hash_psd.cc:38 | numbers equal in the low byte and complementary above it have such products if and only if that byte is 128 |
| FnvConformance.SecondHighChar | hash_psd/hash_psd.cc:38-39 | a second char above 127 right after the first restores agreement if and only if the low byte between them is 128 |
| FnvConformance.HighCharsCancel | hash_psd/hash_psd.cc:38-39 | the text of char 159 alone is hashed differently, and that of char 159 and any other above 127 is not |
| FnvConformance.DriftTracks | hash_psd/hash_psd.cc:38-39 | for every text the function and FNV-1 share the low byte, and their upper 24 bits differ by a drift that FNV-1 alone determines |
| FnvConformance.ConformsIffNoDrift | hash_psd/hash_psd.cc:35-39 | every text is hashed as FNV-1 if and only if its drift is 0 modulo 2 to the 24 |
| FnvConformance.OddHighChars | hash_psd/hash_psd.cc:39 | no text with an odd number of chars above 127 is hashed as FNV-1 |
| FnvConformance.CheckValues | hash_psd/hash_psd.cc:35-39 | the empty text and "a" hash to the published values 0x811c9dc5 and 0x050c5d7e |
| Hash.HashPjw | hash_psd/hash_psd.cc:8-22 | the loop is the 64-bit fold over all characters |
| Hash.FoldBackLow | hash_psd/hash_psd.cc:15-18 | folding the top nibble back commutes with taking the low 32 bits and clears bits 28 to 31 |
| Hash.FoldBackHigh | hash_psd/hash_psd.cc:15-18 | folding back leaves the bits above bit 31 alone |
| Hash.PjwStepLow | hash_psd/hash_psd.cc:14-18 | one character on 64 bits is, in the low 32, one character on 32 bits |
| Hash.PjwWidthIndependent | hash_psd/hash_psd.cc:8-22 | for every input the low 32 bits equal those of a 32-bit accumulator and bits 28 to 31 are clear |
| Hash.PjwCarries | hash_psd/hash_psd.cc:14 | a single char above 127 sets bits above bit 31 |
| PjwValue.FoldBackDigits | hash_psd/hash_psd.cc:15-18 | folding back clears hexadecimal digit 7, exclusive-ors it onto digit 1 and changes nothing else |
| PjwValue.OneChar | hash_psd/hash_psd.cc:14-18 | the exact accumulator after one char, for every accumulator and char |
| PjwValue.ShortText | hash_psd/hash_psd.cc:8-22 | up to six 7-bit chars hash to the number they are in base 16 |
| PjwValue.SevenChars | hash_psd/hash_psd.cc:8-22 | "abcdefg" hashes to 0x789aba7 |
| Hex.NextDigit | hash_psd/hash_psd.cc:69-70 | taking one digit off the number and putting it before the text keeps their combined value |
| Hex.SevenDigits | hash_psd/hash_psd.cc:68-71 | after seven digits only the sign and one digit are left |
| Hex.ToHex | hash_psd/hash_psd.cc:64-73 | the text is hexadecimal for num modulo 2 to the 32 without leading zero, "0" for zero, and eight digits for negative numbers |
| Hex.ValueInjective | hash_psd/hash_psd.cc:63-73 | texts of one length with one value are equal |
| Hex.PrintsInjective | hash_psd/hash_psd.cc:63-73 | two printed texts are equal if and only if the numbers are |
| RedisPool.StepConserves | hiredis_test/src/redis_pool.cpp:390-441 | a borrow or a return keeps every connection in exactly one place if and only if nobody gives back what it does not hold |
| RedisPool.RunConserves | hiredis_test/src/redis_pool.cpp:390-441 | so does every interleaving of such locked steps |
| RedisPool.ConservedCounts | hiredis_test/src/redis_pool.cpp:390-441 | idle, lent and dropped connections add up to those created |
| RedisPool.NullBranchIsDead | hiredis_test/src/redis_pool.cpp:410-416 | in every run the front of the queue is a connection, never null |
| RedisPool.CreateAllConserves | hiredis_test/src/redis_pool.cpp:381-383 | the initial connections are conserved and each is counted once |
| RedisPool.RunBounded | hiredis_test/src/redis_pool.cpp:396-404 | the counter stays n ahead of the connections made, and growth stops past 150 |
| RedisPool.PoolIsSafe | hiredis_test/src/redis_pool.cpp:356-441 | in every run after InitPool(n) connections are conserved and at most max(n, 151 - n) are ever made |
| RedisPool.LimitIsReached | hiredis_test/src/redis_pool.cpp:381-404 | for every n some run makes exactly that many |
| RedisPool.ExhaustedPoolSpins | hiredis_test/src/redis_pool.cpp:396-405 | a turn of the borrowing loop changes nothing and goes round again if and only if the queue is empty and the counter is past the maximum |
| RedisPool.TurnsConserve | hiredis_test/src/redis_pool.cpp:393-417 | whatever other threads do between the turns of the borrowing loop, the pool stays conserved and the connection returned is lent |
| RedisPool.TurnsAlone | hiredis_test/src/redis_pool.cpp:393-417 | undisturbed, two turns decide: the front of the queue, a new connection or none, or else the loop goes round for ever and changes nothing |
| RedisPool.BorrowConserves | hiredis_test/src/redis_pool.cpp:390-419 | an undisturbed borrow lends one connection that nobody held, or changes nothing |
| RedisPool.BracketConserves | hiredis_test/src/redis_client.cpp:79-89 | a borrow and a return leave exactly the same connections lent and lose none |
| RedisPool.BracketRotates | hiredis_test/src/redis_pool.cpp:408-440 | what is borrowed is the front of the queue and what is given back goes to its end |
| RedisPool.BracketCreates | hiredis_test/src/redis_pool.cpp:396-404 | an empty queue that may grow lends a new connection |
| RedisPool.SecondBorrow | hiredis_test/src/redis_client.cpp:93-97 | a second borrow waits for ever if and only if the first took the last idle connection and the counter is past the maximum |
| RedisPool.RedisPool.constructor | hiredis_test/src/redis_pool.cpp:356-365 | a fresh pool is empty, counts 50 and allows 150 |
| RedisPool.RedisPool.CreateConnection | hiredis_test/src/redis_pool.cpp:421-433 | a connection that comes up is queued and counted |
| RedisPool.RedisPool.InitPool | hiredis_test/src/redis_pool.cpp:372-388 | the loop makes one attempt per requested connection, leaves the maximum alone, and succeeds exactly if the queue is not empty |
| RedisPool.RedisPool.TryGet | hiredis_test/src/redis_pool.cpp:393-417 | one locked turn of the loop and its outcome |
| RedisPool.RedisPool.GetRedisConn | hiredis_test/src/redis_pool.cpp:390-419 | watched for any number of turns, with any steps of other threads between them, the loop is those turns up to the first answer |
| RedisPool.RedisPool.Borrow | hiredis_test/src/redis_pool.cpp:390-419 | undisturbed and unless it spins, it ends with the front of the queue, a new connection, or none |
| RedisPool.RedisPool.FreeRedisConn | hiredis_test/src/redis_pool.cpp:435-441 | a connection goes to the back of the queue; null is ignored |
| CStrings.CStrKeeps | hiredis_test/src/redis_pool.cpp:300 | a text survives `char*` if and only if it has no NUL |
| RedisReply.ParamRly | hiredis_test/src/redis_pool.cpp:286-309 | appends the leaves of the reply tree, left to right, without null elements |
| RedisReply.ParamRlyHash | hiredis_test/src/redis_pool.cpp:311-353 | pairs off names and values within each array, recursively, without carrying a name across levels |
| RedisReply.LeavesJoin | hiredis_test/src/redis_pool.cpp:291-303 | the leaves of a list of replies are those of its parts in order, at any depth |
| RedisReply.LeavesOne | hiredis_test/src/redis_pool.cpp:293-301 | a null element has no leaves, any other those of its own, and a text is its own leaf |
| RedisReply.NestedPairs | hiredis_test/src/redis_pool.cpp:320-336 | pairs each in an inner array are set in order, like a flat list |
| RedisReply.NameWaits | hiredis_test/src/redis_pool.cpp:320-336 | a name waits across an inner array for its value, and without one leaves nothing |
| RedisClient.WordsThree | hiredis_test/src/redis_client.cpp:102 | a spliced `hget` command is read by the server as its three words |
| RedisClient.AnswerField | hiredis_test/src/redis_client.cpp:102-104 | the server answers it with the field's value, or nil |
| RedisClient.DBIORedis.HKeys | hiredis_test/src/redis_client.cpp:79-89 | succeeds exactly if a connection is borrowed and the command answered, then appends the field names in the server's order, cut at a NUL, and gives the connection back |
| RedisClient.DBIORedis.GetEach | hiredis_test/src/redis_client.cpp:100-108 | each name whose command is answered is set to its full value |
| RedisClient.DBIORedis.HGetAllByKeys | hiredis_test/src/redis_client.cpp:91-111 | succeeds exactly if both borrows do and the names come; its result and the pool it leaves, in every case |
| RedisClient.ByKeysConserves | hiredis_test/src/redis_client.cpp:93-110 | it leaves nothing lent, and loses a connection exactly if it borrowed one and then did not get the names |
| RedisClient.FilledAll | hiredis_test/src/redis_client.cpp:100-108 | with all commands answered the result is overridden by all stored fields |
| RedisClient.ListingPairs | hiredis_test/src/redis_pool.cpp:318-338 | pairing off a listing sets each name to its value in order, both cut at a NUL |
| RedisClient.HGetAllDecodes | hiredis_test/src/redis_pool.cpp:311-338 | so does decoding the reply to `hgetall` |
| RedisClient.PairedAll | hiredis_test/src/redis_pool.cpp:318-338 | with names free of NULs that overrides the result by all stored fields, values cut |
| RedisClient.DBIORedis.HGetAll | hiredis_test/src/redis_client.cpp:114-123 | succeeds exactly if a connection is borrowed and the command answered, with that result, and gives the connection back |
| RedisClient.ReadsAgree | hiredis_test/src/redis_client.cpp:91-123 | all commands answered and all names words, the two reads build the same map if and only if no value contains a NUL |
| Notice.InsertNotice | mong-c-test/src/dbio_mongodb.cpp:473-517 | the loops build one text field per id entry and one array of documents per group, unless there is no data |
| Notice.DocumentIs | mong-c-test/src/dbio_mongodb.cpp:487-514 | the document field by field: the id's texts, then under each group's name one document per map with its texts |
| Notice.GetVecRecord | mong-c-test/src/dbio_mongodb.cpp:298-343 | the three nested loops with their shared variables are the reading fold over any document |
| Notice.ReadWrittenRecord | mong-c-test/src/dbio_mongodb.cpp:326-332 | reading a written map overrides the record under construction by it |
| Notice.ReadWrittenVector | mong-c-test/src/dbio_mongodb.cpp:320-335 | reading a written vector delivers the successive merges of its maps |
| Notice.WriteThenRead | mong-c-test/src/dbio_mongodb.cpp:298-343 | reading a written notice delivers, for each group and index, the merge of the maps up to that index, texts cut at a NUL |
| Notice.GroupByName | mong-c-test/src/dbio_mongodb.cpp:495-513 | a group whose name is not that of an earlier one is found under its name, and reading that array alone gives its merges |
| Notice.StaleText | mong-c-test/src/dbio_mongodb.cpp:326-332 | an inner field that is no text is given the last text read, even in an earlier document |
| Notice.VectorIsOriginal | mong-c-test/src/dbio_mongodb.cpp:320-335 | the merges of a vector are its maps if and only if each has the keys of the one before |
| Notice.ReadIsOriginal | mong-c-test/src/dbio_mongodb.cpp:320-335 | the same for all groups of a notice |
| Notice.NothingCut | mong-c-test/src/dbio_mongodb.cpp:506-508 | without NULs nothing is cut |
| Notice.NoticeRoundTrip | mong-c-test/src/dbio_mongodb.cpp:473-517 | writing and reading a NUL-free notice is the identity if and only if keys never disappear along a vector |
| Buffer.Socket.Recv | ccnet/net/Buffer.cc:66 | the kernel hands over a prefix of what is pending, at most the room offered |
| Buffer.Socket.Send | ccnet/net/TcpConnection.cc:107 | the kernel takes a prefix of the data, or fails |
| Buffer.Buffer.constructor | ccnet/net/Buffer.cc:7-12 | an empty queue with the requested room behind the eight reserved bytes |
| Buffer.Buffer.Peek | ccnet/net/Buffer.cc:28-31 | the readable window is the queue |
| Buffer.Buffer.Retrieve | ccnet/net/Buffer.cc:33-43 | drops that many bytes from the front, all of them if there are no more |
| Buffer.Buffer.RetrieveAll | ccnet/net/Buffer.cc:45-49 | empties the queue |
| Buffer.Buffer.MakeSpace | ccnet/net/Buffer.cc:94-105 | makes exactly the missing room without changing the queue, and none if there is enough |
| Buffer.Buffer.Append | ccnet/net/Buffer.cc:85-91 | appends the bytes to the queue |
| Buffer.Buffer.Fill | ccnet/net/Buffer.cc:72-75 | received bytes join the queue without growing the array |
| Buffer.Buffer.ReadFd | ccnet/net/Buffer.cc:60-83 | receives until nothing comes, appends exactly those bytes within existing room, and returns their number, never negative |
| Names.DecimalInjective | ccnet/net/TcpServer.cc:66 | decimal texts of different numbers differ |
| Names.NamesDiffer | ccnet/net/TcpServer.cc:65-67 | connection names are equal if and only if the numbers are |
| Names.NameFormat | ccnet/net/TcpServer.cc:65-67 | a name is the server's, a colon, and the number in decimal without leading zeros |
| Reactor.EPollPoller.Update | ccnet/net/EPollPoller.cc:41-59 | the effect of `epoll_ctl` on the interest set, failures included |
| Reactor.EPollPoller.UpdateChannel | ccnet/net/EPollPoller.cc:61-80 | a known channel is changed or, without events, removed from both maps; an unknown one is added to both, even without events |
| Reactor.EPollPoller.RemoveChannel | ccnet/net/EPollPoller.cc:82-87 | the descriptor leaves both maps |
| Reactor.Channel.EnableReading | ccnet/net/Channel.cc:42-46 | sets the read bits and updates the poller |
| Reactor.Channel.EnableWriting | ccnet/net/Channel.cc:55-59 | sets the write bit and updates the poller |
| Reactor.Channel.DisableWriting | ccnet/net/Channel.cc:61-66 | clears the write bit and updates the poller |
| Reactor.TcpConnection.ConnectEstablished | ccnet/net/TcpConnection.cc:27-33 | the connection is up, registered for reading with poller and kernel |
| Reactor.TcpConnection.ConnectDestroyed | ccnet/net/TcpConnection.cc:35-44 | takes down a connection still up and does nothing to any other |
| Reactor.TcpConnection.Send | ccnet/net/TcpConnection.cc:46-64 | while up, queues the data and asks to write; otherwise drops it |
| Reactor.TcpConnection.OnMessage | ccnet/example/EchoServer.cc:19-24 | the input moves to the output queue and is emptied |
| Reactor.TcpConnection.HandleClose | ccnet/net/TcpConnection.cc:121-126 | the connection is down and off the server's map, and its channel was updated once more |
| Reactor.TcpConnection.HandleRead | ccnet/net/TcpConnection.cc:83-101 | conservation is kept: received is sent plus waiting; reading nothing closes |
| Reactor.TcpConnection.HandleWrite | ccnet/net/TcpConnection.cc:103-119 | exactly while writing is enabled all that waits is offered to the socket once; conservation is kept through partial sends, and writing stays enabled exactly while something waits |
| Reactor.TcpConnection.BothHandlers | ccnet/net/Channel.cc:42-81 | of what the kernel can report for a connection's mask, exactly hang-ups with urgent data and without input lead to the close handler and the read handler |
| Reactor.TcpConnection.HangUpMayRead | ccnet/net/Channel.cc:73-81 | there is such a mask |
| Reactor.TcpConnection.Branches | ccnet/net/Channel.cc:73-78 | the two branches by the numbers of the event bits |
| Reactor.TcpConnection.HandleInput | ccnet/net/Channel.cc:73-81 | the close handler and then the read handler: who is up, registered or registered again afterwards |
| Reactor.TcpConnection.HandleEvent | ccnet/net/Channel.cc:69-93 | the same with the write handler, and conservation; asked to read, the socket was read dry, and asked to write while up, it was offered all that waits |
| Reactor.TcpServer.constructor | ccnet/net/TcpServer.cc:18-28 | the agreement holds with no connections and the listening channel registered for input only |
| Reactor.TcpServer.RemoveConnection | ccnet/net/TcpServer.cc:82-93 | the name leaves the map and a connection already down is left alone |
| Reactor.TcpServer.HandleOne | ccnet/net/Channel.cc:69-93 | an event of one connection leaves all other connections as they were |
| Reactor.TcpServer.Dispatch | ccnet/net/Channel.cc:69-93 | any event is served as reported, all connections conserve their bytes, and the three-way agreement is kept if and only if the event did not close twice |
| Reactor.TcpServer.NewConnection | ccnet/net/TcpServer.cc:62-80 | everything agreed on still is, the new connection is up, and its name displaced no live one |
| Reactor.TcpServer.ReportedIsUp | ccnet/net/EPollPoller.cc:27-33 | the agreement makes every descriptor the kernel can report the listener's or that of a connection that is up |
| Reactor.TcpServer.TwiceNeedsUrgent | ccnet/net/Channel.cc:73-81 | what can be reported for a connection can close it twice only as a hang-up with urgent data and without input |
| Reactor.TcpServer.Incoming | ccnet/net/Acceptor.cc:25-33 | `accept` returns a new socket with a descriptor not seen before, or nothing |
| Reactor.TcpServer.Poll | ccnet/net/EPollPoller.cc:19-33 | the kernel reports registered descriptors, each once, with requested bits, errors and hang-ups |
| Reactor.TcpServer.HandleReport | ccnet/net/EventLoop.cc:25-28 | a report for a connection is handled by it and by no other, and loses the agreement exactly by closing twice; one for the listener that asks for a read accepts the waiting socket, and nothing else does |
| Reactor.TcpServer.HandleNext | ccnet/net/EventLoop.cc:25-28 | within a round the descriptors still to be handled stay the listener's or those of connections that are up |
| Reactor.TcpServer.HandleAll | ccnet/net/EventLoop.cc:25-28 | over the reports each connection handles exactly the one for its descriptor, and a waiting socket is accepted exactly if the listener was reported for reading |
| Reactor.TcpServer.RunRound | ccnet/net/EventLoop.cc:23-28 | a whole round, for anything the kernel can report, keeps conservation and does exactly what was reported; the waiting socket becomes a connection, up and in the map, exactly if the listener was reported for reading; and the agreement is kept if and only if for no report both handlers ran and nothing was read |
| Reactor.TcpServer.PollAndHandle | ccnet/net/EventLoop.cc:23-28 | so does waiting for a round and handling it |
| Reactor.TcpServer.Loop | ccnet/net/EventLoop.cc:16-30 | any number of rounds run, each doing exactly what was reported in it, until one closes a connection twice, and the agreement holds at the end if and only if none did |
| LoopPool.EventLoopThreadPool.GetNextLoop | ccnet/net/EventLoopThreadPool.cc:37-46 | call k from 0 returns loop k modulo their number, or the base loop if there are none |
| LoopPool.Fairness | ccnet/net/EventLoopThreadPool.cc:37-46 | after k calls each loop was returned k / n times, one more for the first k modulo n |

## Left out

- Reactor.TcpServer.Loop: it is watched until a connection has been closed twice, because the poller then holds a channel whose connection may be destroyed, and until the 32-bit connection counter reaches its maximum.
- Reactor.TcpServer.NewConnection: a new descriptor differs from every one accepted before, also from those of connections that are down: no code closes them, so the kernel cannot hand them out again.
- Reactor.EPollPoller.UpdateChannel: the vector of reported events in `poll` and its doubling only hand masks over; `Poll` returns them as a sequence.
- Buffer.Buffer.Retrieve: for the non-negative lengths its callers pass.
- Buffer.Buffer.Append: the return value that the code forgets is not modelled.
- Scanner.Match: the text is compared with the delimiter string byte by byte, as for a text of plain `char`; a text of `unsigned char` compared with signed delimiters above 127 is not modelled.
- RedisReply.ParamRly: replies whose leaves carry a text; the code passes a null pointer to a string for an integer or nil.
- RedisReply.ParamRlyHash: arrays, likewise, and without null elements; for anything else the code dereferences a null pointer.
- RedisClient.DBIORedis.HGetAllByKeys: both borrows return and no other thread uses the pool meanwhile; when the second one does not return is the subject of `SecondBorrow`.
- RedisClient.DBIORedis.GetEach: the key and the field names are free of spaces, NUL and percent signs, because the command is spliced into a format string; `HKeys` and `HGetAll` ask this of the key only.
- RedisClient.DBIORedis.HKeys: the borrow returns and no other thread uses the pool meanwhile; so for `HGetAll`.
- RedisClient.ExecuteResponse: the context, status flag and reconnection of a connection are one parameter, whether the command is answered.
- RedisPool.RedisPool.Borrow: the case of an exhausted pool, in which it never returns, is stated by `TurnsAlone` and `ExhaustedPoolSpins`.
- `Set`, `Get`, `HSet` and `HGet` of the Redis client, which have the shape of `HKeys` with one text as reply.
- Notice.DocumentIs: the index keys under which the documents of an array are stored ("0", "1", ...) are not represented; the reader does not look at them.
- Hash.FnvHash: a length beyond the text's end, which reads past the buffer, is excluded.
- `TcpConnection::shutdown` and `shutdownInLoop`: the socket they use is never created.
- Liveness of the edge-triggered echo: `readFd` stops at the room there is, so pending bytes may wait for another event.
- Destructors and closing of descriptors in `ccnet`; error handling that only prints.
- `EventLoopThread` start-up; `LoopPool` begins with the loops that `start` made.
- `getLoopFroHash`, whose emptiness test is inverted.
- `ReleaseRedisConn`, `CheckStatus` and reconnection in the Redis client.
- The muduo, hiredis, mongoc and kernel internals: a muduo connection is a queue of accepted bytes that drops sends after shutdown, a BSON document is a list of fields, `recv` and `send` transfer any part.
- The reordering of network and callback events that muduo's own threads could cause: events reach the chat server one at a time.
- Building the token trie: `acl_token_tree.c` is not part of this model; `Scanner.Represents` says what a trie must look like.
- `SmartPtr`, the plain socket, libevent and MongoDB demos, and the vendored headers, which would add only easy members.
