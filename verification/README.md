# Verified models of network-programming exercises

A Dafny 4.11 model of the parts of this C repository that hold state, concurrency or
arithmetic, with proofs of what those parts are for. `dafny verify dfyconfig.toml`
checks all of it. Nothing here was executed; every statement below is a verified one.

| file | models |
|---|---|
| `Common.dfy` | options, bytes, and facts about sequences and remainders that several modules use |
| `Words.dfy` | the 32-bit string hash, power-of-two sizes and masks of `lib/dict.c` |
| `DictModel.dfy` | the dictionary of `lib/dict.c` on values: two tables of chains, a rehash cursor, every operation as a function |
| `DictTheorems.dfy` | whole runs of the dictionary: refinement of one map, pacing of the migration, its end |
| `Dict.dfy` | `lib/dict.c` in place: arrays of linked entries, each method proved to compute the function of `DictModel.dfy` |
| `DictAsWritten.dfy` | four lines of `lib/dict.c` exactly as written, with the condition under which each does what was meant |
| `DictRuns.dfy` | whole runs of the dictionary as written: which calls do what a map does, and runs from an empty dictionary in which they do not |
| `DictPacing.dfy` | how the dictionary as written keeps pace: for every call and for whole runs, exactly when the load bounds go on holding |
| `BlockingQueue.dfy` | the blocking queue and thread pool of `chap-26` as a transition system over any number of threads |
| `FdQueue.dfy` | the critical sections of push and pop on the array |
| `EchoBuffer.dfy`, `EchoHandlers.dfy` | one connection of the `chap-22` echo server, on values and in place |
| `Framing.dfy` | the length-prefixed messages of `chap-16` and `readn` |
| `Heartbeat.dfy` | the client timer of `chap-12`, and client, network and serial server together |
| `HttpReader.dfy` | the line reader and header scan of `chap-16` |
| `PollLoop.dfy` | one pass of the `chap-21` poll loop |

## The dictionary and its four deviating lines

Four lines of `lib/dict.c` disagree with the rest of the file and with its comments.
`DictModel.dfy` and `Dict.dfy` follow the intent that the rest of the file relies on;
`DictAsWritten.dfy` keeps the lines as they are and proves, for all inputs, exactly when
they do what was meant; `DictRuns.dfy` puts them into whole operations, proves for every
call the condition, in terms of the state before it, under which it does what a map does
(`ApplyExact`, `RunExact`), and gives runs from an empty dictionary that fail. `Dict.dfy`
also holds dictRehash and dictDel as written, on the linked entries themselves, and
proves that the functions of these two files state what the pointers amount to.

* Line 146, `while (--n && ...)`: a call with n = 1, which is every automatic step, moves
  no bucket (`StepMovesNothing`). A call makes progress exactly when table 0 is drained, or n
  is not 1 and no entry has to go to a smaller table (`ProgressExact`); repeated calls end a
  migration exactly when table 0 is drained, or n is not 1 and the new table is not the smaller
  one (`EndsExactly`). Insertion stays correct, but the two bounds of `LoadNeverExceedsOne`
  end: exactly with a new key that comes while table 0 still holds entries and the bound is
  used up (`CallPaced`, `RunPacedExact`), which without deletions is the sixth key for one and
  the ninth for the other (`LoadAsWritten`). Intent: up to n buckets in a call.
* Line 160, `_dictKeyIndex(d, de->key) & d->ht[0].mask`: the search finds the first entry of
  the bucket and answers -1, which selects the last slot of the old size; every other entry
  goes to the slot with the bucket's number. In every migration, lookups survive a call
  exactly when those are the slots the hashes select, in each bucket up to the one at which
  the call stops (`RehashAsWrittenExact`); a new table smaller than the old one has no such
  slot, and line 162 writes outside it as soon as a bucket moves (`ShrinkingExact`). The first
  migration of a lone key loses it for every hash that does not select slot 3 of 8
  (`FirstMigration`), with this file's hash the key `"c"` (`KeyLost`); one insertion between
  two expansions reaches the write outside the table (`OutsideTable`).
  Intent: `_dictGenHash(key) & d->ht[1].mask`.
* Line 95 compares key pointers, and lines 83 and 104 carry `prevEntry` from table 0 into
  table 1: `dictDel` does what was meant exactly when the key is absent, or the caller holds
  the stored pointer and the key does not head its chain in table 1 behind a non-empty chain
  of table 0 (`DelAsWrittenExact`); otherwise the entry is not found, or it is handed out and
  `dictGet` still finds it (`StaleStillFound`). The same text at another address is not found
  (`OtherPointer`); add `"c"`, `"d"`, `"e"`, `"f"` and `"g"`, delete `"g"`, and `"g"` is still
  found (`StaleDelete`, `DeletedKeyFound`). Intent: compare contents, reset `prevEntry` per
  table.

The hash is a field of the model, so the results of the dictionary hold for every hash
function; `DictCreate` fixes it to the one of lines 213-220.

## Parameters instead of I/O

`recv`, `send`, `read`, `select`, `poll`, `accept` and the thread scheduler are parameters:
lists of results, event sequences or the choice of the next step, over their documented
ranges. `select` writes back the time it did not sleep, as on Linux.

## Model

| member | source | states |
|---|---|---|
| Words.GenHash | lib/dict.c:213-220 | the shift-and-add loop in 32-bit arithmetic yields the wrapped hash of the bytes |
| Words.HashIsPoly | lib/dict.c:213-220 | for every key the hash is 5381\*33^n + sum of c_i\*33^(n-1-i), reduced once modulo 2^32 |
| Words.ComputeNextPower | lib/dict.c:222-232 | terminates without losing bits to the 64-bit wrap and returns the least power of two that is at least 4 and the size, up to 2^63 |
| Words.NextPowerLeast | lib/dict.c:222-232 | the result is that least power of two if and only if the size is at most 2^63 |
| Words.MaskOfPow2 | lib/dict.c:126 | masking any word by size-1 is taking it modulo the size |
| Words.SlotCongruent | lib/dict.c:124-127 | growing a table by any factor sends a hash to a slot congruent to its old one |
| DictModel.CursorHasWork | lib/dict.c:149-153 | the assertion never fires and the scan never leaves table 0: a table that counts entries has a bucket at or after the cursor |
| DictModel.MoveBucketKeeps | lib/dict.c:155-168 | relinking a bucket conserves the entries and their number and puts each in its own slot |
| DictModel.RehashLoopKeeps | lib/dict.c:146-177 | a whole call conserves the multiset of entries and the total count and, when table 0 drains, restores the single-table invariant |
| DictModel.RehashLoopCost | lib/dict.c:142-169 | at most n buckets moved, at most 10n empty ones visited, the cursor advances by exactly their sum, and the call stops early only by promoting |
| DictModel.ExpandKeeps | lib/dict.c:114-139 | expanding changes no contents, whatever the requested size, and fails only with the state unchanged |
| DictModel.ExpandExactly | lib/dict.c:114-139 | for sizes up to 2^63: an error if and only if no migration is under way and the first table already has the least power of two that is at least 4 and the size; otherwise, outside a migration, an empty table of exactly that size is installed, as the one to migrate to if and only if there was a table |
| DictModel.GrowthSucceeds | lib/dict.c:245-256 | the growth test never gets an error from dictExpand below 2^63 entries, the product used \* 2 wrapping at 64 bits included |
| DictModel.GrowthExactly | lib/dict.c:245-256 | a migration begins if and only if the table is full, into the least power of two that holds twice its entries; the first table has four slots |
| DictModel.FindBothRight | lib/dict.c:64-78 | searching table 0 and then table 1 answers exactly what one map holds, at any point of a migration |
| DictModel.AddRight | lib/dict.c:33-54 | add succeeds on a new key only, always below 2^63 entries, and binds that key and nothing else |
| DictModel.AddHeads | lib/dict.c:46-50 | a new entry comes in front of the chain at its hash under the mask of the newest table, and no other chain or table changes behind the step and the growth test |
| DictModel.RelinkReverses | lib/dict.c:155-166 | relinking a bucket turns the order round: in every slot what lands there stands in reverse in front of what was there |
| DictModel.GetRight | lib/dict.c:56-79 | get returns the entry bound last, and changes no binding; it advances a migration or ends it, unless the dictionary is empty, and outside one no migration begins |
| DictModel.DelRight | lib/dict.c:81-112 | del returns the bound entry and removes that key only; it advances a migration or ends it, unless the dictionary is empty |
| DictTheorems.RefinesMap | lib/dict.c:33-180 | any run of add, get, del, expand and rehash answers exactly as one plain map would |
| DictTheorems.StoredAtMask | lib/dict.c:124-126 | in every state of any run each entry hangs at its hash masked by the size of its table less one |
| DictTheorems.RehashAdvances | lib/dict.c:141-180 | a call with n >= 1 during a migration advances the cursor or promotes |
| DictTheorems.RehashFinishes | lib/dict.c:141-180 | as many calls as table 0 has slots left finish any migration |
| DictTheorems.CallMovesOn | lib/dict.c:38-87 | every insertion, and every lookup or deletion in a dictionary that is not empty, advances the cursor of a migration or puts table 1 in the place of table 0 |
| DictTheorems.LookupIdle | lib/dict.c:56-62 | outside a migration, and in an empty dictionary, a lookup changes nothing, and a deletion from an empty one changes nothing either |
| DictTheorems.UseEndsMigration | lib/dict.c:33-112 | over runs: as many insertions, lookups and deletions of a dictionary that does not run empty as table 0 has slots left end any migration |
| DictTheorems.BucketCongruent | lib/dict.c:155-166 | every entry that left bucket b hangs in a slot of the new table congruent to b |
| DictTheorems.LoadNeverExceedsOne | lib/dict.c:38-51 | in any run of add, get and del a migration always doubles, dictSize <= ht[0].size + rehashidx + 1, and neither table ever holds more entries than slots |
| DictTheorems.ApplyPaced | lib/dict.c:245-256 | one such operation leaves the capacity alone, makes the first allocation of 4, or exactly doubles it |
| Dictionary.Dict.DictAdd | lib/dict.c:33-54 | in place: the pointer structure stays sound, the new state is that of DictModel.Add, and the map gains that binding exactly when the key was new |
| Dictionary.Dict.DictGet | lib/dict.c:56-79 | in place: returns the entry of that key, or null exactly when the map has none; it advances a migration or ends it, unless the dictionary is empty |
| Dictionary.Dict.DictDel | lib/dict.c:81-112 | in place: unlinks the entry and removes exactly that key from the map; it advances a migration or ends it, unless the dictionary is empty |
| Dictionary.Dict.ExpandTo | lib/dict.c:114-139 | in place: as DictModel.ExpandExactly says, an error or an empty table of the least fitting size, as the first or the one to migrate to; contents unchanged |
| Dictionary.Dict.ExpandWhenFull | lib/dict.c:245-256 | in place: first table, growth of a full table, or nothing |
| Dictionary.Dict.RehashBuckets | lib/dict.c:141-180 | in place: the nested loops leave exactly the state of DictModel.Rehash, contents unchanged |
| Dictionary.Dict.MoveOne | lib/dict.c:155-168 | in place: the chain under the cursor is relinked entry by entry through its next pointers |
| Dictionary.Dict.SkipEmpty | lib/dict.c:150-153 | in place: stops at the first non-empty bucket or when the visits are used up, inside the table |
| Dictionary.Dict.PromoteTable | lib/dict.c:171-177 | in place: table 1 takes the place of a drained table 0 |
| Dictionary.Dict.KeyIndex | lib/dict.c:191-211 | the slot for a new key in the newest table, -1 for a stored key or a failed expansion |
| Dictionary.Dict.Search | lib/dict.c:92-106 | walking a chain finds the first entry of the key and the one before it |
| Dictionary.Dict.Unlink | lib/dict.c:96-99 | one next pointer, or the bucket head, is redirected and exactly that entry leaves its chain |
| Dictionary.Dict.LinkNew | lib/dict.c:46-50 | a fresh entry becomes the head of its slot, every other chain is unchanged |
| Dictionary.DictCreate | lib/dict.c:22-31 | an empty dictionary with the hash of lines 213-220 |
| DictAsWritten.RelinkedBucket | lib/dict.c:155-166 | as written, for tables of any sizes: a write outside table 1 happens exactly when it is the smaller one; otherwise no entry of the bucket is lost from the tables, and placement survives exactly when the first entry belongs in the last slot of the old size and the others in the bucket's own |
| DictAsWritten.StepMovesNothing | lib/dict.c:146 | as written, dictRehash(d, 1) moves nothing in any migration, and equals the intended step exactly when table 0 is drained |
| DictAsWritten.ProgressExact | lib/dict.c:141-180 | as written, for every n and every migration, a call stays inside the tables and advances the cursor or promotes if and only if table 0 is drained, or n is not 1 and no entry has to go to a smaller table |
| DictRuns.EndsExactly | lib/dict.c:141-180 | as written, for every n and every migration, repeated calls of dictRehash(d, n) end it if and only if table 0 is drained, or n is not 1 and the new table is not the smaller one, and then within as many calls as table 0 has slots left |
| DictAsWritten.LoopAsWrittenExact | lib/dict.c:146-177 | as written, when table 1 is not smaller: nothing is lost from the tables, the call stops at the bucket computed from the state before it, and placement survives exactly when every bucket up to there does |
| DictAsWritten.ShrinkingExact | lib/dict.c:155-162 | as written, a call on a migration into a smaller table stays inside that table if and only if it finds no bucket to move; then nothing changes for any lookup |
| DictAsWritten.RehashAsWrittenExact | lib/dict.c:141-180 | as written, for every migration and every n: all lookups answer as before if and only if each bucket up to the stopping place, computed from the state before the call, survives; otherwise a stored key is not found or a write leaves the table |
| DictAsWritten.RehashAsWrittenCost | lib/dict.c:142-154 | as written, a call with n >= 1 that does not promote or leave the tables has moved at most n - 1 buckets and looked at most at 10n empty ones, and has used up one of the two |
| DictRuns.FirstMigration | lib/dict.c:160 | as written, a run from an empty dictionary: a lone key that does not belong in slot 3 of 8 is not found behind its first migration |
| DictRuns.KeyLost | lib/dict.c:160 | as written, that run with the hash of this file and the key "c" |
| DictRuns.OutsideTable | lib/dict.c:160-162 | as written, a run from an empty dictionary, for every hash and key: expand to 8, add, expand to 4, rehash writes outside table 1 |
| DictRuns.AddAsWrittenRight | lib/dict.c:33-54 | as written, insertion still binds exactly the new keys |
| DictRuns.LoadAsWritten | lib/dict.c:146 | as written, over any run of insertions and lookups, repeated keys included, the answers are those of a map, but the migration never moves: the pacing bound holds exactly up to 5 different keys and the load bound exactly up to 8 |
| DictRuns.CallsPromote | lib/dict.c:38-87 | as written, every insertion, and every lookup or deletion in a dictionary that is not empty, promotes a drained table 0; while table 0 holds entries none of them moves the cursor |
| DictPacing.CallPaced | lib/dict.c:146 | as written, for every insertion, lookup and deletion and each of the two bounds: a state within the bound stays within it if and only if the call is not a new key that comes while table 0 still holds entries and the bound is used up; the cursor stays or the migration is over |
| DictPacing.RunPacedExact | lib/dict.c:33-112 | as written, over any run of insertions, lookups and deletions that go as meant, each bound holds all along if and only if no call breaks it at its turn |
| DictAsWritten.DelBodyExact | lib/dict.c:91-111 | as written, the two searches unlink what was meant if and only if the key is absent, or the stored pointer is given and prevEntry is not stale |
| DictRuns.DelAsWrittenExact | lib/dict.c:81-112 | as written, the whole of dictDel answers and removes what one map would if and only if the key is absent, or the stored pointer is given and prevEntry is not stale, all of it seen from the state before the call |
| DictRuns.StaleStillFound | lib/dict.c:83-106 | as written, in every state in which prevEntry is stale and the stored pointer is given: del hands the entry out and get still finds it |
| DictRuns.OtherPointer | lib/dict.c:95 | as written, a run: a key added and then deleted through another address with the same text is not found |
| DictRuns.FifthKeyStale | lib/dict.c:83-106 | as written, after four keys, a fifth one in an occupied slot of table 0 has prevEntry stale; deleting it hands it out and leaves it where get finds it |
| DictRuns.StaleDelete | lib/dict.c:83-106 | as written, that as a run from an empty dictionary, for every hash and any insertions and lookups of four keys |
| DictRuns.DeletedKeyFound | lib/dict.c:83-106 | as written, that run with the hash of this file and the keys "c" to "g" |
| DictRuns.ApplyExact | lib/dict.c:33-180 | as written, each of add, get, del, expand and rehash does what a map does if and only if it meets its condition: none for add, get and expand, the pointer and prevEntry for del, the surviving buckets for rehash |
| DictRuns.RunAsMeant | lib/dict.c:33-180 | as written, a run in which every call meets its condition answers as one map |
| DictRuns.RunExact | lib/dict.c:33-180 | as written, the calls of a run do one after the other what the map does if and only if each meets its condition at its turn |
| Dictionary.Dict.KeyIndexAsWritten | lib/dict.c:160 | as written, on linked entries: the search through the stale bucket head returns what DictAsWritten.KeyIndex says |
| Dictionary.Dict.MoveOneAsWritten | lib/dict.c:155-168 | as written, on linked entries, for tables of any sizes: moving a bucket leaves exactly the tables of DictAsWritten.MoveBucketAsWritten, or stops where that leaves table 1 |
| Dictionary.Dict.RehashAsWritten | lib/dict.c:141-180 | as written, on linked entries: the nested loops leave exactly the state of DictAsWritten.RehashAsWritten, or stop where that leaves table 1 |
| Dictionary.Dict.DelAsWritten | lib/dict.c:91-111 | as written, on linked entries: the result of DictAsWritten.DelBodyAsWritten, or, with a stale prevEntry, table 1 still heads its chain with the freed entry and the chain of table 0 runs on into it |
| Dictionary.Dict.DictDelAsWritten | lib/dict.c:81-112 | as written, on linked entries: size test, step and searches together give DictRuns.DelAsWritten, or, with a stale prevEntry, the crossed chains |
| BlockingQueue.StepHolder | chap-26/blocking_io_threadpool_server.c:36-76 | every step keeps at most one thread between lock and unlock, and only that thread changes what the lock holder does |
| BlockingQueue.StepSimulates | chap-26/blocking_io_threadpool_server.c:34-77 | every fine-grained step is a push, a pop or nothing on an atomic bounded FIFO |
| BlockingQueue.StepNoLostWakeup | chap-26/blocking_io_threadpool_server.c:38-72 | every step, spurious wakeups included, keeps waiting consumers covered by woken ones or a signal to come, and dually for producers |
| BlockingQueue.StepAccounted | chap-26/blocking_io_threadpool_server.c:34-53 | every step keeps the account of each descriptor: accepted as often as pushed and held by a producer |
| BlockingQueue.QueueSafety | chap-26/blocking_io_threadpool_server.c:34-77 | in every reachable state: mutual exclusion, taken descriptors are the pushed ones in order, the ring holds the rest, every accepted descriptor was taken once for each acceptance, is in the ring or in its producer's hand, rear = (front + used) mod size, and a worker serves its own latest removal |
| BlockingQueue.WakeupsNeverLost | chap-26/blocking_io_threadpool_server.c:38-72 | in every reachable state, a waiting consumer implies used <= woken consumers, plus one before a pending signal; the dual for free slots |
| BlockingQueue.NeverAllBlocked | chap-26/blocking_io_threadpool_server.c:38-61 | with a positive size, a producer and a consumer, some thread is not blocked and can step |
| BlockingQueue.SpuriousTestsAgain | chap-26/blocking_io_threadpool_server.c:38-61 | a waiter may wake for no reason at any time, which changes nothing else; it comes back only with the lock, and to the test of its loop |
| BlockingQueue.GoEnabled | chap-26/blocking_io_threadpool_server.c:55-77 | with an item queued and a worker free, a step inside push or pop is enabled |
| BlockingQueue.RankDrops | chap-26/blocking_io_threadpool_server.c:36-76 | every step inside push or pop other than the removal lowers a well-founded rank |
| BlockingQueue.NextPop | chap-26/blocking_io_threadpool_server.c:154-158 | under any schedule, until the next removal a step inside push or pop is always enabled, and of these there are at most Rank, and 12 more for each accept, finished connection and spurious wakeup in between |
| BlockingQueue.WorkersFinish | chap-26/blocking_io_threadpool_server.c:154-158 | in every run from the start, the descriptors that a worker has taken are as many as the connections it has finished, and one more while it is between removal and the end of its connection |
| BlockingQueue.WorkerReturns | chap-26/blocking_io_threadpool_server.c:154-158 | a worker whose connection has ended is free again: with an item queued a step inside push or pop is enabled until the next removal, and the bound of NextPop applies |
| BlockingQueue.IndexIsMod | chap-26/blocking_io_threadpool_server.c:43-66 | wrapping an index at the end of the array is addition modulo the size |
| BlockingQueue.PushSteps | chap-26/blocking_io_threadpool_server.c:41-46 | storing, advancing and counting keep the queue until the count appends the descriptor |
| BlockingQueue.AdvanceFrontStep | chap-26/blocking_io_threadpool_server.c:65-66 | advancing the front does not change the queue before the count |
| FdQueue.Queue.constructor | chap-26/blocking_io_threadpool_server.c:24-31 | an empty queue of the given size |
| FdQueue.Queue.PushLocked | chap-26/blocking_io_threadpool_server.c:40-46 | on the array, the section runs the three ring steps and appends one descriptor |
| FdQueue.Queue.PopLocked | chap-26/blocking_io_threadpool_server.c:62-68 | on the array, the section removes the oldest descriptor and returns it |
| EchoBuffer.Rot13 | chap-22/nonblocking_io_select_server.c:19-26 | letters of either case go 13 places on around their alphabet, every other byte stays; exactly a newline becomes a newline |
| EchoBuffer.StreamConserved | chap-22/nonblocking_io_select_server.c:45-86 | under any schedule, sent bytes followed by the pending ones are the translated input, which is cut at the complete flushes, without exactly the bytes beyond 4096 of each part |
| EchoBuffer.NoLineStranded | chap-22/nonblocking_io_select_server.c:132-140 | on every slot, over all the connections that use it, an unsent newline keeps readable set, and readable implies there is something to write |
| EchoBuffer.ReceiveAdds | chap-22/nonblocking_io_select_server.c:55-60 | after any bytes the buffer holds the translation of the first 4096 of the epoch and readable says whether a newline came |
| EchoBuffer.ReuseExact | chap-22/nonblocking_io_select_server.c:174-177 | a slot, whatever connections have used it, sends its next connection nothing but that connection's own translated bytes, under every schedule main can produce, if and only if nothing was pending at the close |
| EchoBuffer.LeftoverSent | chap-22/nonblocking_io_select_server.c:174-177 | otherwise the first write on the next connection sends what was left over |
| EchoHandlers.Buffer.constructor | chap-22/nonblocking_io_select_server.c:28-39 | an empty buffer that is not readable |
| EchoHandlers.Buffer.OnReadable | chap-22/nonblocking_io_select_server.c:45-69 | in place: the buffer takes in all chunks, and the code tells the end of the stream, EAGAIN and failure apart |
| EchoHandlers.Buffer.OnWritable | chap-22/nonblocking_io_select_server.c:71-86 | in place: exactly the accepted front of the pending bytes is sent; indices and flag are reset on a complete flush only |
| EchoHandlers.Buffer.Pass | chap-22/nonblocking_io_select_server.c:166-178 | read, then write unless reading failed, and the slot is given up exactly on an error |
| EchoHandlers.Collect | chap-22/nonblocking_io_select_server.c:125-140 | for any slots, the loop registers exactly the open descriptors for reading, exactly the open ones with readable set for writing, and finds the largest |
| EchoHandlers.LinesRegistered | chap-22/nonblocking_io_select_server.c:132-140 | hence, whatever connections have used the slots, every pending line is registered for writing and an empty buffer never is |
| Framing.RoundTripExact | chap-16/tcp_explicit_length_server.c:16-43 | messages come back unchanged and in order, then "closed", if and only if each has at least one byte and fits the buffer |
| Framing.CutRoundTrip | chap-16/tcp_explicit_length_server.c:16-43 | a stream cut at any byte decodes to exactly the messages complete before the cut, then 0 |
| Framing.ParseFrame | chap-16/tcp_explicit_length_client.c:36-45 | the frame of the client is what the server parses, and an oversized one is an error |
| Framing.Be32RoundTrip | chap-16/tcp_explicit_length_client.c:38 | converting a length to network order and back is the identity |
| Framing.MostSignificantFirst | chap-16/tcp_explicit_length_client.c:38 | the first byte of a length in network order counts most |
| Framing.FrameOnWire | chap-16/tcp_explicit_length_client.c:36-45 | a frame is the length with its most significant byte first, the four bytes of the type and the message |
| Framing.ParseOnWire | chap-16/tcp_explicit_length_server.c:16-43 | for any bytes: 0 on less than a header, -1 on a length over the limit with the header consumed, 0 on less than the payload, the payload otherwise; the type plays no part |
| Framing.Readn | lib/common.h:12-33 | under any chunking and EINTR, exactly min(size, what is left) bytes of the stream, in order |
| Framing.ReadMessage | chap-16/tcp_explicit_length_server.c:16-43 | one call returns what the front of the stream parses to, or -1 when a read fails |
| Framing.Serve | chap-16/tcp_explicit_length_server.c:79-90 | the server loop returns the decoding of the whole stream, or, when a read fails, a prefix of its messages and -1 |
| Framing.SendAll | chap-16/tcp_explicit_length_client.c:36-45 | the client loop sends the concatenated frames |
| Framing.Conversation | chap-16/tcp_explicit_length_server.c:79-90 | client and server together deliver exactly the messages complete before any cut, then 0, or, when a read fails, a prefix of them, then -1 |
| Heartbeat.GivesUpExactly | chap-12/ping_client.c:45-89 | for any timing the client gives up exactly at its fourth timeout in a row, after three pings, 19 s to under 20 s after the last receive, or 19 s after the start |
| Heartbeat.SilenceExact | chap-12/ping_client.c:60-89 | behind a receive at any moment of any live run, the pings go out exactly 10, 13 and 16 s later and the client gives up exactly 19 s later, each plus the part of a second that was left in tv, because line 88 sets the seconds only |
| Heartbeat.ClientLoop | chap-12/ping_client.c:53-90 | the loop over the two fields of tv decides, counts pings and spends time as the run of events does, to the microsecond |
| Heartbeat.StepAlive | chap-12/ping_server.c:46-78 | every step of client, network and serial server keeps a pong due before the client gives up |
| Heartbeat.NetworkFollows | chap-12/ping_client.c:53-90 | in every run with network and server the client is one run of events of the client alone, so that the exact times apply to it |
| Heartbeat.PingsConserved | chap-12/ping_server.c:46-78 | in every run the pings sent are those under way, queued, in service and being answered, and the pongs received |
| Heartbeat.NeverDeadExactly | chap-12/ping_client.c:53-90 | no run at all reports a dead connection if and only if the server's sleep and both latencies together stay under 9 s |
| HttpReader.ReadLine | chap-16/tcp_http_server.c:43-61 | the one-character lookahead loop stores and consumes exactly what the line rule says, at the end of the stream and on errors too; on raw bytes: a line that fits is stored with one LF for its CRLF, LF or CR, and exactly the bytes behind that line end are left |
| HttpReader.RawLine | chap-16/tcp_http_server.c:43-61 | bytes without CR and LF, followed by CRLF, by LF, or by CR before something else than LF, are stored with one LF if they fit, and what is left begins right behind the line end |
| HttpReader.RawPiece | chap-16/tcp_http_server.c:47 | a call on a longer line stores its first size - 1 bytes and leaves the rest |
| HttpReader.RawEnd | chap-16/tcp_http_server.c:48-51 | behind the last byte, a failing stream yields what is left, a closed one fills the buffer with its last byte, or with NUL if there was none |
| HttpReader.NormOfWire | chap-16/tcp_http_server.c:51-56 | the normal form of lines on the wire has one LF for the CRLF, LF or CR of each |
| HttpReader.TakeMovesFront | chap-16/tcp_http_server.c:43-61 | what is stored followed by what is left to read is the normalised stream |
| HttpReader.ReadLineExact | chap-16/tcp_http_server.c:47 | a call returns the next line if and only if it fits into size - 1 bytes with its LF |
| HttpReader.OverlongLine | chap-16/tcp_http_server.c:74-77 | a line one byte too long comes out as two pieces, the second of which looks like the empty line |
| HttpReader.ParseHeader | chap-16/tcp_http_server.c:63-83 | on every stream on which the loop ends: what is read and left, and the code, are those of the successive read_line calls up to the first empty piece or failed read; on raw bytes: a request whose lines fit, with any mixture of the three line ends, is read line by line, the code is that of the empty line, and exactly what follows that line is left |
| HttpReader.RawHeader | chap-16/tcp_http_server.c:63-83 | the request line and header lines on the wire, each with CRLF, LF or CR, come out in order with one LF each, and the byte behind the empty line is the next to be read |
| HttpReader.PiecesEnd | chap-16/tcp_http_server.c:74-82 | a stream that fails at its end never keeps the loop going, a closed one never ends it by a failed read |
| HttpReader.HeaderExact | chap-16/tcp_http_server.c:63-83 | the request line and the header lines come out exactly if and only if each fits into 4095 bytes with its LF; then the scan stops at the first empty line and consumes no later byte |
| HttpReader.HeaderStopsExactly | chap-16/tcp_http_server.c:63-83 | for lines of any lengths the scan ends, and it stops exactly behind the empty line if and only if no line but the empty one has a length of 1 modulo 4095 |
| HttpReader.PiecesStop | chap-16/tcp_http_server.c:74-80 | lines of any lengths are read in pieces of 4095 bytes, up to the first line whose last piece is its LF alone; everything behind it stays unread |
| HttpReader.OverlongHeader | chap-16/tcp_http_server.c:74-77 | a header line of any length over 1 that is 1 modulo 4095 ends the scan: its LF passes for the empty line and the headers behind it stay unread |
| PollLoop.PollServer.Pass | chap-21/poll_server.c:54-97 | leaving the loop when ready_num reaches 0 skips no client that is due, a client accepted in the pass is not read, and descriptors stay distinct |
| PollLoop.PollServer.ServeClients | chap-21/poll_server.c:79-97 | entries with events not yet visited never outnumber ready_num, and all due clients are served |
| PollLoop.PollServer.Accept | chap-21/poll_server.c:63-69 | the accepted descriptor takes the first free slot, if there is one |
| PollLoop.ServedExactly | chap-21/poll_server.c:79-82 | a slot is served exactly when it is in use and ready for read or error, once and in slot order |
| PollLoop.NoneLeft | chap-21/poll_server.c:75-95 | when nothing is left to count, nobody behind the current slot is due |

## Left out

- Dictionary.Dict.DictAdd: allocation always succeeds, because the C code does not test malloc or calloc either.
- Dictionary.Dict.DictDel: returns the removed entry as a value, where the C code returns a pointer it has freed.
- Dictionary.Dict.RehashBuckets: n \* 10 and the entry counters are unbounded integers; only the product used \* 2 wraps.
- Dictionary.Dict.RehashAsWritten: behind a write outside table 1 nothing is said.
- DictPacing.RunPacedExact: runs with a call that does not go as meant are not described; DictPacing.CallPaced covers that call itself.
- DictRuns.StaleDelete: the entry that line 101 frees stays a value in the model; what reading it does in C is not modelled.
- BlockingQueue.NextPop: bounds the steps inside push and pop; that the scheduler lets threads run is not modelled.
- Heartbeat.NeverDeadExactly: one message per read and per send; partial messages and message types other than ping are not modelled.
- HttpReader.ParseHeader: not on a closed stream without an empty piece, on which the C loop never ends; the function Header says which streams these are.
- PollLoop.PollServer.Pass: a read error other than ECONNRESET ends the program, and the table is not described behind it; a connection accepted into a full table keeps no slot, as in the C code, whose test of line 71 never holds.
- EchoHandlers.Buffer.Pass: one slot; accept, the bound on descriptors and the loop over the ready ones in main are not modelled.
- Framing.Readn: the conversions between int and size_t around the return value are plain integers.
- Storing the request line in a dictionary (chap-16/tcp_http_server.c:85-96): strsep and stack buffers kept by pointer.
- lib/epoll_dispatcher.c, lib/poll_dispatcher.c, lib/event_loop.c, lib/channel.c, lib/acceptor.c: an unfinished event loop with little settled behaviour.
- lib/channel_map.c, chap-25, the other servers of chap-26 and the clients and servers of chap-4 to chap-15: plain socket calls, or loops that would add easy members only.
- mid-homework: command execution and time formatting; its heartbeat repeats that of chap-12.
- Connection loops of the worker threads: only that a worker is busy until its connection ends.
