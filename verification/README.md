# A verified model of libhp's core

libhp is a C networking library. This project models the parts of it whose correctness
spans many calls, threads or connections, and proves what they promise. `dafny verify
dfyconfig.toml` checks everything.

| file | models |
|---|---|
| `IoVectors.dfy`, `KernelWrites.dfy`, `WriteCalls.dfy` | scatter-gather writes of `src/hp_io.c` that stop at any byte, with writev and without, and whole calls in batches |
| `WriteQueue.dfy`, `WriteBuffer.dfy` | its output queue: release of sent items, resizing; as a value over runs, and as the array updated in place |
| `Framing.dfy`, `WireFormat.dfy` | the message framing of `src/hp_msg.c`: header printer and resynchronising in-place parser, and what the bytes on the wire are |
| `Reader.dfy` | `hp_rd_read` and the parse/dispatch callback of `src/hp_io_t.cpp` |
| `Delivery.dfy` | all three joined by a byte stream: end-to-end delivery |
| `IocpProtocol.dfy`, `IocpTables.dfy` | the two threads of `src/hp_iocp.c`: protocol, and the tables they shift in place |
| `PubSub.dfy`, `PubSubLimits.dfy`, `PubSubScripts.dfy` | durable publish/subscribe over Redis: protocol, the exact conditions of its wake-ups, and the two Lua scripts with the reply loops |
| `IntrusiveList.dfy`, `PendingLists.dfy`, `ReplyLedger.dfy`, `PendingReplies.dfy` | the circular list of `include/hp/klist.h`; the pending replies kept on it: their lists, their ledger over runs, and the two on the heap |
| `PollRegistry.dfy`, `EpollRegistry.dfy` | the descriptor registries of `src/hp_poll.c` and `src/hp_epoll.c` |
| `Decimal.dfy` | decimal printing and reading |
| `JsonPath.dfy` | the JSON path language of `src/hp_cjson.c` |
| `HeaderEdit.dfy` | in-place header rewriting |
| `Common.dfy`, `Arithmetic.dfy` | shared vocabulary |

Most modules have two halves: the state as a value with its steps, about which theorems
over all runs are proved, and the C structure as a class (or an array) updated in place,
whose methods are proved to take exactly those steps.

## What the environment is assumed to do

- A write accepts any part of what it is offered, says EAGAIN, or fails; a refusal of a
  non-empty write sets errno. A read gives any non-empty part of what is on the wire, EAGAIN,
  or the end. What the kernel answers is an input: a series of replies for the writes of a
  call, a store of bytes and ends for the reads of a pass, and whether `epoll_ctl` accepts.
  Its interest set behaves as documented: adding fails with EEXIST exactly for a watched
  descriptor, modifying needs a watched one, deleting a watched one succeeds.
- The host is little-endian, which decides the order of the magic word's bytes.
- The IOCP protocol hands out fewer than INT_MAX - 1 ids; items that had an accept callback
  when they were first added are neither removed nor written to, and an error callback leaves
  its own item alone. `WhoMayBePosted` shows the conditions on posting to be exact. A
  descriptor may be added again with any callbacks.
- Redis executes commands atomically and in order on each connection. Payloads are fresh and
  scores increase on a topic. An acknowledgement may be for any topic and have any id. Only
  `NoLostWakeup` needs more: acknowledgements for topics of the session, with ids from the
  score the topic was taken on at up to that of something delivered since
  (`PubSubLimits.AckIsSafeIff`, `AckAhead`).
- A handler called by the poll loop is set, clears its slot's `revents` through the pointer it
  was given, and removes at most its own descriptor, before or after that. A null handler
  makes the loop spin (`NullHandlerSpins`), so ready slots with one are excluded.
- Descriptors are removed from the epoll table before they are closed; `CloseAgreesIff` shows
  that this is needed exactly for registered ones.

## Where the code falls short of what one would expect

- `hp_io_t_on_data` returns after one dispatched message, and `hp_rd_read` calls it before
  every read and, at end of file, once more. Messages that arrive together wait for the next
  read, and at end of file those for which no call is left are lost. `Reader.AnyReads` gives
  the exact condition for every buffer and all reads, wherever they split the messages.
- A header whose length is negative, or above INT_MAX - 20, stalls the stream
  (`Framing.LengthDecides`). In the second case the C code converts to an int that turns
  negative; the model stops there with the outcome `Wrapped`.
- An acknowledgement that arrives late lowers a cursor and reopens messages
  (`PubSub.LateAckReopens`).
- Only a confirmation with one channel triggers a query, so a SUBSCRIBE that names a new topic
  on a connection with a channel other than its first topic can leave a stored message due
  with nothing under way (`PubSubLimits.LostWakeup`). Exactly these SUBSCRIBEs can
  (`PubSubLimits.SubscribeIsSafeIff`), and `PubSub.NoLostWakeup` excludes no other.
- Delivered messages are sorted by the text of their ids. They come oldest first exactly if
  each older id is not above the leading digits of each younger one
  (`PubSubScripts.OldestFirstIff`), which fails where ids gain a digit (`ShorterLater`).
- A listener added again as a data item is never announced to the poll thread
  (`IocpProtocol.ReaddedListener`).
- On an error, and when a read or write fails, the library's own poll handler removes its
  descriptor and then clears `revents` through the old pointer, where the next registration
  has moved in meanwhile; if that was ready it is not called in this round
  (`PollRegistry.NeighbourLost`). `PollRegistry.AllCalledIff` says exactly when all are called.
- In a JSON path an indexed alternative whose key is missing spoils the alternative behind it
  (`JsonPath.SpoiledExample`); `JsonPath.AlternativesChoose` says exactly what is taken.
- A rewritten header value is not read back if it starts with a separator or contains a line
  feed (`HeaderEdit.PutGet`, in both directions).
- Without writev, a queue whose last item is empty can make `hp_wr_write` report a stale
  errno although nothing is left to send, and no other queue can (`WriteCalls.FalseAlarmIff`,
  with an input in `WriteCalls.FalseAlarmExample`). It can report one although nothing was
  refused exactly if an empty item ends the queue or a batch (`WriteCalls.BlamesNobodyIff`).

## Model

| member | source | states |
|---|---|---|
| `WriteQueue.Conservation` | src/hp_io.c:166-368 | in every run of adds, partial flushes and clears, the bytes accepted since the last clear followed by the unsent bytes are everything added since, and o_bytes plus the unsent count is what was accepted before that clear plus everything added since |
| `WriteQueue.FreedOnceAndOnlyWhenSent` | src/hp_io.c:126-133 | in every run, the free callback of an entry has run exactly once if the entry was released and came with one, never otherwise, and unless it was released by a clear all bytes up to its end had been accepted |
| `WriteQueue.ClearReleasesAll` | src/hp_io.c:235-238 | in every run, after a clear every entry ever added with a free callback has been freed exactly once and nothing is queued |
| `WriteQueue.CapacitySafe` | src/hp_io.c:171-183 | in every run, for every next add: the slot written is inside the allocation, the allocation is the initial size times a power of two and never below it, and one change doubles or exactly halves it |
| `WriteQueue.ResizeCapacity` | src/hp_io.c:171-181 | the resizing rule keeps room for the new item and stays on initial size times a power of two |
| `WriteQueue.AddMeans` | src/hp_io.c:166-205 | an add puts the whole entry behind what is queued and sends and releases nothing |
| `WriteQueue.ResizedExactly` | src/hp_io.c:171-181 | the allocation doubles exactly with three free slots or fewer, and halves exactly if it is above the initial size and two items more would use less than half |
| `WriteQueue.StepKeepsInv` | src/hp_io.c:166-368 | adding, flushing any number of bytes and clearing keep order, conservation, ownership and capacity |
| `IoVectors.CutBytes` | src/hp_io.c:57-73 | dropping whole blocks and moving the base of the next removes exactly the first k bytes of the vector |
| `IoVectors.CutCompose` | src/hp_io.c:82-103 | two adjustments in a row are one for the sum, so the retry loop may be seen as a single write |
| `IoVectors.CutOfPrefix` | src/hp_io.c:295-310 | an adjustment of the first IOV_MAX blocks is one of the whole queue |
| `WriteQueue.FlushCompose` | src/hp_io.c:287-341 | the turns of hp_wr_write amount to one flush, whose released items are those of the turns in order |
| `KernelWrites.Classify` | src/hp_io.c:84-92 | how a write that took nothing is reported: EAGAIN exactly for EINTR or EAGAIN on a negative result, 0 exactly for a stale errno of 0, and every errno but these two as it is |
| `KernelWrites.Answer` | src/hp_io.c:83-84 | the kernel's reply made honest: any part of what is offered, or a refusal with an errno; only a write of nothing may leave a stale errno of 0 |
| `KernelWrites.WriteMeans` | src/hp_io.c:75-106 | for all replies, over byte counts: what goes out is the sum of what the replies take up to the first that takes nothing, or everything; the error is 0 exactly in the second case and otherwise that reply's; and the replies behind the deciding one are left |
| `KernelWrites.BeforeWritev` | src/hp_io.c:57-73 | finds the block the next byte is in and leaves the vector cut by exactly w bytes from there on |
| `KernelWrites.UioWrite` | src/hp_io.c:75-106 | bytes, error and unused replies are those of WriteMeans for the whole vector; the vector is cut by exactly these bytes, at the block the next byte is in; error 0 exactly when all is out |
| `KernelWrites.WriteOne` | src/hp_io.c:241-272 | one block on builds without writev, for every series of the kernel's replies: bytes out, rest, error and replies used |
| `WriteBuffer.Wr.constructor` | src/hp_io.c:110-124 | an empty queue with the given initial size, 8 by default |
| `WriteBuffer.Wr.Reserve` | src/hp_io.c:160-164 | realloc keeps the items and sets the length |
| `WriteBuffer.Wr.Append` | src/hp_io.c:166-205 | the entry stands whole behind what was queued, after resizing; a null buffer changes nothing and returns -1 |
| `WriteBuffer.Wr.DeleteFirst` | src/hp_io.c:207-218 | calls exactly the free callbacks of the first n items, in order, and shifts the others down |
| `WriteBuffer.Wr.Bytes` | src/hp_io.c:220-233 | returns the number of unsent bytes; with o_bytes it is the total added since the last clear |
| `WriteBuffer.Wr.Discard` | src/hp_io.c:235-238 | the queue becomes the cleared queue |
| `WriteBuffer.Wr.WritevSome` | src/hp_io.c:296-310 | one turn with writev, as the kernel's replies determine it: bytes out, whole items, the rest of the item the next byte is in, error and unused replies |
| `WriteBuffer.Wr.WriteEach` | src/hp_io.c:311-332 | one turn without writev does what the kernel's replies say, item by item, and stops at the first not taken whole |
| `WriteBuffer.Wr.Write` | src/hp_io.c:275-368 | in both builds the call is the one the kernel's replies determine, and one flush of the bytes it returns; status 0 means an empty queue, any other that bytes are left (without writev, if the last queued item holds any), and only a real error is recorded |
| `KernelWrites.BlocksCut` | src/hp_io.c:312-329 | without writev too, what a turn leaves is the queue cut by the bytes that were taken |
| `WriteCalls.CallReports` | src/hp_io.c:287-342 | for all replies and both builds, a call cuts the queue by the bytes it returns; status 0 leaves nothing, and an error leaves bytes, without writev if the last queued item holds any |
| `WriteCalls.WillingTakesAll` | src/hp_io.c:287-342 | a kernel that takes whatever it is offered is sent everything: status 0 and an empty queue, in both builds |
| `WriteCalls.OneBatch` | src/hp_io.c:295-310 | with writev one reply is about the first IOV_MAX items only, and exactly so much of them goes out as it takes |
| `WriteCalls.FalseAlarmIff` | src/hp_io.c:312-342 | without writev some series of replies makes a call report an error with nothing left to send if and only if the last queued item is empty |
| `WriteCalls.BlamesNobodyIff` | src/hp_io.c:312-342 | without writev some series of replies makes a call report an error although every item it tried was taken whole if and only if an empty item is the last of the queue or of a batch of IOV_MAX items |
| `WriteCalls.FalseAlarmExample` | src/hp_io.c:312-342 | five bytes, then an empty item, answered by 5 and by 0 with a stale errno: that errno is returned and nothing is left |
| `Framing.FieldRoundTrip` | src/hp_msg.c:73-92 | every 32-bit field survives network byte order and the cast back, negative ones included |
| `Framing.HeaderFields` | src/hp_msg.c:66-92 | the four field readers on a printed header give the four fields |
| `WireFormat.HeaderLayout` | src/hp_msg.c:66-92 | the bytes on the wire, weighted from outside: the word 0x32603723 lowest byte first, and at offsets 4, 8, 12 and 16 id, type, session and length, highest byte first, modulo 2^32 |
| `WireFormat.MagicWord` | src/hp_msg.c:36 | four bytes weighted by powers of 256, lowest address first, give 0x32603723 if and only if they are the magic word |
| `WireFormat.PutIntWire` | src/hp_msg.c:73-76 | a field's bytes weighted 256^3, 256^2, 256, 1 in address order give its value modulo 2^32 |
| `WireFormat.GetIntWire` | src/hp_msg.c:89-92 | four bytes are read as n if and only if n fits 32 bits and they weigh n modulo 2^32 |
| `Framing.EncodedFront` | src/hp_msg.c:141-181 | the parser on a sent message followed by anything returns the message and leaves what follows |
| `Framing.PackSound` | src/hp_msg.c:95-191 | one call, in either mode, loses and invents nothing: for every continuation the messages of the buffer are the one returned and those of what is left |
| `Framing.SkipJunk` | src/hp_msg.c:122-138 | skipping bytes at which no magic word stands changes no message |
| `Framing.DrainSound` | src/hp_msg.c:103-184 | calling until more is needed returns the messages of the buffer, whatever is to follow, and leaves one without a message |
| `Framing.ChunkIndependence` | src/hp_msg.c:95-191 | for all cuts of a stream and both modes, the messages are those of the stream fed whole, although leftovers may differ |
| `Framing.NoOverlap` | src/hp_msg.c:78 | because the four magic bytes are distinct no magic word begins in junk and ends in a header |
| `Framing.Resync` | src/hp_msg.c:103-139 | a stream of messages with magic-free bytes before each of them denotes exactly those messages |
| `Framing.ParserResync` | src/hp_msg.c:103-184 | the parser, fed in any chunks, skipping by itself or driven past its mismatch errors, returns exactly those messages |
| `Framing.LengthDecides` | src/hp_msg.c:142-152 | a header yields a message if and only if its length is non-negative and 20 + length fits an int; any other stalls the stream for good |
| `Framing.MsgHeader` | src/hp_msg.c:66-85 | writes the 20 header bytes, whose layout HeaderLayout states, into a fresh buffer |
| `Framing.ScanMagic` | src/hp_msg.c:123-130 | stops at the first magic word or four bytes before the end, so no partial magic word is dropped |
| `Framing.TakeMessage` | src/hp_msg.c:141-184 | reads the message at the front in place, or asks for more |
| `Framing.PmPack` | src/hp_msg.c:95-191 | the in-place parser computes the specified outcome and leftover buffer and touches nothing behind the length; it terminates by buffer length |
| `WireFormat.PackFinds` | src/hp_msg.c:103-184 | skipping, the parser returns a message if and only if it lies at the first magic word, read off the wire by weights, and then leaves exactly what is behind it |
| `WireFormat.NoskipFinds` | src/hp_msg.c:103-184 | with PMRW_NOSKIP, if and only if it lies at the front; and a mismatch is reported exactly for a header's worth of bytes without the word in front |
| `Reader.OnDataInPlace` | src/hp_io_t.cpp:40-66 | the data callback in place: leftover buffer, messages dispatched (at most one with a dispatch callback) and result |
| `Reader.OnDataFinds` | src/hp_io_t.cpp:51-64 | the callback dispatches a message if and only if it is the first one lying in the buffer, leaves exactly what is behind it and returns what its dispatch returned; -1 for bytes that are no message exactly where none may be skipped |
| `Reader.OnDataAnswers` | src/hp_io_t.cpp:51-64 | its result is the dispatch callback's if there was a message, and otherwise 0, or -1 with an emptied buffer |
| `Reader.WithoutDispatch` | src/hp_io_t.cpp:51-64 | without a dispatch callback all messages are parsed and forgotten |
| `Reader.OnDataSound` | src/hp_io_t.cpp:51-64 | the callback loses nothing, for every continuation of the stream |
| `Reader.PassSound` | src/hp_io.c:370-431 | a whole pass of hp_rd_read loses nothing: buffered and newly read bytes are the messages dispatched and what is left |
| `Reader.PassEnds` | src/hp_io.c:378-425 | unless a dispatch fails, a pass reads up to the first reply without bytes, its byte count is that of the reads before it, EAGAIN leaves the error alone, and an end is recorded |
| `Reader.FailedDispatch` | src/hp_io.c:378-382 | a dispatch that fails ends the pass with its result as the error |
| `Reader.DispatchBound` | src/hp_io_t.cpp:59-60 | a pass dispatches at most one message per reply of the kernel and one more |
| `Reader.AnyReads` | src/hp_io_t.cpp:51-60 | for every buffer and all reads, however they split the messages, no dispatch failing: what is dispatched is an initial part of the messages, the rest stays in the buffer, and it is all of them if and only if for each read, and for the start, the messages not complete before it are no more than the calls of the callback from there on |
| `Reader.OneBurst` | src/hp_io_t.cpp:51-60 | messages brought by one read into an empty buffer are all dispatched if and only if there is at most one, or at most two before a close |
| `Reader.Bursts` | src/hp_io_t.cpp:51-60 | its case of reads that bring whole messages behind any backlog: all is dispatched if and only if for each read the messages from there on are no more than the calls behind it |
| `Reader.TwoBursts` | src/hp_io_t.cpp:51-60 | two reads of two messages each, then a close: not all are dispatched |
| `Reader.CloseErr` | src/hp_io.c:407-425 | end of file leaves errno as the error, and EIO if it is 0 |
| `Reader.Rd.constructor` | src/hp_io.c:135-149 | an empty buffer of the given size, 8192 by default |
| `Reader.Rd.MakeRoom` | src/hp_io.c:383-392 | a full buffer doubles and keeps its bytes |
| `Reader.Rd.Read` | src/hp_io.c:370-431 | for everything the kernel may have in store, read as room allows: buffer, dispatched messages, byte count and error are those of one pass, which reads all that has arrived unless a dispatch fails |
| `Reader.Rd.Turn` | src/hp_io.c:378-425 | one turn of its loop, with what it draws from the kernel's store, and the extra callback when the descriptor is closed |
| `Reader.Rd.TakeOne` | src/hp_io.c:383-425 | its second half: room, one read that takes what fits, the error recorded, and the last callback at a close |
| `Delivery.EndToEnd` | src/hp_io.c:275-431 | in every run of sender, queue, wire, reader and parser the dispatched messages are a prefix of those sent, and until the sender gives up the others are all still in flight |
| `Delivery.StepKeepsInv` | src/hp_io.c:166-431 | every step keeps what is in flight equal to the encoding of the undispatched messages, cut short after an abort |
| `Delivery.PassClean` | src/hp_io_t.cpp:40-66 | a pass over part of a clean stream dispatches its next messages in order and leaves it clean |
| `IocpProtocol.TwoThreadsAgree` | src/hp_iocp.c:591-626 | in every run, replaying the queued messages on the poll thread's table gives exactly the data items, so ADD never finds its id and RM always does |
| `IocpProtocol.PollTableIsPast` | src/hp_iocp.c:466-511 | in every run the poll thread's table is an earlier state of the data items, strictly ascending, within maxfd slots, also after the next message |
| `IocpProtocol.WhoMayBePosted` | src/hp_iocp.c:187-194 | in every run, posting about an item leaves the poll thread's assertions safe if and only if the item had no accept callback when it was first added and is not already leaving |
| `IocpProtocol.ReaddedListener` | src/hp_iocp.c:909-919 | a listener added again as a data item stays unknown to the poll thread, so that a message about it trips the assertion |
| `IocpProtocol.AddKeepsInv` | src/hp_iocp.c:902-957 | adding, and adding again with or without an accept callback, keeps the tables in agreement |
| `IocpProtocol.AddAnswers` | src/hp_iocp.c:902-957 | a result from 0 on is the id of exactly one item, which holds the descriptor with the callbacks given: the one that had it, or a new one at the end; -2 exactly if it is unknown and the table full; -3 exactly if it is unknown, there is room and the binding failed; a refusal changes no item |
| `IocpProtocol.BeginKeepsInv` | src/hp_iocp.c:187-197 | posting the removal before the callback keeps them in agreement while the item is still in the table |
| `IocpProtocol.EndKeepsInv` | src/hp_iocp.c:199-206 | shifting the item out does |
| `IocpProtocol.MarkKeepsInv` | src/hp_iocp.c:961-975 | resetting the callbacks does |
| `IocpProtocol.WriteKeepsInv` | src/hp_iocp.c:1022-1047 | asking for POLLOUT does |
| `IocpProtocol.PollStepKeepsInv` | src/hp_iocp.c:591-626 | taking a message, or changing flags, in the poll thread does |
| `IocpProtocol.TakeMeans` | src/hp_iocp.c:591-626 | after a message the poll thread watches exactly what it did, with the new entry at POLLIN, the changed flags, or without the removed one |
| `IocpProtocol.DataLeave` | src/hp_iocp.c:194 | the posted removal takes exactly the leaving item's key out of the data table |
| `IocpProtocol.DataWithout` | src/hp_iocp.c:199-205 | shifting the item out of the vector is what marking it as leaving anticipated |
| `IocpProtocol.RunInv` | src/hp_iocp.c:187-206 | in every run ids are strictly ascending and below the counter, descriptors are distinct, items fit maxfd, and the two tables agree |
| `IocpTables.PollTable.Search` | src/hp_iocp.c:442-451 | the binary search by id returns exactly what a linear scan would |
| `IocpTables.PollTable.Handle` | src/hp_iocp.c:591-626 | handling one message on the two parallel arrays is the specified change, and no assertion fails |
| `IocpTables.PollTable.SetOrRemove` | src/hp_iocp.c:612-624 | an RM with flags 0 shifts the entry out of both arrays, any other sets its events |
| `IocpTables.PollTable.RemoveAt` | src/hp_iocp.c:617-622 | the two memmoves keep the arrays parallel and sorted |
| `IocpTables.UserTable.SearchId` | src/hp_iocp.c:167-182 | the binary search by id finds an item exactly if there is one |
| `IocpTables.UserTable.AddFd` | src/hp_iocp.c:902-957 | vector, id counter, posted messages and result are those of AddItem, and a result from 0 on is the id of the item that then holds the descriptor |
| `IocpTables.UserTable.AddThenSearch` | src/hp_iocp.c:902-957 | searching with the id returned finds the item that holds the descriptor |
| `IocpTables.UserTable.MarkFd` | src/hp_iocp.c:961-975 | marks the item with this id, and no other, as removed, so that writes to it are refused, or returns -2 exactly if there is none |
| `IocpTables.UserTable.RequestWrite` | src/hp_iocp.c:1022-1047 | queues exactly this buffer and posts exactly these flags for an item that is present and not removed; refuses with -1 without data and -2 otherwise, releasing the buffer at once |
| `IocpTables.UserTable.Callback` | src/hp_iocp.c:196-197 | the call is logged, and whatever a user callback adds, removes or writes to, the items keep their ids and new ones follow in order |
| `IocpTables.UserTable.BeginError` | src/hp_iocp.c:187-194 | the removal is posted before the callback |
| `IocpTables.UserTable.Finish` | src/hp_iocp.c:199-205 | the memmove takes exactly item i out |
| `IocpTables.UserTable.OnError` | src/hp_iocp.c:187-207 | posts the removal, then calls on_error once, then shifts the item out; it says whether items moved down |
| `IocpTables.UserTable.Visit` | src/hp_iocp.c:737-746 | the turn for one item, and where the loop goes on |
| `IocpTables.UserTable.RunPass` | src/hp_iocp.c:736-747 | whatever on_loop answers for each item: one pass visits every item present at the start, and every item added meanwhile, exactly once and in order of id, calling on_accept, on_loop and, exactly where that fails, on_error; those that fail, and only they, are gone afterwards |
| `PubSub.NoLossUntilAcked` | src/hp_pub.c:48-83 | in every run, whatever is acknowledged and when, a message stored while its topic is in the session with a cursor below it is in every later reply until an ack at or past its score is executed |
| `PubSub.VisibleWhenStored` | scripts/sub.lua:17-29 | right after its ZADD a message of a topic in the session is in a reply if and only if the cursor is below its score |
| `PubSub.AboveIsTail` | scripts/sub.lua:17-29 | of a sorted set the reply is the end that lies above the cursor, each message once and in order of score |
| `PubSub.EarlierNeverReplied` | scripts/sup.lua:24-32 | in every run, a message stored before its topic is taken on is in no reply while the topic stays and no ack below its score is executed |
| `PubSub.AcknowledgedNeverReplied` | scripts/sub.lua:17-29 | in every run, a message acknowledged at or past its score is in no reply while the topic stays and no lower ack is executed |
| `PubSub.AckDecides` | src/hp_pub.c:578-583 | right after an ack exactly the stored messages of the topic with greater score are replied |
| `PubSub.LateAckReopens` | src/hp_pub.c:578-583 | acks are stored as they come: after two acks the message at the first is replied again if and only if the second is lower |
| `PubSub.ResubscribeKeepsCursors` | scripts/sup.lua:21-42 | subscribing again changes no cursor; the session's topics are exactly those given, kept ones with their cursor, new ones at their latest score |
| `PubSub.ResubscribeCovers` | src/hp_pub.c:441-466 | a resubscription without topics sends one SUBSCRIBE, and once that is executed every topic of the session is a channel |
| `PubSub.NotifiedQuerySees` | src/hp_pub.c:211 | in every run a query caused by a notification finds its message stored, and replies it unless acknowledged or dropped |
| `PubSub.NoLostWakeup` | src/hp_pub.c:185-211 | in every run whose SUBSCRIBEs bring nothing new or are confirmed with one channel, and whose acks are for topics of the session from the score they were taken on at up to something delivered since, a message due has a PUBLISH, a notification or a query under way |
| `PubSubLimits.SubscribeIsSafeIff` | src/hp_pub.c:185-211 | for all channels and topics: no SUBSCRIBE of these topics on a connection with these channels, in any state such runs reach, loses a wake-up if and only if it is empty, or there is no channel but the first it names, or it names only channels there already are |
| `PubSubLimits.LostWakeup` | src/hp_pub.c:185-191 | for all others, and each new topic named: such a run, in which the SUBSCRIBE then leaves a stored message of that topic due with nothing under way |
| `PubSubLimits.AckIsSafeIff` | src/hp_pub.c:578-583 | for all ids: no ack with this id, in any state such runs reach, loses a wake-up if and only if the id is not below the score its topic was taken on at |
| `PubSubLimits.UnheardAck` | src/hp_pub.c:578-583 | such a run, in which an ack below that score makes an earlier message due with nothing under way |
| `PubSubLimits.AckAhead` | src/hp_pub.c:578-583 | such a run, in which an ack ahead of what was delivered, and then one back at that score, do the same |
| `PubSub.HistoryKept` | scripts/sup.lua:18-43 | while acks are for what was delivered since the topic was taken on, cursors stay between the score it was taken on at and what was seen, and what was seen is closed downwards |
| `PubSub.PubsKept` | src/hp_pub.c:63-76 | a PUBLISH under way is behind its ZADD, or its message is stored |
| `PubSub.NotesKept` | src/hp_pub.c:168-211 | a notification is only ever about a stored message |
| `PubSub.CursorsKept` | scripts/sup.lua:18-43 | unless an ack is past what is stored, no step puts a cursor past the latest score of its topic, and every message is above the cursor when it is stored |
| `PubSub.CursorMoves` | scripts/sup.lua:32 | while its topic stays, a cursor moves only by an ack |
| `PubSub.RunInv` | src/hp_pub.c:441-466 | the invariant of store, session, connections and notifications holds in every run |
| `PubSubScripts.Hash.Sup` | scripts/sup.lua:18-43 | both loops of the script, on the hash in place: known topics keep their cursor, new ones start at their latest score, the others are gone |
| `PubSubScripts.Hash.TakeOn` | scripts/sup.lua:21-33 | the first loop adds exactly the given topics and overwrites none |
| `PubSubScripts.Hash.Sub` | scripts/sub.lua:14-29 | the reply lists every topic of the session once, with exactly the messages above its cursor, passing over those whose query fails |
| `PubSubScripts.Collect` | src/hp_pub.c:126-136 | everything in the reply goes into the vector, once per occurrence, and nothing else |
| `PubSubScripts.SortById` | src/hp_pub.c:97-102 | the vector is permuted into the order of the id texts |
| `PubSubScripts.TextOrder` | src/hp_pub.c:97-102 | for all ids: one with no more digits than another is before it exactly if it is not above the leading digits of the other |
| `PubSubScripts.OldestFirstIff` | src/hp_pub.c:137-142 | what is delivered comes oldest first if and only if among it each older id is not above the leading digits of each younger one |
| `PubSubScripts.SameDigitsOldestFirst` | src/hp_pub.c:137-142 | so it does if all ids have equally many digits |
| `PubSubScripts.SameDigitsSameOrder` | src/hp_pub.c:97-102 | between ids of equally many digits the order of texts is that of scores |
| `PubSubScripts.ShorterLater` | src/hp_pub.c:97-102 | the first millisecond whose id has fourteen digits is delivered before the last with thirteen |
| `PubSubScripts.RunQueryScript` | src/hp_pub.c:126-145 | script, reply loop and sort together deliver exactly what the protocol calls visible, in the order of the ids |
| `IntrusiveList.Init` | include/hp/klist.h:35-37 | a head alone is the empty list |
| `IntrusiveList.InsertBetween` | include/hp/klist.h:39-47 | on a well-linked ring, inserts at exactly this position |
| `IntrusiveList.Add` | include/hp/klist.h:52-55 | prepends |
| `IntrusiveList.AddTail` | include/hp/klist.h:57-60 | appends |
| `IntrusiveList.Unlink` | include/hp/klist.h:62-66 | removes the node between two neighbours |
| `IntrusiveList.Delete` | include/hp/klist.h:68-73 | removes and resets both pointers of the node |
| `IntrusiveList.DeleteInit` | include/hp/klist.h:75-79 | removes and leaves the node an empty list of its own |
| `IntrusiveList.MoveToFront` | include/hp/klist.h:81-85 | list_move within one list |
| `IntrusiveList.Move` | include/hp/klist.h:81-85 | list_move between two lists that share nothing |
| `IntrusiveList.IsEmpty` | include/hp/klist.h:94-97 | true exactly for the empty list |
| `IntrusiveList.SpliceNonEmpty` | include/hp/klist.h:99-111 | joins a non-empty list in front of another, leaving the old head pointing into it |
| `IntrusiveList.Splice` | include/hp/klist.h:113-117 | the same for any list |
| `IntrusiveList.SpliceInit` | include/hp/klist.h:119-126 | the same, and the old head becomes an empty list |
| `IntrusiveList.Neighbours` | include/hp/klist.h:26-28 | in a well-linked ring a node's pointers are its neighbours |
| `PendingReplies.Replies.LinkedIffSession` | src/hp_pub.c:104-166 | a pending record hangs in a list if and only if its session pointer is set, and then in that session's |
| `ReplyLedger.FreedByItsReply` | src/hp_pub.c:146-150 | over every run of session starts, sends, replies and session ends, a record is freed exactly once, by its own reply, and stays until then |
| `ReplyLedger.SentThenFreed` | src/hp_pub.c:104-166 | for every query of every run: its record hangs last in its session's list right after it, is freed if and only if its reply runs later in the run, and never if the command was refused |
| `ReplyLedger.FreedIffAnswered` | src/hp_pub.c:146-150 | and every record alive at the start is freed in a run if and only if its reply runs |
| `ReplyLedger.SendMeans` | src/hp_pub.c:153-166 | a query hangs its record last in its session's list and changes no other list; the record is in flight exactly if the command was accepted |
| `ReplyLedger.ReplyMeans` | src/hp_pub.c:146-150 | a reply frees its record, and only that, and takes it out of its list |
| `ReplyLedger.EndMeans` | src/hp_pub.c:363-378 | the end of a session frees no record and leaves none that points to it; the others keep theirs |
| `ReplyLedger.StartMeans` | src/hp_pub.c:409-412 | a new session has an empty list, and nothing else changes |
| `ReplyLedger.AfterOk` | src/hp_pub.c:104-412 | every action keeps the records, their owners and the freed set consistent |
| `PendingReplies.Replies.constructor` | src/hp_pub.c:409-412 | nothing pending, and consistent |
| `PendingReplies.Replies.Open` | src/hp_pub.c:409-412 | a context without a session gets a new one with an empty list, any other keeps its own; no other list changes |
| `PendingReplies.Replies.Send` | src/hp_pub.c:153-166 | on the heap: a fresh record that points to its session and is the last node of its ring, every other session's ring unchanged; in flight exactly if the command was accepted |
| `PendingReplies.Replies.Reply` | src/hp_pub.c:146-150 | the record is freed and its node is in no session's ring |
| `PendingReplies.Replies.FreeSession` | src/hp_pub.c:363-378 | safe iteration visits every record of the session once and in order; each is unlinked and has lost its session pointer |
| `PendingReplies.Replies.UnhookAll` | src/hp_pub.c:369-376 | the loop empties the session's list, clears every record's session pointer and touches no other list |
| `PendingReplies.Replies.GoRound` | include/hp/klist.h:138-140 | iterating with the next node fetched before the current is unhooked |
| `PendingLists.HookNode` | src/hp_pub.c:160-161 | appending to one session's list leaves every other list alone |
| `PendingLists.UnhookNode` | src/hp_pub.c:147-149 | removing from one session's list leaves every other list alone |
| `PollRegistry.RefinesMap` | src/hp_poll.c:214-257 | after any sequence of adds, re-adds and removals the slots hold distinct descriptors, at most max_fd, and exactly what a plain bounded map would hold |
| `PollRegistry.AddIsMapUpdate` | src/hp_poll.c:214-242 | adding is a map update, refused exactly for an invalid descriptor or a new one with all slots taken |
| `PollRegistry.AddSlot` | src/hp_poll.c:214-242 | an accepted add takes the descriptor's own slot, or a new one at the end, with nothing ready, and leaves the other slots |
| `PollRegistry.RmIsMapRemoval` | src/hp_poll.c:244-257 | removing is a map removal, with -1 exactly for an absent key |
| `PollRegistry.FindAgrees` | src/hp_poll.c:285-303 | hp_poll_find finds something exactly if the map has a match, and then one of its matches |
| `PollRegistry.FindScan` | src/hp_poll.c:285-303 | hp_poll_find gives the argument of the first slot that matches, and nothing exactly if none does |
| `PollRegistry.VisitReady` | src/hp_poll.c:115-128 | for all three orders of clearing and removing, and whatever is added: the ready registrations before a call are the one called, the one wiped if any, and those after it |
| `PollRegistry.OnlyItsOwn` | src/hp_io_t.cpp:160-179 | a call takes only its own registration off the ready ones if and only if its handler does not remove itself before it clears with the next slot ready |
| `PollRegistry.RoundInOrder` | src/hp_poll.c:115-128 | whatever the handlers of a round do, those called are ready registrations in slot order |
| `PollRegistry.RoundCounts` | src/hp_poll.c:115-128 | each ready registration is called, wiped or still ready, and only one of these |
| `PollRegistry.RoundEnds` | src/hp_poll.c:115-128 | none is ready any more after as many calls as there were ready ones |
| `PollRegistry.CalledOnce` | src/hp_poll.c:115-128 | no registration is called twice in a round |
| `PollRegistry.AllCalledIff` | src/hp_poll.c:115-128 | a round calls all ready registrations, each once and in slot order, if and only if no handler that removes itself before clearing had a ready slot right behind it |
| `PollRegistry.NeighbourLost` | src/hp_io_t.cpp:160-179 | two ready slots, the first handler removing itself before it clears: the second is wiped and not called |
| `PollRegistry.Poll.constructor` | src/hp_poll.c:177-196 | an empty registry with the given number of slots, 65534 by default |
| `PollRegistry.Poll.AddFd` | src/hp_poll.c:214-242 | the paired arrays change as the specified add, with its return code |
| `PollRegistry.Poll.RemoveAt` | src/hp_poll.c:48-65 | the copy up and the move down keep slot i and handler -i of the same registration together |
| `PollRegistry.Poll.RemoveFd` | src/hp_poll.c:244-257 | the paired arrays change as the specified removal, with its return code |
| `PollRegistry.Poll.Find` | src/hp_poll.c:285-303 | the first slot whose argument matches |
| `PollRegistry.Poll.NextToRun` | src/hp_poll.c:72-85 | the first ready slot among the first n |
| `PollRegistry.Poll.Dispatch` | src/hp_poll.c:115-128 | if every ready slot has a handler, the repeated first-ready scan ends, having called ready registrations in slot order and none twice, and all of them exactly if no handler wiped the slot behind its own; what it calls and leaves is the specified round |
| `PollRegistry.Poll.Handler` | src/hp_io_t.cpp:160-179 | one handler: it clears its slot through the pointer it was given, may remove its own descriptor before or after that, and may add others at any time |
| `PollRegistry.Poll.OwnSlot` | src/hp_io_t.cpp:160-179 | its dealings with its own slot, in each of the three orders |
| `PollRegistry.Poll.Turn` | src/hp_poll.c:118-128 | one turn calls the first ready slot's handler if it is set, and otherwise changes nothing |
| `PollRegistry.NullHandlerSpins` | src/hp_poll.c:118-128 | with a null handler in the first ready slot, after any number of turns nothing has changed and the same slot is the first ready one |
| `EpollRegistry.TableAndKernelAgree` | src/hp_epoll.c:157-241 | in every run that removes descriptors before closing them the kernel watches exactly the table with its pointers, all live, and a batch of distinct events fits max_ev_len |
| `EpollRegistry.CloseAgreesIff` | src/hp_epoll.c:214-241 | closing a descriptor keeps table and kernel in agreement if and only if it is not registered |
| `EpollRegistry.AfterAgrees` | src/hp_epoll.c:157-241 | each operation keeps them in agreement |
| `EpollRegistry.Epoll.constructor` | src/hp_epoll.c:92-116 | an empty table with the given number of slots, 65535 by default |
| `EpollRegistry.Epoll.AddFd` | src/hp_epoll.c:157-210 | exact codes, for a kernel that accepts or refuses: -1 for an invalid descriptor only; a known one gets its handler, 0 if the kernel accepts the new events and -3 if not; a new one is in table, kernel and masks with 0 exactly if there is room and the kernel accepts it, otherwise -2 and in none of them; a refused entry is leaked |
| `EpollRegistry.Epoll.Enter` | src/hp_epoll.c:171-190 | the branch marked as never reached is not reached |
| `EpollRegistry.Epoll.RemoveFd` | src/hp_epoll.c:214-241 | takes exactly this registration out of kernel, heap and table, its mask with it |
| `EpollRegistry.Epoll.Find` | src/hp_epoll.c:138-145 | the argument of the first match, or nothing exactly if none matches |
| `Decimal.Digits10` | src/hp_sig.c:30-48 | the exact digit count: 10^(d-1) <= v < 10^d, and 1 for 0 |
| `Decimal.LengthIsDigits10` | src/hp_sig.c:30-48 | it is the length of the decimal text |
| `Decimal.DigitsMean` | src/hp_sig.c:90-108 | the text denotes the value and has no leading zero |
| `Decimal.DigitsUnique` | src/hp_sig.c:90-108 | no other text of digits without leading zero denotes it |
| `Decimal.PairTable` | src/hp_sig.c:62-67 | the table shows every number below 100 with its two digits |
| `Decimal.TwoDigits` | src/hp_sig.c:93-99 | two digits off the end at a time |
| `Decimal.Ll2string` | src/hp_sig.c:61-113 | for every 64-bit value, the minimum included: exactly the text and its terminator if they fit, otherwise 0 and an untouched buffer; nothing else is written |
| `Decimal.WriteDigits` | src/hp_sig.c:90-108 | fills precisely the digit positions, backwards |
| `Decimal.Myatoi` | src/hp_str.c:118-146 | the number at the front of the first len characters: sign, digits up to the first other character, 0 for nothing |
| `Decimal.SumDigits` | src/hp_str.c:140-145 | digits times powers of ten add up to the number without overflow on the way |
| `Decimal.RoundTrip` | src/hp_str.c:118-146 | reading the text of any number gives it back, whatever follows, and is defined below 2^31 |
| `Decimal.SignsAndZeros` | src/hp_str.c:118-146 | a minus negates, a plus and a leading zero change nothing |
| `Decimal.TextExample` | src/hp_sig.c:61-113 | -120 and its text |
| `Decimal.PrintThenRead` | src/hp_sig.c:61-113 | ll2string, then myatoi on its buffer with any sufficient length, returns the value whenever its magnitude is below 2^31 |
| `JsonPath.Composition` | src/hp_cjson.c:179-249 | looking up p/q is looking up q in the result of p, for all paths, empty segments, alternatives and indices included |
| `JsonPath.EmptySegments` | src/hp_cjson.c:186-192 | slashes at either end of a path do not matter |
| `JsonPath.IndexSplits` | src/hp_cjson.c:202-229 | key[i] and key/[i] lead to the same node |
| `JsonPath.IndexMeans` | src/hp_cjson.c:202-229 | for all index texts: behind a key, the child of that number of its first namesake, the first for numbers below 0 and the last for those past the end; nothing without such a key or children; alone, a child of the node |
| `JsonPath.AlternativesChoose` | src/hp_cjson.c:192-239 | the loop over alternatives as a choice: the first that leads somewhere and is not spoiled by a missing indexed key before it, and what happens without one |
| `JsonPath.FirstThatResolves` | src/hp_cjson.c:214-217 | the first alternative that leads somewhere is taken unless spoiled; if it is the only one and keys follow, exactly then |
| `JsonPath.SpoiledExample` | src/hp_cjson.c:214-217 | a document that has b and in which the alternatives a[0] and b together find nothing |
| `JsonPath.ExistsAgrees` | src/hp_cjson.c:132-165 | on paths without bar and closing bracket the walk of cjson_exists is that of cjson_ |
| `JsonPath.NamesMean` | src/hp_cjson.c:132-165 | the walk of cjson_exists for all paths: the empty path stays, one name leads to the first child of that name whatever its characters, and p/q leads where q does from p |
| `JsonPath.CellIsColumnOfRow` | src/hp_cjson.c:371-372 | looking up [i]/p in an array, i printed in decimal, is looking up p in child i |
| `JsonPath.KeySplits` | src/hp_cjson.c:349-366 | a column key is cut at its last slash, if it has one |
| `JsonPath.Attempt` | src/hp_cjson.c:200-229 | one alternative: key, index clamped to the children, or given up |
| `JsonPath.OneOf` | src/hp_cjson.c:192-239 | the inner loop with its continue, break and reset |
| `JsonPath.Cjson` | src/hp_cjson.c:179-249 | cjson_ returns exactly the node the path leads to |
| `JsonPath.Exists` | src/hp_cjson.c:132-165 | true exactly if every key leads somewhere; a failure sticks |
| `JsonPath.Col` | src/hp_cjson.c:343-384 | an array with the column of every child in order, without its children, or nothing exactly if the rows or some cell are missing |
| `JsonPath.Cells` | src/hp_cjson.c:368-381 | the loop over the children |
| `HeaderEdit.ModifyHeader` | src/hp_str.c:304-346 | in place: return code, new text, new length and untouched rest of the buffer, for success and every failure |
| `HeaderEdit.EditMeans` | src/hp_str.c:304-346 | for all texts: 1 if and only if the header stands nowhere; 0 if and only if behind its first occurrence, in any case, come separators and, before any line feed, a value with CR LF behind it that is the one expected, and then exactly that value is replaced; otherwise -1; only 0 changes the text |
| `HeaderEdit.EditExample` | src/hp_str.c:304-346 | a header in other case, with colon, tab and blank in front of its value |
| `HeaderEdit.PutGet` | src/hp_str.c:314-341 | the written value is found again at the same place if and only if it has no line feed and no leading separator |
| `HeaderEdit.PutPut` | src/hp_str.c:327-341 | it is then accepted as the expected old value, and a second rewrite overrides the first |
| `HeaderEdit.GetPut` | src/hp_str.c:334-341 | writing the value that is there changes nothing |
| `HeaderEdit.WrongOldValue` | src/hp_str.c:329-331 | an expected value that differs in more than case leaves the text alone |
| `HeaderEdit.ScanLine` | src/hp_str.c:315-323 | the scan finds value and line end exactly if the line ends in CR LF |
| `HeaderEdit.Replace` | src/hp_str.c:334-341 | memmove and memcpy replace the value and nothing else; the length changes by the exact difference |
| `HeaderEdit.EditLine` | src/hp_str.c:314-342 | the line found: refused or rewritten |

## Left out

- WriteBuffer.Wr.Write: the `write_error` callback, and what the owner does with the queue after it, are not part of the call; clearing is a step of its own.
- WriteBuffer.Wr.Append: a copying add (free callback -1) is an entry that owns its block; integer overflow of capacities and of `hp_wr_bytes` is not modelled, numbers of items and bytes are unbounded.
- WriteQueue.CapacitySafe: no amortised bound is claimed; one add and one removal near a boundary can resize repeatedly.
- Framing.PmPack: the zlib branch is not part of this model, null arguments are not passed, and 20 + length beyond INT_MAX ends in `Wrapped` because the C code is undefined from there on.
- Reader.Rd.Read: the callback is the framing parser; other parsers plugged into `hp_io_t`, and a connection without one, are not modelled.
- Delivery.EndToEnd: one sender and one receiver on one connection; when a message is dispatched is not claimed, only order and completeness.
- IocpProtocol.RunInv: id wrap-around, removal of listeners, delivery order of writes and reads, and input buffers are not modelled.
- IocpTables.PollTable.Handle: the WSAPoll build; the select build takes the same steps on one array.
- IocpTables.UserTable.RequestWrite: what becomes of a queued buffer is delivery order, which is not modelled.
- IocpTables.UserTable.RunPass: an item without an on_loop callback counts as one whose on_loop does nothing, and the messages handled before a pass are not part of it.
- IocpTables.UserTable.Callback: effects of a callback outside the table are not modelled, nor an error callback that uses its own item.
- PubSub.NoLossUntilAcked: one session; failed commands, equal scores and lost connections are not modelled.
- PubSubScripts.SortById: the library's sort is an insertion sort here; the order of equal ids, which the source leaves open, is not claimed.
- PendingReplies.Replies.Reply: the record is found from its node by search instead of pointer arithmetic (`list_entry`), and the fate of the reply's contents is in the publish/subscribe modules.
- IntrusiveList.Move: `list_move_tail` and backward iteration would only repeat it.
- PollRegistry.Poll.Dispatch: handlers that remove or re-register other descriptors, null handlers, the loop callbacks and the poll call itself are left out.
- EpollRegistry.Epoll.AddFd: handlers that remove other descriptors while a batch is dispatched are left out.
- Decimal.Myatoi: `pow` is exact; more than 64 digits, or a result beyond an int, are undefined in the source and excluded.
- JsonPath.Cjson: `cJSON` itself is modelled by its documented calls on a tree (lookup ignores ASCII case), regular expression matching by its definition, and index texts beyond an int are excluded as undefined; the Windows build without indices is left out.
- JsonPath.Col: an array of more than INT_MAX children is excluded.
- HeaderEdit.ModifyHeader: null arguments, which return -1, are not passed; the header must not be longer than the text, its line must end, and the buffer must have room for the new value, as the source takes for granted.
- Sockets, timers, logging, configuration, databases, HTTP, MQTT, TLS, the other build variants and the deprecated modules.
- `cjson_sval`, `cjson_ival` and the other one-line readers over `cjson_`, `hp_str_replace`, `hp_vercmp`, `scripts/sadd.lua`: they would only add easy members.
