# Offline message bot: a verified model

The bot stores messages for friends who are offline. A sender posts a message, the bot
keeps it as a row under an increasing id, the recipient pulls size-limited batches and
acknowledges them with a cumulative delete ("every id up to n addressed to me"). This
project models that behaviour in Dafny and proves what it promises over whole runs, down
to the bytes on the wire.

`dafny verify dfyconfig.toml` checks everything.

## How the model is laid out

| file | models |
|---|---|
| `Wire.dfy` | base 128 varints, tags and records of the Protocol Buffers Encoding guide, as functions on bytes |
| `Proto.dfy`, `ProtoRequests.dfy` | the generated messages as values: the records they print, what a record does to them, sizes, merging; round trips and what decoding means |
| `Spelling.dfy`, `MessageBytes.dfy` | the rules of the wire as conditions on single bytes, and each message's literal tags, independent of the reading and writing functions and proved to be what those do |
| `CodedStream.dfy`, `Generated.dfy` | the same codec as the generated code does it: parse loops over a stream, printers advancing through a buffer, accumulating size functions, each proved against the values |
| `Table.dfy` | the rows and what each SQL statement does to them |
| `Batch.dfy` | which rows a pull sends |
| `Handlers.dfy` | each handler of the bot as a function of the table, the packet and the environment |
| `RequestEffects.dfy` | what each packet does to the columns and what is sent back, in literal terms |
| `Pool.dfy`, `Model.dfy`, `Assisant.dfy` | the connection pool, the table operations and the bot's handlers as classes, proved against those functions |
| `Protocol.dfy`, `ExactlyOnce.dfy`, `Runs.dfy` | friends, network and server as a transition system, and theorems about every run |
| `Progress.dfy`, `CatchUp.dfy` | steps that bring a message on its way, and when everything pending can still be delivered |
| `Acks.dfy`, `Drain.dfy` | acknowledgements as a semilattice; a client that empties its mailbox |
| `PoolInterleaving.dfy` | the pool under every interleaving of N threads |

## Main results

- **Exactly once, in order.** In every reachable state, what an honest client accepted,
  followed by what is pending for it in the table, is exactly the sequence of all messages
  ever stored for it. The network may lose, duplicate and reorder packets both ways, other
  friends may send any bytes, and any SQL statement may raise at any row. The client
  ignores ids at or below its high-water mark and deletes no further than that mark.
- **Eventual delivery.** From every reachable state some continuation delivers everything
  pending for an honest client if and only if every pending row fits a response.
- **Drain.** The pull, decode, delete loop ends and delivers exactly the rows before the
  first one that does not fit a response; the mailbox ends empty if and only if every row
  fits. Rows with at most 858 bytes of content always fit.
- **The codec.** Every message is recovered from its bytes; parsing bytes followed by an
  encoded message is merging; each decoded field is the last value its field number
  carries, so field order and unknown fields do not matter; the size function is exact and
  every buffer is filled exactly. Bytes are accepted exactly when they spell records by the
  guide's rules, and the bytes written are given one by one.
- **Acknowledgements.** Deletes by one key in any order, repeated, and anywhere among
  inserts by anyone amount to the greatest one at the end, exactly when two things do not
  happen: an insert takes over a local id whose row was deleted before, or a row for that
  key is stored below the greatest id already acknowledged.
- **The pool.** Under every schedule no pop meets an empty list, no connection is in two
  places or lost, and at most N connections exist for N threads. With at most p threads
  between size check and push at any time, the free list grows to at most the maximum plus
  p, and some schedule gets there.

## Where the code does less than one would expect

These hold of the code as it is; each has the exact condition.

- The reply to a send does not mean that the message was stored: it is if and only if it
  was before, or the insert did not raise and the table accepts it
  (`Handlers.RepliedIsStoredIff`). Local ids are unique over all senders, so a live row of
  another sender with the same local id keeps a message out, and the reply is sent anyway;
  `Runs.ShutOut` is a run in which that happens.
- `left_count` is wrong when the counting query raises and the mailbox is not empty, and
  only then (`Handlers.LeftCountExact`): zero minus the batch length wraps around in
  uint32 (`Handlers.LeftCountWraps`).
- Deletes commute with inserts if and only if no insert takes over the local id of a row
  that an earlier delete removed, and no row for the deleting key is stored with an id that
  the greatest delete covers but no later delete reaches (`Acks.AcksFormSemilattice`).
  `Acks.ReuseOccurs` and `Acks.OutlivingOccurs` show both. The theorem takes it that ids
  do not run out, or that all deletes are below the ids given out meanwhile, where the
  second exception cannot arise (`Acks.OldDeletesReachNothingNew`); `Acks.SupplyMatters`
  shows that something of the kind is needed.
- A delete removes every row of its key up to its id if and only if the id is below 2^63 or
  the mailbox is empty (`Acks.DeleteReachesIff`): a greater id is bound as a negative
  number. So the greatest of several deletes must be taken as a signed number; the unsigned
  one does as well if and only if it is below 2^63 or no row is to be removed
  (`Acks.UnsignedMaximumIff`).
- A row that is too large for a response blocks everything behind it
  (`Runs.OversizeBlocksRun`): content of 887 bytes or more always is, though the column
  admits 2048.
- `max_conn` bounds the free list if and only if there are no more threads than that
  (`PoolInterleaving.MaximumEnforcedIff`). Threads that release strictly one at a time
  still exceed it by one, because the check lets a connection in when the list is at the
  maximum (`PoolInterleaving.MaximumBoundsIff`); each further thread between check and
  push adds one more. The header calls the pool single-threaded.
- The reply to a send is built as an OfflineMessageReq where the protocol has an
  OfflineMessageRes; the bytes are the same (`ProtoRequests.ReplyIsRes`).

## Assumptions

- Each callback is atomic: there is one event loop (src/main.cc:34-37).
- A friend's key is always 64 bytes, already in upper case (src/util.cc:31-42).
- MySQL runs in strict mode: a value its column cannot hold, a duplicate local id or an
  exhausted id supply raises SQLException and stores nothing. Row ids start at 1, stay
  below 2^63 and are never reused; failed inserts may lose ids. Keys compare byte by byte.
- The recipient column holds 64 characters of utf8mb4; the model counts bytes. For a
  recipient that is not a key and has more bytes than characters, the model refuses a row
  that MySQL may admit.
- A statement that raises does so before it takes effect. Closing the statement may raise
  afterwards (src/offline_message_model.cc:55): by then table and result are as on success,
  and the handler releases the connection just the same.
- A mailbox holds fewer than 2^32 rows where `left_count` is said to be exact or not to
  decrease (`Handlers.LeftCountExact`, `Runs.RePullStable`).
- `allocate` returns a valid connection, and memory allocation succeeds.
- The protobuf library itself is not part of this model; its primitives follow the
  Protocol Buffers Encoding guide. A message is at most 2^31 - 1 bytes long, because its
  cached size is an int.
- The clock, whether and where a statement raises, and lost ids are parameters (`Env`).

## Model

| member | source | states |
|---|---|---|
| Wire.VarintRoundTrip | src/generate/message.pb.cc:1730-1732 | reading a 64-bit varint after writing it gives the value and consumes exactly its bytes, whatever follows; a 32-bit read keeps the low 32 bits |
| Wire.RecordsRoundTrip | src/generate/message.pb.cc:1720-1813 | any sequence of writable records, known or unknown, is recovered from its bytes |
| Wire.RecordsConcat | src/generate/message.pb.cc:1720-1813 | after bytes that are well formed, the records of a concatenation are the concatenated records, and it is malformed exactly if the second part is |
| Spelling.TwosComplement | src/generate/message.pb.cc:1729-1732 | a signed and an unsigned 64-bit number with the same bits differ by a multiple of 2^64 |
| Spelling.VarintBytes | src/generate/message.pb.cc:1879-1881 | byte i of a varint holds the i-th group of seven bits, with the high bit set on all but the last |
| Spelling.ReadGroupsIff | src/generate/message.pb.cc:1721-1732 | on any bytes, a varint is read exactly when they begin with at most ten bytes of which only the last is below 128, and its value is the sum of the groups |
| Spelling.RecordBytes | src/generate/message.pb.cc:1869-1918 | a record is written as the varint of eight times its field number plus 0, 1, 2 or 5, and its body |
| Spelling.ReadRecordIff | src/generate/message.pb.cc:1720-1813 | on any bytes, a record is read exactly when they begin with a spelling of its tag and body; field number zero, other wire types and short bodies are malformed |
| Spelling.RecordsIff | src/generate/message.pb.cc:1720-1813 | any bytes parse into records exactly when they are spellings of them one after the other |
| Proto.MessageSizeExact | src/generate/message.pb.cc:1920-1974 | the size function, which sums in another order than the printer writes, is the number of bytes written |
| Proto.PullResSizeExact | src/generate/message.pb.cc:2415-2445 | the same for a response with nested messages and their length prefixes |
| Proto.MessageRoundTrip | src/generate/message.pb.cc:1869-1918 | parsing a printed OfflineMessage gives it back, for all bytes and all 64-bit integers |
| Proto.PullResRoundTrip | src/generate/message.pb.cc:2304-2413 | parsing a printed response, with any number of nested messages, gives it back |
| Proto.MessageConcatIsMerge | src/generate/message.pb.cc:1991-2019 | any bytes that parse to a, followed by printed b, parse to MergeFrom(a, b) |
| Proto.PullResConcatIsMerge | src/generate/message.pb.cc:2462-2473 | the same for responses: lists append, the last non-zero count wins |
| Proto.LastOneWins | src/generate/message.pb.cc:1724-1813 | each field of a decoded message is the last value its field number carries with the right wire type, or the default |
| Proto.FieldOrderIndependent | src/generate/message.pb.cc:1724-1813 | any well-formed bytes whose known records are those of m, in any order, repeated or with unknown fields between, decode to m |
| MessageBytes.EncodeMessageBytes | src/generate/message.pb.cc:1869-1918 | the printed message is the six fields that are not default, in order, under tags 8, 16, 26, 34, 42 and 48 |
| MessageBytes.MessageDecodes | src/generate/message.pb.cc:1715-1821 | any bytes that spell records parse, and each of the six fields is the last value of its number or the default |
| MessageBytes.EncodePullResBytes | src/generate/message.pb.cc:2387-2413 | a response is its messages, each under tag 10 with its length, and then the count under tag 16 |
| MessageBytes.PullResDecodes | src/generate/message.pb.cc:2304-2358 | a response parses exactly when its bytes spell records and every payload of field 1 parses; these append in order, and the count is the low half of the last field 2 |
| ProtoRequests.ReqSizeExact | src/generate/message.pb.cc:1070-1103 | the size of a send request is exact |
| ProtoRequests.ReqRoundTrip | src/generate/message.pb.cc:938-1068 | parsing a printed send request gives it back |
| ProtoRequests.ReqConcatIsMerge | src/generate/message.pb.cc:1120-1138 | bytes that parse to a, followed by printed b, parse to MergeFrom(a, b) |
| ProtoRequests.ReplyIsRes | src/assisant.cc:296-302 | the reply built as a request is byte for byte an OfflineMessageRes and decodes to the id for every int64; a negative id takes eleven bytes |
| ProtoRequests.DelReqRoundTrip | src/generate/message.pb.cc:2569-2670 | a delete request decodes to its id and has the announced size |
| ProtoRequests.ReadNoticeRoundTrip | src/generate/message.pb.cc:1460-1561 | a read notice decodes to its id and has the announced size |
| MessageBytes.EncodeReqBytes | src/generate/message.pb.cc:1036-1068 | a send request is its fields under tags 8, 18 and 26 |
| MessageBytes.EncodeNumberBytes | src/generate/message.pb.cc:2631-2649 | a delete request is its id under tag 16, a reply and a read notice theirs under tag 8, and nothing for zero |
| MessageBytes.RequestsDecode | src/generate/message.pb.cc:2569-2611 | on any bytes, a delete request takes the last field 2, a send request the last fields 1, 2 and 3, and both parse exactly when the bytes spell records |
| MessageBytes.RepliesDecode | src/generate/message.pb.cc:1460-1502 | likewise a reply and a read notice take the last field 1 |
| CodedStream.CodedInputStream.ReadVarintFallback | src/generate/message.pb.cc:1721-1732 | the loop over seven-bit groups reads exactly what the varint function says, and fails when it does |
| Generated.OfflineMessage.MergePartialFromCodedStream | src/generate/message.pb.cc:1715-1821 | the parse loop ends; together with the end-of-message flag it succeeds exactly when the bytes parse, and leaves the fields that parsing into the old ones gives |
| Generated.OfflineMessage.InternalSerializeToArray | src/generate/message.pb.cc:1869-1918 | writes exactly the encoding, of the announced length, and nothing before or behind it |
| Generated.OfflineMessage.MergeFrom | src/generate/message.pb.cc:1991-2019 | overwrites exactly the fields that are not default in the other message |
| Generated.OfflineMessage.CopyFrom | src/generate/message.pb.cc:2028-2033 | takes over every field, default or not, also from itself |
| Generated.OfflineMessage.ByteSizeLong | src/generate/message.pb.cc:1920-1974 | the accumulated size is the length of the encoding |
| Generated.OfflineMessageReq.ParseFromArray | src/generate/message.pb.cc:938-1004 | succeeds exactly when the bytes parse, with the parsed fields |
| Generated.OfflineMessageDelReq.ParseFromArray | src/generate/message.pb.cc:2569-2611 | succeeds exactly when the bytes parse, with the parsed id |
| Generated.OfflineMessagePullRes.ReadMessage | src/generate/message.pb.cc:2315-2320 | a nested message is parsed within its own length, must use it up, and the outer limit is restored |
| Generated.OfflineMessagePullRes.ParseFromArray | src/generate/message.pb.cc:2304-2358 | succeeds exactly when the bytes and all nested messages parse, with the parsed list and count |
| Generated.OfflineMessagePullRes.SerializeToArray | src/generate/message.pb.cc:2387-2413 | fills a buffer of the announced size exactly with the encoding |
| Table.InsertValid | doc/db_tok.sql:3-10 | an insert keeps rows in id order, ids below the next one, local ids unique and columns in range |
| Table.DeleteValid | src/offline_message_model.cc:72-75 | so does a delete |
| Table.InsertExact | doc/db_tok.sql:3-10 | an insert appends its row under the next id exactly when the recipient has at most 64 bytes, the content at most 2048, the numbers and the id are below 2^63 and no row has the local id; otherwise no row changes |
| Table.DeleteExact | src/offline_message_model.cc:72-75 | a delete takes exactly the rows of its key up to the id, if that is below 2^63 |
| Table.DeleteTakesPrefix | src/offline_message_model.cc:72-75 | a cumulative delete removes exactly the leading rows of the mailbox up to the id |
| Table.DeleteSparesOthers | src/offline_message_model.cc:72-75 | and leaves every other mailbox as it is |
| Table.LatestIdIsMax | src/offline_message_model.cc:88-113 | the latest id is the greatest id for the key, and zero exactly when there is no row |
| Batch.RowSizeBounds | src/offline_message.cc:52-61 | a row costs at least 134 and at most 2216 bytes; content up to 858 bytes always fits a response, 887 bytes or more never |
| Batch.ThresholdDependsOnNumbers | src/offline_message.cc:52-61 | both thresholds are tight |
| Batch.RowMessageInjective | src/assisant.cc:340-346 | different rows become different messages, so no field is lost |
| Batch.BatchIsLongestPrefix | src/assisant.cc:336-352 | a batch is the longest prefix of the whole mailbox below 1024 bytes and has at most seven rows, so LIMIT 10 never shows |
| Batch.BatchByBytes | src/assisant.cc:336-352 | a batch is the prefix whose messages encode to fewer than 1024 bytes together, where one more would not |
| Batch.BatchOfPrefix | src/offline_message_model.cc:152-174 | cutting the listing short, by limit or exception, cuts the batch short at the same row |
| Batch.ResponseSize | src/assisant.cc:353-357 | every response has the announced size, at most 1050 bytes |
| Handlers.SentIsPrefix | src/assisant.cc:325-352 | what a pull sends is a prefix of the mailbox even if the listing raises half way, and the whole batch if it does not |
| Handlers.PullResponseDecodes | src/assisant.cc:353-359 | the bytes of any pull response decode to it |
| Handlers.LeftCountExact | src/assisant.cc:328-353 | left_count is the number of rows left after the client deletes up to the last id it was sent, if and only if counting did not raise or the mailbox is empty |
| Handlers.LeftCountWraps | src/assisant.cc:328-353 | a mailbox of one row whose counting query raises is answered with 2^32 - 1 rows left |
| Handlers.LiveAfterRecv | src/assisant.cc:285-294 | after a request without exception, a row with its local id is live if and only if the columns admit the request or one was live before |
| Handlers.RetransmissionIsSafe | src/assisant.cc:285-306 | repeating a send while a row with its id is live changes no rows and is answered with the same id |
| Handlers.RepliedIsStoredIff | src/assisant.cc:294-302 | a replied request is stored if and only if it was before, or the insert did not raise and the table accepts it |
| Handlers.HandleValid | src/assisant.cc:236-262 | every handler keeps the table valid, in particular at most one live row per local id |
| RequestEffects.SendHandled | src/assisant.cc:285-306 | a send request that parses is answered with its local id and stores its message with the sender's key and the clock's time exactly if the statement does not raise and the table admits it; one that does not parse has no effect |
| RequestEffects.PullHandled | src/assisant.cc:325-363 | a pull request changes nothing and is answered with exactly one pull response to its sender, which decodes to the messages of the rows that fit, field by field, and the rest of the count |
| RequestEffects.DelHandled | src/assisant.cc:365-376 | a delete request takes exactly the sender's rows up to its id if it parses, does not raise and the id is below 2^63; it is not answered |
| RequestEffects.OtherHandled | src/assisant.cc:236-262 | any other packet has no effect |
| RequestEffects.ConnectHandled | src/assisant.cc:308-323 | a friend who connects is sent the greatest id of a mailbox that is not empty, in these bytes |
| Pool.DBConn.Allocate | src/db_conn.cc:52-68 | hands out a connection nobody holds: the last free one, or a new one exactly if there is none or that one is closed |
| Pool.DBConn.Release | src/db_conn.cc:70-78 | puts the connection back unless more than the maximum are free, and gives up what was held |
| Model.OfflineMessage.BytesSize | src/offline_message.cc:52-61 | the measured size is the length of the row's encoding |
| Model.OfflineMessage.Clear | src/offline_message.cc:43-50 | every field is reset |
| Model.OfflineMessageModel.Add | src/offline_message_model.cc:37-65 | stores the row the insert describes or nothing if it raises, and gives its connection back either way |
| Model.OfflineMessageModel.Del | src/offline_message_model.cc:67-86 | deletes up to the signed id for the key or nothing if it raises, and gives its connection back either way |
| Model.OfflineMessageModel.GetList | src/offline_message_model.cc:141-176 | delivers the mailbox in id order up to the limit, its end or the exception, and gives its connection back |
| Model.OfflineMessageModel.GetLatestId | src/offline_message_model.cc:88-113 | the latest id, zero if it raises |
| Model.OfflineMessageModel.GetCount | src/offline_message_model.cc:115-139 | the count as uint32, zero if it raises |
| Assisant.Assisant.FillResponse | src/assisant.cc:330-352 | the loop with its uint32 sum, in which a skipped row still counts, adds exactly the batch, each field in its place |
| Assisant.Assisant.MessageOfflineRecv | src/assisant.cc:285-306 | changes the table and replies as the specification says, holding no connection afterwards |
| Assisant.Assisant.MessageOfflinePull | src/assisant.cc:325-363 | sends exactly the specified response and leaves the table alone |
| Assisant.Assisant.MessageOfflineDel | src/assisant.cc:365-376 | deletes for the sender's own key only, and nothing if the request does not parse |
| Assisant.Assisant.MessageOfflineReadNotice | src/assisant.cc:308-323 | sends the notice the specification says |
| Assisant.Assisant.FriendMessageOfflineCb | src/assisant.cc:236-262 | dispatches every command as the specification of a server step does |
| ExactlyOnce.ExactlyOnceInOrder | src/assisant.cc:325-376 | in every reachable state an honest client's transcript followed by what is pending for it is the sequence of all messages ever stored for it |
| ExactlyOnce.AckLosesNothingIff | src/assisant.cc:365-376 | handling a delete request leaves everything pending if and only if it has no effect, nothing is pending, or the first pending row lies above its id |
| Progress.SendBecomesPending | src/assisant.cc:285-306 | in every reachable state, handling an admissible request makes its message pending behind all others for an honest recipient, and answers it |
| Progress.PullDelivers | src/assisant.cc:325-363 | in every reachable state, once an honest client receives the response of a pull whose listing did not raise, its pending rows are the old ones without the batch, and its transcript gained the difference |
| Progress.ConnectAnnounces | src/assisant.cc:308-323 | in every reachable state, connecting sends the notice exactly if there is a message and the query does not raise |
| CatchUp.CanCatchUpIff | src/assisant.cc:325-376 | from every reachable state some continuation delivers everything pending for an honest client if and only if every pending row fits a response |
| Runs.OrderAndProvenance | src/assisant.cc:285-306 | an honest client sees strictly increasing ids, in the order in which the server handled and stored the messages; each was asked for, to this client with this content, by the friend whose key it names, before it was accepted, and carries the id and the time under which it was stored |
| Runs.ShutOut | src/assisant.cc:294-302 | for any message the columns admit there is a run in which it is answered and not stored, because another friend's row has its local id |
| Runs.NoticeIff | src/assisant.cc:308-323 | on connect a notice is sent exactly when the mailbox is not empty, with the greatest id |
| Runs.NoticesNeverDecrease | src/assisant.cc:308-323 | over a run the ids in the notices to one key never decrease, for any client |
| Runs.HeadIsPulledIff | src/assisant.cc:336-352 | the head of a mailbox is in the next pull if and only if it fits on its own |
| Runs.OversizeBlocksRun | src/assisant.cc:336-352 | over any stretch of a run without a delete that reaches it, an oversize row stays, and the bytes of every response to its recipient decode to messages before it |
| Runs.RePullStable | src/assisant.cc:325-353 | without a delete between two pulls the first batch is a prefix of the second, and left_count plus batch length does not decrease |
| Acks.AcksFormSemilattice | src/offline_message_model.cc:67-86 | deletes for one key among inserts amount to the greatest one at the end if and only if no insert takes over the local id of a row deleted before it, and no row for the key is stored below the greatest delete and reached by no later one; ids must suffice, or all deletes be below the ids given out meanwhile |
| Acks.OrderIrrelevant | src/offline_message_model.cc:67-86 | so two interleavings of the same inserts with the same deletes, in any order and number, leave the same table |
| Acks.ReuseOccurs | src/offline_message_model.cc:67-86 | a local id sent again after its row was acknowledged is the first exception |
| Acks.OutlivingOccurs | src/offline_message_model.cc:67-86 | an acknowledgement ahead of the ids given out is the second |
| Acks.SupplyMatters | src/offline_message_model.cc:67-86 | when ids run out, a reuse can leave no trace |
| Acks.OthersUntouched | src/offline_message_model.cc:67-86 | no row of another key is ever taken, and unless a local id is reused every other mailbox is as the inserts alone make it |
| Acks.DeleteReachesIff | src/offline_message_model.cc:73 | a delete removes all rows of its key up to its id if and only if the id is below 2^63 or there are none |
| Acks.UnsignedMaximumIff | src/offline_message_model.cc:73 | where deletes amount to the greatest signed one, they amount to the greatest unsigned one if and only if that is below 2^63 or nothing is to be removed |
| Acks.UnsignedMaximumFails | src/offline_message_model.cc:73 | deletes up to 5 and up to 2^63 differ from the unsigned maximum of both |
| Drain.DrainMailbox | src/assisant.cc:325-376 | the pull, decode, delete loop ends, delivers exactly the rows before the first that does not fit, and leaves the rest and all other mailboxes |
| Drain.AllFitIff | src/assisant.cc:336-352 | nothing is left exactly when every row fits a response |
| Drain.SmallContentsFit | src/assisant.cc:336-352 | nothing is left when contents are at most 858 bytes |
| PoolInterleaving.SafeUnderEverySchedule | src/db_conn.cc:52-78 | under every schedule of N threads: mutual exclusion, no pop of an empty list, every connection in exactly one place, none lost, at most N free or owned |
| PoolInterleaving.FreeListBound | src/db_conn.cc:70-78 | with at most p threads releasing at once, the free list and the threads past the size check never exceed the maximum plus p, and the free list never exceeds N |
| PoolInterleaving.FreeListBoundIsReached | src/db_conn.cc:70-78 | for every p from one on, some such schedule brings the free list to the maximum plus p, or to N if that is less |
| PoolInterleaving.MaximumBoundsIff | src/db_conn.cc:70-78 | every schedule with at most p threads releasing at once keeps to the maximum if and only if N does not exceed it or p is zero |
| PoolInterleaving.MaximumEnforcedIff | src/db_conn.cc:70-78 | every schedule keeps to the maximum if and only if N does not exceed it |
| PoolInterleaving.AllocateAlone | src/db_conn.cc:52-68 | an allocate nobody interrupts takes the last free connection, or a new one, as the class does |
| PoolInterleaving.ReleaseAlone | src/db_conn.cc:70-78 | a release nobody interrupts pushes or destroys as the class does |
| PoolInterleaving.MaximumNotEnforced | src/db_conn.cc:70-78 | for every maximum some schedule leaves all N connections in the free list |

## Left out

- Tox networking, friend requests, avatars, save data, configuration and logging: input and output around the protocol.
- QueryFriendReq and QueryFriendRes: the same codec lemmas with no state; the command is treated as one that changes nothing.
- OfflineMessageRes and OfflineMessageReadNotice have no class of their own for parsing: only their values are modelled, as the bot never parses them.
- OfflineMessagePullRes holds its nested messages by value, not as objects; on a failed parse the list a half-read message leaves behind is not described.
- Group wire types 3 and 4 are treated as malformed, and unknown fields are dropped, not printed again.
- A nested message whose length prefix reaches beyond its input is malformed here, as the Encoding guide has it.
- Collation, trailing blanks in key columns, restarts of AUTO_INCREMENT and lost database connections.
- Arenas, descriptors, reflection, swapping and default instances of the generated classes.
- Null references, leaks and failed allocation in exception handlers.
- The C++ memory model: the unlocked read of the free list's size is taken as one atomic step.
