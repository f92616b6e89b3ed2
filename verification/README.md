# mysql2 verification

A Dafny model of the protocol engine in `src/mysql2.cpp`: a MySQL client, pool, server-side writers and binlog decoder. Byte strings are `seq<byte>`, text is bytes under utf8, and everything that throws in the original returns a failure here.

| file | models |
|---|---|
| `Bytes.dfy`, `Bitmaps.dfy`, `Digits.dfy`, `ColumnTypes.dfy` | integers, length-encoded values, the packet cursor, bit sets, number text |
| `Transport.dfy`, `Framing.dfy`, `Compression.dfy` | the three buffered layers under a packet: read-ahead, splitting at 0xffffff, compressed chunks |
| `OkInfo.dfy`, `ResultSet.dfy`, `Responses.dfy`, `ResultRoundTrip.dfy` | payloads of a text result set, and the readers of whole replies |
| `Session.dfy`, `Client.dfy` | runs of commands on one connection, and the connection object that carries them out |
| `EndToEnd.dfy` | whole exchanges over two sockets, from what one side writes to what the other side gets |
| `DistinctLists.dfy`, `Lru.dfy`, `StatementCache.dfy` | the prepared-statement cache |
| `Pool.dfy`, `Wildcard.dfy`, `Cluster.dfy` | the pool as interleaved steps, pattern matching, the cluster's retry loop |
| `TimeText.dfy`, `BinaryRow.dfy` | rows of the binary protocol |
| `Decimal.dfy`, `Temporal.dfy`, `RowValues.dfy`, `RowsEvent.dfy`, `TableColumns.dfy`, `BinlogParser.dfy` | binlog table maps and row events |
| `Gtid.dfy`, `GtidSet.dfy` | GTID sets as text, structure and bytes |

How it is built:

- Reading is specified by functions `Take…` from a byte string to a value and the bytes behind it. Every loop of the original is a method over a `PacketCursor`, a buffer or an array, proved to compute such a function. The lemmas then say what the functions are for: that they undo the writers.
- A socket is any schedule of piece sizes and failures; the server, the pool's `connect`, the scheduler of threads, the clock and the choice of a random node are parameters. Deflate and inflate are a pair of functions of which only "inflate undoes deflate" is assumed; the conversions between floating-point numbers, integers and text are functions on bit patterns of which nothing is assumed.
- A `Session` connection holds packets. `EndToEnd.NextPayload` proves that a connection over a socket gets exactly these packets one by one, and `EndToEnd.ServeAndRead` runs the whole way from the server's rows to the client's result.
- `Session.InStep` says when a connection is at a response boundary. `Client.Connection` is the object; each of its methods is proved equal to a command of `Session.Execute`.
- `Pool.Next` is one step of one thread. The methods of `Pool.PoolImpl` are proved to be those steps, and the invariants are proved over every sequence of steps.

Where the code does not do what it is for, the model keeps the code, and a lemma says exactly when it does:

- Raw scans and streams return at a first OK packet without looking at its "more results" flag, so later results stay unread. The documentation (`docs/sphinx/guides/lifecycle-and-safety.rst:49-52`, `docs/sphinx/getting-started/quickstart.rst:45-51`) says that single-result functions drain (`Session.StepExact`, `Responses.RawExact`).
- A result set without fields is written as an OK packet (`ResultRoundTrip.NoFieldsNoRoundTrip`).
- `normal_packet_count_for_payload` is one too large at positive multiples of 0xffffff (`Framing.NormalPacketCountExact`).
- A failed refill leaves 64 KiB of zeros in the read buffer (`Transport.BufferedTransport.ReadExactInto`, `Framing.PhantomPackets`).
- A reconnect keeps the statement cache (`StatementCache.Connection.Reconnect`).
- Closing a statement by its text while a query stream is active forgets the statement and then fails to close it, so the server keeps it open until the next reset (`StatementCache.Connection.CloseSql`, `StatementCache.CloseBesideStream`).
- A notification can go to a thread that is about to give up, so that another sleeps beside an idle connection: exactly when threads wait with a deadline, something is kept idle and more than one thread may wait (`Pool.LostWakeupExact`).
- A waiting thread looks for an idle connection only, never for room to make one. So a thread can sleep beside spare capacity exactly when threads wait at all and a release can throw a connection away (`Pool.SleepsBesideRoomExact`), and a pool without deadlines can even come to rest with threads asleep and nobody holding a connection (`Pool.DeadlockExact`).
- A cluster with its nodes online fails at most as often as the error thresholds of the matching nodes allow, on every clock, exactly when it does not retry or has no restore time. With both, a call can fail any number of times: when every failure takes the restore time, each check finds the nodes back (`Cluster.RetryBoundExact`, `Cluster.UnboundedCall`).
- A star inside a value is taken literally first (`Wildcard.WildcardExact`).
- Odd fractional precisions decode ten times too large (`Temporal.FractionExact`).
- A table map's two metadata bytes are read as one little-endian number, as the repository's own tests send them (`tests/test_protocol_hardening.cpp:99`). A MySQL server sends DECIMAL columns as precision and scale, so they can be read exactly when the two are equal, and one other value makes its whole event unreadable (`TableColumns.DecimalReadable`, `TableColumns.DecimalColumnExact`, `BinlogParser.DecimalBreaksEvent`). It sends CHAR columns as type and length, so their values survive exactly when the length is above 255 and no multiple of 256, or 0 (`TableColumns.CharColumnExact`), and ENUM and SET columns as STRING, so they come back as text (`TableColumns.EnumColumnIsText`).
- The rows loop does not end when no column is selected (`RowsEvent.DivergesExact`).
- A column of NULL type is written with a value but read without one, and a NEWDATE comes back with a time (`BinaryRow.BinaryRowExact`, `BinaryRow.NewDateGainsTime`).
- An OK packet whose text counts more than 2^64 - 1 changed rows cannot be parsed (`OkInfo.ChangedRowsExact`).
- A GTID interval that ends at 2^64 - 1 wraps (`GtidSet.GtidRoundTrip`).

## Model

| member | source | states |
|---|---|---|
| Bytes.LittleEndianInverse | src/mysql2.cpp:485-511 | a value that fits a width is read back from the bytes the `append_u*_le` functions push for it |
| Bytes.BigEndianInverse | src/mysql2.cpp:3161-3168 | most-significant-first bytes denote the value they were made from |
| Bytes.TakeLenencInverse | src/mysql2.cpp:378-396 | every length-encoded integer below 2^64 is read back, whatever follows it, through each of the four forms (with lines 527-542) |
| Bytes.TakeLenencBytesInverse | src/mysql2.cpp:398-426 | every length-prefixed byte string is read back and leaves what follows untouched (with lines 562-565) |
| Bytes.PacketCursor.ReadBuffer | src/mysql2.cpp:348-353 | takes exactly the next bytes and moves the offset behind them, or fails and moves nothing (with lines 474-478) |
| Bytes.PacketCursor.ReadLE | src/mysql2.cpp:275-331 | the loop over shifted bytes yields the integer that the next bytes denote (with lines 2847-2854, 3132-3142) |
| Bytes.PacketCursor.ReadBE | src/mysql2.cpp:3161-3168 | the loop yields the integer that the next bytes denote, most significant first |
| Bytes.PacketCursor.ReadLenenc | src/mysql2.cpp:378-396 | reads the integer or the NULL marker; 0xff and a short packet fail |
| Bytes.PacketCursor.ReadLenencBytes | src/mysql2.cpp:398-426 | reads the byte string or NULL and nothing behind it |
| Transport.BufferedTransport.Refill | src/mysql2.cpp:4929-4934 | success moves bytes from the socket to the buffer and keeps the stream; failure leaves 64 KiB of zeros in the buffer |
| Transport.BufferedTransport.Step | src/mysql2.cpp:4938-4959 | one turn of the read loop moves the next bytes of the stream, or takes bytes off the socket, or fails with the exact state left behind |
| Transport.BufferedTransport.ReadExactInto | src/mysql2.cpp:4936-4960 | for any piece sizes: success delivers exactly the next `length` bytes and removes exactly them; failure needs a short stream or a faulty socket and leaves the stated remains |
| Transport.BufferedTransport.WriteAll | src/mysql2.cpp:4974-5018 | everything is sent, or an initial part of it and a failure |
| Framing.FrameShape | src/mysql2.cpp:1639-1655 | len / 0xffffff + 1 frames, ids consecutive modulo 256, only the last one short, bodies adding up to the payload |
| Framing.UnframeInverse | src/mysql2.cpp:1639-1655 | reading undoes framing for every payload length and leaves the following bytes untouched (with lines 5027-5049) |
| Framing.FramesInjective | src/mysql2.cpp:1639-1655 | no two payloads share a wire form, and none is a prefix of another (with lines 5027-5049) |
| Framing.NormalPacketCountExact | src/mysql2.cpp:118-124 | the count, and the next sequence id computed from it, is right if and only if the length is not a positive multiple of 0xffffff; otherwise it is one too large (with lines 5414-5420) |
| Framing.AppendPacketBytes | src/mysql2.cpp:1639-1655 | the loop appends exactly the frames of the payload and returns the id behind them |
| Framing.SplitPacket | src/mysql2.cpp:5051-5083 | the client's loop writes the same frames as the server's |
| Framing.PlainChannel.ReadPacket | src/mysql2.cpp:5027-5049 | returns the first packet of the byte stream and its first id, or fails only where the stream has none or the socket fails |
| Framing.PlainChannel.WritePacket | src/mysql2.cpp:5051-5083 | sends exactly the frames of the payload, or a proper initial part of them and a failure |
| Framing.UnwireInverse | src/mysql2.cpp:5027-5083 | any run of packets written one after the other is read back in order |
| Framing.PhantomPackets | src/mysql2.cpp:4929-4934 | the zeros a failed refill leaves are read as up to 16384 empty packets before anything the peer sent (with lines 5027-5049) |
| Compression.PackInverse | src/mysql2.cpp:5129-5144 | one compressed packet carries exactly its chunk, deflated or not (with lines 5146-5167) |
| Compression.PackAllInverse | src/mysql2.cpp:5146-5167 | inflating undoes deflating however the plain bytes were cut into packets |
| Compression.CompressedRoundTrip | src/mysql2.cpp:5051-5167 | any packets written with compression on are read back with payloads and first ids in order, and the plain bytes behind them stay |
| Compression.CompressedChannel.AppendChunk | src/mysql2.cpp:5129-5144 | moves bytes from the wire to the plain buffer and leaves the unread plain stream as it was |
| Compression.CompressedChannel.Consume | src/mysql2.cpp:5120-5125 | advancing and erasing the consumed half of the buffer loses and repeats nothing |
| Compression.CompressedChannel.ReadFrame | src/mysql2.cpp:5104-5127 | takes exactly one frame off the unread plain stream |
| Compression.CompressedChannel.ReadPacket | src/mysql2.cpp:5085-5102 | takes exactly one packet off the unread plain stream |
| Compression.CompressedChannel.WriteChunks | src/mysql2.cpp:5146-5167 | sends exactly the compressed packets of the plain bytes, or a proper initial part of them and a failure |
| Compression.CompressedChannel.WritePacket | src/mysql2.cpp:5051-5083 | sends the compressed frames of the payload, or a proper initial part of them and a failure; a new command drops the plain bytes still unread |
| ResultSet.OkRoundTrip | src/mysql2.cpp:1657-1668 | an OK packet comes back with its numbers and text, a status of 0 as 2, and the changed rows that the text counts; it fails if and only if that count does not fit 64 bits (with lines 2234-2262) |
| OkInfo.ChangedRowsExact | src/mysql2.cpp:2248-2260 | the digits behind the first `changed: ` are the changed rows; a number of 2^64 or more is an exception |
| OkInfo.ScanChangedRows | src/mysql2.cpp:2248-2260 | the loop over the digits finds that number, 0 without one, or fails |
| ResultSet.EofRoundTrip | src/mysql2.cpp:1670-1676 | an EOF packet is recognised as one and its status and warnings come back (with lines 2264-2276) |
| ResultSet.ErrRoundTrip | src/mysql2.cpp:1678-1692 | code, SQL state and message come back; a state that is not five bytes comes back as HY000 (with lines 2221-2232) |
| ResultSet.ColumnRoundTrip | src/mysql2.cpp:1694-1715 | a column definition comes back with its defaults filled in (with lines 2278-2300) |
| ResultSet.RowRoundTrip | src/mysql2.cpp:1747-1763 | every padded row of NULLs and byte strings is read back (with lines 2415-2448) |
| ResultSet.RowIsNoMarker | src/mysql2.cpp:126-136 | a row of at least one column is never taken for an ERR or EOF packet, even when it starts with 0xfb or 0xfe (with lines 1747-1763) |
| ResultSet.BuildTextRow | src/mysql2.cpp:1747-1763 | the loop writes the payload of the padded row |
| ResultSet.ParseTextRow | src/mysql2.cpp:2434-2448 | the cursor loop reads one value for each field or fails as the payload does |
| ResultSet.BuildTextResultPackets | src/mysql2.cpp:1765-1782 | the bytes are the framed packets of the result set under one running id |
| ResultRoundTrip.TextResultRoundTrip | src/mysql2.cpp:1765-1782 | with at least one field, `read_query_result` and `read_query_result_raw` both give the normalised fields and the padded rows and consume exactly the reply (with lines 5279-5402) |
| ResultRoundTrip.ServerToClient | src/mysql2.cpp:1765-1782 | the bytes on the wire are cut into exactly the payloads of the result set, and reading these gives the normalised fields and padded rows (with lines 5027-5049, 5279-5331) |
| ResultRoundTrip.NoFieldsNoRoundTrip | src/mysql2.cpp:1765-1782 | with no fields the header is taken for an OK packet and the end markers stay unread (with lines 5279-5288) |
| ResultRoundTrip.TextResultWellFormed | src/mysql2.cpp:1765-1782 | what the server writes is a well-formed reply |
| Responses.ResultExact | src/mysql2.cpp:5279-5331 | reading one result of a reply consumes exactly its packets, fails exactly when it is an error, and else gives the fields and rows its packets stand for |
| Responses.ResultsExact | src/mysql2.cpp:5266-5277 | `query_all` consumes exactly the reply, gives in order the results that it stands for, and fails exactly when it ends in an error |
| Responses.SingleExact | src/mysql2.cpp:3754-3760 | `query` consumes the whole reply and succeeds, with the result it stands for, if and only if it is one result without an error (with lines 5266-5277) |
| Responses.RawExact | src/mysql2.cpp:5333-5402 | a raw scan leaves nothing unread or closes the transport if and only if the reply does not begin with an OK packet that announces more results; otherwise all later results stay unread |
| Responses.RawRows | src/mysql2.cpp:5371-5401 | a scan of rows shows the callback every row in turn up to the one it throws on, and closes the transport then |
| Responses.StreamExact | src/mysql2.cpp:4554-4596 | reading rows from a stream gives the next rows and keeps the rest of the row set, or finishes the stream with exactly its reply consumed |
| Responses.GatherExact | src/mysql2.cpp:4554-4596 | however many rows are asked for at a time, only the sum of the limits decides which rows have come and what is left |
| Responses.StreamGivesResult | src/mysql2.cpp:4554-4596 | a stream read to its end gives the fields and rows of the result that `read_query_result` gives (with lines 5279-5331) |
| Responses.DrainExact | src/mysql2.cpp:4598-4623 | draining a stream consumes exactly the rest of its reply and throws exactly when a later result is an error |
| Session.StepExact | src/mysql2.cpp:3754-3801 | one command on a connection in step leaves it in step (idle with nothing unread, or inside the row set of its own stream, or closed) if and only if it is not a raw scan or stream whose reply begins with an OK packet announcing more (with lines 4445-4455, 4546-4639, 5333-5402) |
| Session.RunInStep | src/mysql2.cpp:3746-3801 | the same over every run of commands (with lines 4445-4455, 4546-4639, 5266-5402) |
| Session.RunOutOfStep | src/mysql2.cpp:4481-4490 | the first command of a run that meets such a reply leaves the connection out of step (with lines 5333-5340) |
| Session.DerailedInbox | src/mysql2.cpp:5338-5340 | a raw scan or stream that meets such a reply leaves exactly the later results unread |
| Session.DerailingExample | src/mysql2.cpp:5338-5340 | a concrete reply of two OK results that leaves one unread |
| Session.StreamReserves | src/mysql2.cpp:4445-4448 | while a stream is active every command of any run is refused and nothing changes |
| Session.AbandonOnce | src/mysql2.cpp:4364-4372 | after a stream is abandoned no later abandon of it, after any run of commands, changes the connection (with lines 4546-4552, 4625-4639) |
| Client.Connection.ReadColumns | src/mysql2.cpp:5300-5306 | the column loop reads what the specification says, packet by packet |
| Client.Connection.ReadQueryResult | src/mysql2.cpp:5279-5331 | the imperative reader gives the specified result and leaves the specified packets |
| Client.Connection.ReadQueryResults | src/mysql2.cpp:5266-5277 | the loop over results matches the specification of a whole reply |
| Client.Connection.DrainRemaining | src/mysql2.cpp:4598-4606 | consumes what reading all results would |
| Client.Connection.ReadQueryResultRaw | src/mysql2.cpp:5333-5402 | shows the callback the specified rows and leaves, or closes, the specified transport |
| Client.Connection.QueryAll | src/mysql2.cpp:3772-3776 | its effect is that of the QueryAll command of the session |
| Client.Connection.Query | src/mysql2.cpp:3754-3760 | its effect is that of the Query command of the session |
| Client.Connection.QueryEachRaw | src/mysql2.cpp:3784-3793 | its effect is that of the RawQuery command of the session |
| Client.Connection.QueryStream | src/mysql2.cpp:3795-3801 | its effect is that of the OpenStream command; a stream object exists exactly when one is active (with lines 4481-4544) |
| Client.Connection.FinishQueryStream | src/mysql2.cpp:4546-4552 | the stream is done, and no longer active if it was |
| Client.Connection.ReadStreamRows | src/mysql2.cpp:4554-4596 | reading an active stream is the ReadRows command of the session; any other stream gives no rows and leaves the connection alone |
| Client.Connection.DrainActive | src/mysql2.cpp:4608-4623 | consumes what the specification of draining says |
| Client.Connection.Cleanup | src/mysql2.cpp:4364-4372 | abandons an active stream once; a finished or foreign one changes nothing (with lines 4625-4639) |
| EndToEnd.Transfer | src/mysql2.cpp:5027-5083 | any packets written through one channel come back through another in order, however the two sockets cut the bytes; what follows stays unread (with lines 4936-5018) |
| EndToEnd.TransferCompressed | src/mysql2.cpp:5085-5167 | the same through two compressed channels and any lossless codec (with lines 4936-5018) |
| EndToEnd.NextPayload | src/mysql2.cpp:5027-5049 | over a socket without faults `read_packet` takes the payloads on the wire one by one, which is the inbox of the session model |
| EndToEnd.ServeAndRead | src/mysql2.cpp:1765-1782 | from the rows a server is given to the client's result: built, written, cut in any way, read and parsed, the fields come back normalised and every row padded, in whole or through the raw callback, and the reading ends without an error (with lines 5279-5402, 4936-5018) |
| Lru.KeysAreRecent | src/mysql2.cpp:3840-3872 | when nothing is closed the list holds the most recently used keys, newest last, cut to the bound |
| Lru.CachedExactly | src/mysql2.cpp:3840-3872 | when nothing is closed a statement is cached if and only if it was asked for and fewer than `max` different ones were since |
| Lru.CachedIfSurvives | src/mysql2.cpp:3840-3872 | over any history of requests, closes and resets: a statement is cached if and only if it was asked for, not closed since, and at no time since were `max` other statements live (with lines 4123-4152, 4179-4191) |
| StatementCache.Connection.CachedFromHistory | src/mysql2.cpp:3840-3872 | the same of the connection's cache, after any sequence of its methods (with lines 4123-4152, 4179-4191) |
| StatementCache.Connection.PrepareCached | src/mysql2.cpp:3840-3872 | a hit returns the cached statement and only reorders, even beside a stream; a miss prepares, evicts at most the least recent one with one STMT_CLOSE, and keeps the server's open ids equal to the cached and the explicitly prepared ones; a stream or a refusal makes it fail and change nothing (with lines 4445-4448) |
| StatementCache.Connection.MakeRoom | src/mysql2.cpp:3850-3859 | the eviction loop closes exactly the statements in front of the list until there is room |
| StatementCache.Connection.CloseStatement | src/mysql2.cpp:4123-4141 | refused and without effect while a stream is active, whatever the id; else one STMT_CLOSE unless the id is 0, and no cached statement keeps the id (with lines 4445-4448) |
| StatementCache.Connection.CloseSql | src/mysql2.cpp:4143-4152 | removes the statement of that text and closes it, or changes nothing if there is none; it fails, and the server then keeps an id open that nothing names, if and only if a stream is active and the statement was cached (with lines 4445-4448) |
| StatementCache.CloseBesideStream | src/mysql2.cpp:4143-4152 | three public calls (execute, stream, close by text) after which the server keeps open a statement that the client has forgotten (with lines 4445-4448) |
| StatementCache.Connection.Reset | src/mysql2.cpp:4179-4191 | refused beside a stream or by the server it changes nothing; else neither the server nor the cache holds a statement |
| StatementCache.Connection.Reconnect | src/mysql2.cpp:3697-3744 | a reconnect keeps the cache, so the cached statements are the server's if and only if there are none (with lines 4452-4454) |
| Pool.AccountingOverRuns | src/mysql2.cpp:7735-7849 | over every interleaving: while open, held, releasing and idle connections are disjoint and together the known ones, within the limits, and the waiting counter counts the waiting threads (with lines 7884-7887) |
| Pool.NoLostWakeupOverRuns | src/mysql2.cpp:7748-7849 | without deadlines, in every reachable state a thread sleeps only if every idle connection has a woken thread on its way to it |
| Pool.LostWakeupExact | src/mysql2.cpp:7783-7791 | a reachable state has a thread asleep beside an idle connection that no woken thread is on its way to, if and only if threads wait with a deadline, `max_idle` is at least 1 and `queue_limit` is not 1 |
| Pool.SleepsBesideRoomExact | src/mysql2.cpp:7785-7791 | a reachable state of an open pool has a thread asleep, nothing under way that wakes it, and room for another connection, if and only if threads wait and `max_idle` is below the limit or connections are reset on release (with lines 7805-7825) |
| Pool.ClosedForGood | src/mysql2.cpp:7835-7849 | a closed pool stays closed with both lists empty (with lines 7816-7820) |
| Pool.DeadlockExact | src/mysql2.cpp:7761-7791 | a waiting pool without deadlines can reach a state where threads sleep and nobody holds a connection if and only if `max_idle` is 0 or connections are reset on release (with lines 7805-7825) |
| Pool.PoolImpl.Create | src/mysql2.cpp:7735-7742 | a limit of zero is refused; else the pool is empty and `max_idle` is cut down to the limit |
| Pool.PoolImpl.AcquireOrWait | src/mysql2.cpp:7748-7781 | is the Acquire step of the state machine; what it hands out nobody else holds |
| Pool.PoolImpl.AfterWait | src/mysql2.cpp:7785-7798 | is the Resume step of the state machine |
| Pool.PoolImpl.StartRelease | src/mysql2.cpp:7801-7806 | is the BeginRelease step of the state machine: the handle gives the connection up outside the mutex |
| Pool.PoolImpl.FinishRelease | src/mysql2.cpp:7801-7833 | is the EndRelease step of the state machine |
| Pool.PoolImpl.End | src/mysql2.cpp:7835-7849 | is the EndPool step of the state machine |
| Pool.PoolImpl.EraseConnection | src/mysql2.cpp:7884-7887 | afterwards the connection is in neither list, every other one keeps its place in the order, and there are still no duplicates |
| Wildcard.AcceptsSound | src/mysql2.cpp:8054-8077 | the matcher never accepts what no cutting of the value matches |
| Wildcard.WildcardExact | src/mysql2.cpp:8054-8077 | the answer is right for every pattern if and only if the value has no star before its last character |
| Wildcard.EarlyStarFails | src/mysql2.cpp:8060 | for a value with an early star, the pattern that is turned down although it matches |
| Wildcard.WildcardMatch | src/mysql2.cpp:8054-8077 | the loop ends and gives the answer that the lemmas are about |
| Cluster.FailureCosts | src/mysql2.cpp:8243-8276 | a failure of a matching node that is online uses up exactly one of the failure budget, whether the node stays, goes offline or is removed, and leaves other nodes alone |
| Cluster.PoolCluster.MatchingNodeIds | src/mysql2.cpp:8209-8223 | exactly the matching ids, in node order, without those offline at the time unless they are asked for |
| Cluster.PoolCluster.SelectNode | src/mysql2.cpp:8225-8241 | a matching id that is online whatever the selector, and none exactly when none is |
| Cluster.PoolCluster.IncreaseErrorCount | src/mysql2.cpp:8243-8276 | one more error, and at the threshold the node goes offline or is removed; the others are untouched |
| Cluster.PoolCluster.DecreaseErrorCount | src/mysql2.cpp:8278-8301 | one error fewer, an expired offline time is cleared, and the other nodes are untouched |
| Cluster.PoolCluster.GetConnection | src/mysql2.cpp:8120-8153 | says that nothing matches, or nothing online, exactly then; never touches a node that does not match; as long as no node comes back during the call, the failures are what the budget of the matching nodes loses, and giving up after retries has used all of it; without a restore time that means every matching node is gone |
| Cluster.CallAnswers | src/mysql2.cpp:8120-8153 | all of that for every call, whatever the selector picks, however the pools answer and the clock runs |
| Cluster.RetryBoundExact | src/mysql2.cpp:8120-8153 | with the nodes online and one of them matching, the failures of every call stay within the budget on every clock if and only if the cluster does not retry or has no restore time (with lines 8243-8276) |
| Cluster.UnboundedCall | src/mysql2.cpp:8143-8150 | with retries and a restore time, for every `n` a call on a clock that advances by the restore time fails exactly `n` times (with lines 8258-8261) |
| Decimal.TopBitFree | src/mysql2.cpp:3183-3190 | every digit group leaves the top bit of its first byte free for the sign |
| Decimal.DecimalExact | src/mysql2.cpp:3170-3230 | for every precision, scale, digit string and sign, decoding the packed form gives the sign, the integer and every fraction digit |
| Decimal.ShownDenotes | src/mysql2.cpp:3196-3215 | dropping leading zeros keeps the number |
| Decimal.Unsign | src/mysql2.cpp:3184-3190 | the sign loop turns the bytes back in place |
| Decimal.ReadNewDecimal | src/mysql2.cpp:3170-3230 | the imperative reader gives the decoded text and refuses bad metadata |
| Temporal.FractionExact | src/mysql2.cpp:3251-3271 | the fraction comes back unchanged for even precisions and ten times too large for odd ones |
| Temporal.ReadTemporalFraction | src/mysql2.cpp:3258-3271 | the scaling loop multiplies by ten for each missing decimal and refuses precisions above 6 |
| Temporal.Time2Exact | src/mysql2.cpp:3297-3349 | for every precision the stored form of every time decodes to its sign and fields; only a negative zero loses its sign |
| Temporal.ReadTime2 | src/mysql2.cpp:3297-3349 | the reader gives the decoded time and consumes exactly its bytes |
| Temporal.DateTime2Exact | src/mysql2.cpp:3280-3295 | within real bounds the packed value stays below the bias, every field comes back, and the microseconds do if and only if the precision is even or they are zero |
| Temporal.ReadDateTime2 | src/mysql2.cpp:3280-3295 | the reader gives the decoded date and time and consumes exactly its bytes |
| Temporal.Timestamp2Exact | src/mysql2.cpp:3273-3278 | the seconds always come back, the microseconds if and only if the precision is even or they are zero |
| TimeText.FractionRoundTrip | src/mysql2.cpp:1900-1912 | fractions written without trailing zeros are read back exactly (with lines 2473-2480) |
| TimeText.DateTimeRoundTrip | src/mysql2.cpp:1914-1935 | canonical dates and times are read back from their text with every field (with lines 2482-2496) |
| TimeText.TimeRoundTrip | src/mysql2.cpp:1964-1987 | times are read back from their text however many digits their hours have (with lines 2540-2547) |
| TimeText.FractionalSuffix | src/mysql2.cpp:2473-2480 | the trimming loop gives the suffix without trailing zeros |
| TimeText.ParseFractionMicros | src/mysql2.cpp:1900-1912 | the digit loop gives the value of the first six digits scaled to microseconds, or fails on another character |
| ColumnTypes.WrapExact | src/mysql2.cpp:1997-2013 | an integer cut to a column's width and sign is unchanged if and only if it is in range (with lines 2551-2570) |
| Bitmaps.SetBitExact | src/mysql2.cpp:2046-2049 | setting a bit sets that bit and no other (with lines 3075-3077) |
| BinaryRow.NullBitsExact | src/mysql2.cpp:2042-2051 | a bit of the null bitmap is set if and only if the column two below it is NULL |
| BinaryRow.ValueExact | src/mysql2.cpp:1937-2036 | any value a column accepts is read back, as the integer cut to the column, the number rounded to its precision, or the date or bytes it denotes, from exactly the bytes written (with lines 2498-2608) |
| BinaryRow.FloatExact | src/mysql2.cpp:2014-2019 | a DOUBLE column gives the number back bit by bit and a FLOAT column gives it narrowed and widened again (with lines 2570-2573) |
| BinaryRow.FloatKeepsSingles | src/mysql2.cpp:2014-2016 | where narrowing undoes widening, a FLOAT column keeps exactly the numbers that a `float` can hold (with lines 2570-2571) |
| BinaryRow.BinaryRowExact | src/mysql2.cpp:2039-2059 | a row that can be written is read back column by column with nothing left over if and only if columns of NULL type hold only NULL (with lines 2610-2633) |
| BinaryRow.BinaryRowRoundTrip | src/mysql2.cpp:2039-2059 | rows of integers in range, numbers of the column's precision, byte strings, text and canonical dates come back unchanged (with lines 2610-2633) |
| BinaryRow.TimeKept | src/mysql2.cpp:1964-1995 | a TIME comes back denoting the same sign, hours, minutes, seconds and microseconds through the split into days (with lines 2524-2549) |
| BinaryRow.NewDateGainsTime | src/mysql2.cpp:2020-2023 | a NEWDATE is written as a date and comes back with a time of midnight (with lines 2498-2522) |
| BinaryRow.BuildBinaryRow | src/mysql2.cpp:2039-2059 | the loops build the specified payload, filling the bitmap in place |
| BinaryRow.ParseBinaryDateTime | src/mysql2.cpp:2498-2522 | the reader gives the specified text for each length form and refuses other lengths |
| BinaryRow.ParseBinaryTime | src/mysql2.cpp:2524-2549 | the reader gives the specified text for each length form and refuses other lengths |
| BinaryRow.ParseBinaryValue | src/mysql2.cpp:2551-2608 | reads one value in the form of its column |
| BinaryRow.ParseBinaryRow | src/mysql2.cpp:2610-2633 | the loop gives one value for each field or fails as the payload does |
| RowValues.TakeValueSuffix | src/mysql2.cpp:3351-3446 | no value reader goes back or past the end |
| RowValues.StoresInteger | src/mysql2.cpp:3354-3363 | two's complement integers of each width are stored forms |
| RowValues.StoresDate | src/mysql2.cpp:3232-3237 | a day packed into 24 bits is a stored form of its text (with lines 3372-3374) |
| RowValues.StoresDateTime | src/mysql2.cpp:3379-3395 | the decimal digits of a date and time are a stored form of its text |
| RowValues.SecondsDenoted | src/mysql2.cpp:3239-3249 | the text of an older TIME reads back as the number of seconds it was stored as, with its sign (with lines 3377-3378) |
| RowValues.StoresNumber | src/mysql2.cpp:3407-3424 | ENUM and SET values, and bit fields of up to eight bytes, are stored forms of their number |
| RowValues.StoresText | src/mysql2.cpp:3398-3406 | length-prefixed text is a stored form, with the prefix the metadata asks for |
| RowValues.StoresBlob | src/mysql2.cpp:3425-3434 | length-prefixed bytes are a stored form |
| RowValues.StoresDecimal | src/mysql2.cpp:3396-3397 | a packed DECIMAL is a stored form of its sign and digits (with lines 3170-3230) |
| RowValues.StoresTime2 | src/mysql2.cpp:3439-3440 | a biased TIME2 is a stored form of its time (with lines 3297-3349) |
| RowValues.StoresDateTime2 | src/mysql2.cpp:3437-3438 | a DATETIME2 is a stored form of its value if and only if its precision is even or it has no fraction (with lines 3280-3295) |
| RowValues.ReadValue | src/mysql2.cpp:3351-3446 | the reader gives the specified value and consumes exactly its bytes |
| TableColumns.SeenExact | src/mysql2.cpp:3093-3120 | the two metadata bytes of any column are read as the number with the first byte low |
| TableColumns.DecimalReadable | src/mysql2.cpp:3115-3116 | a DECIMAL column sent as precision and scale can be read at all if and only if the two are equal (with lines 3170-3176) |
| TableColumns.DecimalColumnExact | src/mysql2.cpp:3170-3230 | a DECIMAL value survives if and only if its column has no integer digits |
| TableColumns.CharColumnExact | src/mysql2.cpp:3402-3406 | a CHAR value survives if and only if its column is longer than 255 bytes but not by a multiple of 256, or has no room |
| TableColumns.EnumColumnIsText | src/mysql2.cpp:3402-3406 | an ENUM or SET value sent as STRING is taken for text behind a length of two bytes |
| RowsEvent.ImageProgress | src/mysql2.cpp:3448-3468 | an image that selects a column takes at least one byte |
| RowsEvent.UnselectedNull | src/mysql2.cpp:3448-3468 | columns that an image does not select are NULL |
| RowsEvent.DivergesExact | src/mysql2.cpp:3554-3571 | the row loop never ends if and only if there is a row and no image it reads selects a column of the table |
| RowsEvent.BlockedRows | src/mysql2.cpp:3448-3468 | a value in the first image for which nothing can be read makes the rows of the whole event unreadable (with lines 3554-3571) |
| RowsEvent.SlicesPartition | src/mysql2.cpp:3554-3571 | the raw slices of all rows, in order, are exactly the body behind the bitmaps |
| RowsEvent.NullMapExact | src/mysql2.cpp:3448-3468 | the null bit of a selected column is counted among the selected ones only |
| RowsEvent.RowsExact | src/mysql2.cpp:3448-3468 | any list of rows in stored form decodes to exactly those rows with the raw bytes of each image (with lines 3554-3571) |
| RowsEvent.CountBits | src/mysql2.cpp:3083-3091 | counts the set bits among the first ones |
| RowsEvent.ReadImage | src/mysql2.cpp:3448-3468 | the loop gives the specified values and consumes exactly the image |
| RowsEvent.ReadRows | src/mysql2.cpp:3554-3571 | the loop gives the specified rows, failure or divergence |
| BinlogParser.TablesAreLatest | src/mysql2.cpp:3470-3499 | over any events, a table is known if and only if some event mapped it, and then as the last such event described it |
| BinlogParser.RowsUseLatestMap | src/mysql2.cpp:3542-3553 | rows are decoded with the latest map of their table, and left undecoded if and only if there is none |
| BinlogParser.TableMapRoundTrip | src/mysql2.cpp:3470-3499 | every table map is parsed to its names, flags, types and null bitmap, and to the metadata that its metadata bytes denote as little-endian numbers, whether a column is declared as a server sends it or in the repository's own layout |
| BinlogParser.HeadRoundTrip | src/mysql2.cpp:3526-3540 | the head of a rows event of either version is parsed to itself, whatever the extra data, and leaves the rows |
| BinlogParser.RowsEventExact | src/mysql2.cpp:3470-3571 | from the log to the rows: whatever came before, rows sent for a table whose last map was sent as `t`, in forms that the metadata seen can be read with, are decoded to exactly those rows, columns and raw images |
| BinlogParser.DecimalBreaksEvent | src/mysql2.cpp:3470-3571 | whatever came before, one value of a DECIMAL column with integer digits in the first image leaves no row of the event decoded (with lines 3170-3176) |
| BinlogParser.ParseMetadata | src/mysql2.cpp:3093-3130 | one metadata value for each column type |
| BinlogParser.ReadTableMap | src/mysql2.cpp:3470-3499 | reads exactly the fields of a table map |
| BinlogParser.ReadRowsHead | src/mysql2.cpp:3526-3540 | reads exactly the fields in front of the rows |
| BinlogParser.Parser.ParseBody | src/mysql2.cpp:3470-3571 | each event is parsed with the maps of all events before it, and remembered (with lines 3641-3658) |
| Gtid.TrimAscii | src/mysql2.cpp:2856-2866 | both loops drop exactly the surrounding blanks |
| Gtid.SplitAscii | src/mysql2.cpp:2868-2881 | the loop gives the pieces between delimiters |
| Gtid.SplitJoin | src/mysql2.cpp:2868-2881 | splitting undoes joining |
| Gtid.ParseUuidBytes | src/mysql2.cpp:2883-2905 | gives the sixteen bytes if and only if 32 hexadecimal digits are left without the dashes |
| Gtid.UuidFromBytes | src/mysql2.cpp:2907-2922 | the loop writes the canonical lower-case form |
| Gtid.UuidRoundTrip | src/mysql2.cpp:2883-2922 | reading a canonical UUID and writing it again only lowers its letters |
| GtidSet.EncodedSetExact | src/mysql2.cpp:2966-3005 | decoding an encoded set consumes every byte and gives the sources in order, UUIDs canonical, an interval end of 2^64 - 1 as 0 |
| GtidSet.SetTextRoundTrip | src/mysql2.cpp:2924-2964 | the canonical text of any set is parsed to that set |
| GtidSet.GtidRoundTrip | src/mysql2.cpp:2924-3005 | text to bytes and back gives the same sources with lower-case UUIDs if and only if no interval ends at 2^64 - 1 |
| GtidSet.ParseGtidSetText | src/mysql2.cpp:2924-2964 | the nested loops parse as specified and fail exactly on malformed sources or intervals |
| GtidSet.EncodeGtidSet | src/mysql2.cpp:2966-2980 | the loops append the specified bytes |
| GtidSet.DecodeGtidSet | src/mysql2.cpp:2982-3005 | the loops read the specified sources or fail on a short packet |

## Left out

- Sockets, TLS, timers, command timeouts, acceptors and server threads: a read gives some nonempty prefix of what is coming, or fails.
- The handshake, authentication and certificate checks.
- zlib itself: the compressed layer holds for any lossless pair of functions.
- Charset tables and conversion: text is its utf8 bytes. A byte value put into a date column is taken as text byte by byte, without the latin1 step.
- Type conversion of text rows (`parse_text_value`): their values are compared as bytes. Text and byte columns of binary rows are modelled with the default options.
- Floating-point arithmetic: FLOAT and DOUBLE values are bit patterns, and casting, rounding and `std::stod` are parameters.
- LOCAL INFILE uploads: a request for one ends a reply with a failure, and replies that hold one are not well-formed.
- Binary result sets in the session: whole replies are of the text protocol, binary rows are proved one by one.
- Cursors, `execute`, `change_user`, binlog streaming and the guessing parser of execute payloads.
- Callers that add or remove nodes of a cluster during a call.
- Listeners, callbacks other than the row callback, promises, JSON and tracing: listeners do not throw.
- The session-state text of OK packets beyond the raw info bytes.
- Failures to allocate, as with a huge announced count handed to `reserve`.
- Where the layout comes from that a server uses for DECIMAL, CHAR, ENUM and SET columns in a table map: the MySQL replication protocol, which the repository does not describe. The layout of its own tests is covered as well.
- Bytes.PacketCursor.ReadBuffer: compares `offset + length` without the wrap-around at 64 bits, because what follows a wrapped comparison is undefined in the original.
- Client.Connection.WriteCommand: a write always succeeds, because transport failures are outside the synchronisation claims; `Transport` and `Framing` state them.
- RowsEvent.ReadRows: reports an iteration that reads nothing, because the original repeats it for ever.
- BinaryRow.ParseBinaryValue: with the default connection options; `parse_text_value` of text and byte columns under other options is left out.
- ResultSet.ColumnRoundTrip: without the encoding label, which neither side sends: the client looks it up from the character set number that comes back.
- Cluster.PoolCluster.GetConnection: one caller at a time, because a node can otherwise vanish between selection and lookup.
