# Model of a MySQL read/write-splitting proxy and its wire driver

The repository is a proxy that accepts MySQL clients, sends transactions and writes to a main
server, and sends plain SELECTs to a weighted choice of replicas. It contains its own copy of a
MySQL driver, extended so that it can copy a replica's answer to the client while decoding it.
This project models that driver and the proxy on top of it, and proves what they promise.

The modules follow the program:

- `Bytes`, `Decimals`, `Bitmaps`, `LengthEncoding`: bytes, numbers as text, null bitmaps and the
  length-encoded integers and strings of the protocol.
- `Buffers`, `Framing`, `PacketWrites`, `Connections`: the network connection, the double-buffered
  reader over real arrays, and the packet reader and writer that split payloads at 2^24-1 bytes.
- `ResultSets`, `Proxying`, `RowLoop`, `RowSets`: headers, columns, rows and chained results; the
  drain that forwards an answer to the client, also when the answer is cut off; leaving a result
  set early.
- `LongData`, `Statements`, `StatementDecoding`, `BinaryRows`, `Temporals`: prepared statements, as
  the client writes them and as a server reads them, and binary rows with their dates and times.
- `Watcher`: the protocol between a connection and the goroutine that watches its context.
- `Escaping`, `Interpolation`, `DateTimes`, `Urls`, `Dsn`, `DsnRoundTrip`: text written and read
  back: string literals, interpolated queries, dates and data source names.
- `Pool`, `PoolProtocol`, `PoolProgress`, `Routing`, `OldPassword`, `OldPasswordValues`: the
  connection pool, the routing of commands, and the generator behind old passwords.

Code that changes state step by step is a class or a method with loops (arrays are arrays, windows
of arrays are `Slice` values), proved against functions on values; the theorems are about those
functions. The network is a byte sequence that reads cut into chunks of any size; a wire may fail
unless it is `reliable`. The concurrent protocols are state machines over atomic steps, and their
theorems hold for every interleaving.

## Results where the code does less than one might expect

Each of these is proved with its exact condition.

- A payload comes back whole if and only if it is not empty (`RoundTripIffNonempty`).
- A slice returned by the reader survives one flip and any reads behind it, unless an earlier flip
  is still waiting for its fill (`ReadsAfterFlip`); in that case a read that fills as far as the
  slice replaces its bytes by later ones (`SecondFlipOverwrites`).
- `writePacket` reports that nothing was written although frames may have gone out: its test
  `pktLen == len(data)-4` (mysql/packets.go:228-231) is true in every turn of the loop, not only in the
  first, because the slice and the length shrink together. The comment there says otherwise; the
  model follows the code. A report is right if and only if it comes with the first frame
  (`NoWriteIsRightIff`), and every report is right if and only if the payload is shorter than
  2^24-1 bytes (`NoWriteIsAlwaysRightIff`).
- No encoding of an integer is shorter than the one written, except that the reader also takes a
  leading 0xff, which nothing writes (`EncodeIntIsMinimal`).
- An ERR packet without a state is reported as the server wrote it if and only if its message is not
  empty and does not start with '#': those are taken for a state, or cut off the packet
  (`ErrorReportedIff`).
- Discarding rows is exact if and only if no row starts with a field of 2^24 bytes or more
  (`DrainExactIffShortFirstFields`, `CloseIsExactIff`).
- The loop of `writeDataRow` waits for the end of the rows (proxy/mysql.go:175-179), which a closed
  connection never reports. On rows that decode and a stream that breaks off behind them, the loop
  ends if and only if an EOF or ERR packet is among them; otherwise it spins for ever, whatever the
  number of turns, and the connection never goes back to the pool (`DrainFor`, `CallsToEndIff`). A
  replica that drops in the middle of a result is such an input (`DroppedReplicaNeverEnds`).
- The long-data loop makes progress if and only if the packet limit exceeds eight bytes
  (`ProgressIffLimitExceedsEight`).
- Formatting and parsing a time is the identity exactly for whole microseconds
  (`ParseInvertsTextIffMicroseconds`), and the two ways of reading a binary date agree exactly when
  it is not all zero (`DatePathsAgreeIffNonzero`).
- A literal is read back if and only if no quote follows it; in an interpolated query that fails
  when a placeholder is followed by a quote, or at once by a placeholder for a quoted literal
  (`LiteralReadBackIff`, `ArgumentReadBackIff`).
- Closing a pool closes half of its idle connections, rounded up, and so empties it if and only if
  there is at most one (`Close`, `CloseEmptiesIffAtMostOne`).
- A reaper's round leaves the pool below its minimum if and only if others took more connections
  meanwhile than came back (`RoundUndershootsIff`; `ReaperCanUndershoot` is the shortest schedule).
- Some schedule leaves `Close` waiting for ever, with the mutex held, if and only if connections are
  idle when it starts and reapers in the middle of a round still owe more receives than half of
  their number (`CloseWaitsIff`, `DrainedCloseWaitsForEver`, `CloseCanWaitForEver`).
- Some schedule leaves `Open` waiting for ever, with the mutex held, if and only if the idle
  connections and the minimum together exceed the maximum and the receives that reapers still owe
  (`OpenWaitsIff`, `StuckOpenWaitsForEver`); for the first `Open` that is a minimum above the maximum
  (`FirstOpenWaitsIff`), and both come from independent settings (proxy/mysql.go:220-229).
- A normalized configuration whose network and address hold no '@', whose network holds no '(' and
  whose options are recoverable is read back if and only if its user has no colon and a password
  comes with a user (`ParseInvertsFormatIff`); which options are recoverable is exact as well
  (`FieldComesBackIff`, `TlsReadBackIff`). Adding the default port is idempotent except for bracketed
  addresses, where "[::1]" becomes "[[::1]]:3306" (`PortIsAddedIff`).

## Model

| member | source | states |
|---|---|---|
| LengthEncoding.ReadIntInvertsEncodeInt | mysql/utils.go:564-609 | reading inverts appending for every 64-bit number and whatever follows, and consumes exactly the encoding |
| LengthEncoding.EncodeIntIsMinimal | mysql/utils.go:564-609 | the written encoding is no longer than any byte string the reader reads as that number, if and only if that string does not start with 0xff |
| LengthEncoding.EncodeIntIsPrefixFree | mysql/utils.go:596-609 | no encoding is a proper prefix of another |
| LengthEncoding.SkipString | mysql/utils.go:547-561 | skipping succeeds and fails with reading, and consumes the same number of bytes |
| LengthEncoding.ReadStringInvertsEncodeString | mysql/utils.go:529-543 | a length-encoded string is read back, whatever follows |
| LengthEncoding.ReadFieldsInvertsEncodeRow | mysql/packets.go:1107-1165 | decoding a text row field by field gives the fields, NULL apart from the empty string |
| LengthEncoding.RowIsNeverEofOrErr | mysql/packets.go:1090-1105 | an encoded row of at least one column is never taken for an EOF or ERR packet; it starts with 0xfe exactly when its first field has 2^24 bytes or more |
| Bitmaps.BitmapBits | mysql/packets.go:1583-1592 | bit i+offset of a null bitmap is set exactly when value i is NULL |
| Decimals.DecimalDenotes | mysql/utils.go:494-514 | decimal text denotes its number |
| Decimals.SignedDenotes | mysql/connection.go:226-227 | the text of a signed integer denotes it |
| Decimals.Uint64ToString | mysql/utils.go:494-514 | the digits put into the array from the right are the decimal text without leading zeros, for every 64-bit number |
| Buffers.Buffer.constructor | mysql/buffer.go:29-36 | a new buffer is valid, owns its arrays and holds nothing |
| Buffers.Append | mysql/packets.go:1448-1511 | Go's append: in place within the capacity, else into a new array; bytes outside the appended part stay |
| Buffers.Buffer.Flip | mysql/buffer.go:41-43 | the queue is unchanged; the next fill goes to the active array exactly when a flip was pending |
| Buffers.Buffer.Retarget | mysql/buffer.go:46-74 | the unread bytes move to the start of the array that flipcnt selects, or of a new one if that is too small |
| Buffers.Buffer.Receive | mysql/buffer.go:78-103 | succeeds exactly when enough bytes are still to come, keeps what was there, and loses or repeats nothing however reads are cut |
| Buffers.Buffer.Fill | mysql/buffer.go:46-104 | succeeds exactly when the queue is long enough and leaves the queue as it was; a failed fill keeps the unread bytes |
| Buffers.Buffer.ReadNext | mysql/buffer.go:108-120 | returns the next bytes of the queue and removes them, or fails exactly when there are too few |
| Buffers.Buffer.Step | mysql/buffer.go:41-174 | every operation keeps idx + length within the array and the array at 4096 bytes or more; what a read returns followed by the queue is the old queue |
| Buffers.Buffer.Run | mysql/buffer.go:41-174 | over any run of reads, flips, takes with writes, and stores, the bytes read followed by the queue are the network bytes in order |
| Buffers.Buffer.ReadsAfterFlip | mysql/buffer.go:38-43 | after one flip any number of reads leaves an earlier slice untouched, if no flip was pending |
| Buffers.Buffer.SecondFlipOverwrites | mysql/buffer.go:38-74 | with a flip pending, a read after one more flip that fills as far as the slice replaces each of its bytes by the one that comes idx + size later |
| Buffers.Buffer.TakeBuffer | mysql/buffer.go:126-143 | a write buffer of the wanted size exactly when nothing is unread; the queue is unchanged |
| Buffers.Buffer.TakeSmallBuffer | mysql/buffer.go:148-153 | a valid window of the wanted size on the active array exactly when nothing is unread, and then the queue does not depend on what is written there |
| Buffers.Buffer.TakeCompleteBuffer | mysql/buffer.go:159-164 | a valid window on all of the active array, of at least 4096 bytes and with no capacity behind it, exactly when nothing is unread; the queue does not depend on it |
| Buffers.Buffer.Store | mysql/buffer.go:167-174 | keeps a larger array of at most 2^24-1 bytes, exactly when nothing is unread; the queue is unchanged |
| Framing.AfterCountsFrames | mysql/packets.go:215-220 | a payload advances the sequence number by one per frame, modulo 256 |
| Framing.ParseInvertsFrames | mysql/packets.go:21-83 | a nonempty payload split into frames is reassembled whole, whatever follows, and both ends agree on the next number |
| Framing.WrongNumberRefused | mysql/packets.go:38-44 | a frame with any other number is refused: a later number as several out of step, an earlier one as out of step |
| Framing.RoundTripIffNonempty | mysql/packets.go:49-55 | the round trip holds if and only if the payload is not empty; a lone empty frame is rejected |
| Framing.OnlyLastFrameIsShort | mysql/packets.go:152-237 | every frame but the last is full, and the last is empty exactly for a multiple of 2^24-1 |
| Framing.FramesCutByLengths | mysql/packets.go:152-237 | the frames are the payload cut at those lengths, each behind its header |
| Framing.InboxOfStream | mysql/packets.go:21-83 | a reader facing a stream of packets receives exactly those packets, then what follows |
| Connections.MysqlConn.ReadThrough | mysql/packets.go:92-101 | the bytes read are the next of the queue, and what the client has plus the queue is unchanged |
| Connections.MysqlConn.ReadFrame | mysql/packets.go:24-63 | one frame of the queue with its number checked, each way of failing told apart |
| Connections.MysqlConn.ReadFrames | mysql/packets.go:21-83 | the loop joins frames exactly as the specification of reassembly says |
| Connections.MysqlConn.ReadPacket | mysql/packets.go:21-149 | readPacket and readPacket1: the next packet of the inbox, the error for every way of failing, the connection closed when it must be, and every byte copied to the client once and in order |
| Connections.MysqlConn.Cleanup | mysql/connection.go:136-150 | the connection is closed; its results are cleared unless it was closed before |
| Connections.MysqlConn.Close | mysql/connection.go:121-130 | closed afterwards; says goodbye on an open connection, and sends nothing on a closed one |
| Connections.MysqlConn.WriteCommandPacket | mysql/packets.go:496-512 | one frame with the command, numbered from 0; nothing is sent while bytes are unread; succeeds on a reliable wire |
| Connections.MysqlConn.WriteCommandPacketStr | mysql/packets.go:514-534 | command and argument as one packet from number 0; unread bytes stay; succeeds on a reliable wire within the limit |
| Connections.MysqlConn.WriteFrame | mysql/packets.go:187-214 | the in-place header overwrites only the four bytes in front of the body; what goes out is as much of header and body as the write reports |
| Connections.MysqlConn.SendFrames | mysql/packets.go:187-237 | over every history of write outcomes: what has gone out, the error, and the state, are those of the history |
| Connections.MysqlConn.WriteErrorMeans | mysql/packets.go:218-236 | a Write that fails on a cancelled connection reports the context's error; otherwise one that wrote nothing reports that, and every other failure a lost connection |
| PacketWrites.CompleteSendsFrames | mysql/packets.go:187-217 | a history without failure sends exactly the frames, one sequence number each |
| PacketWrites.SentIsPrefix | mysql/packets.go:187-237 | whatever fails, what has gone out is a prefix of the frames |
| PacketWrites.NoWriteIsRightIff | mysql/packets.go:228-231 | a report that nothing was written is right if and only if it comes with the first frame |
| PacketWrites.NoWriteIsAlwaysRightIff | mysql/packets.go:228-231 | every such report, over all histories, is right if and only if the payload fits in one frame |
| Connections.MysqlConn.WritePacket | mysql/packets.go:152-237 | sends exactly the frames of data[4..] and ends at the right number, changes nothing outside data, refuses exactly what exceeds the limit, and otherwise ends as some history of write outcomes does |
| ResultSets.NextPacket | mysql/packets.go:614-672 | the next packet of the inbox, and nothing else changes |
| ResultSets.OkPacketParses | mysql/packets.go:757-787 | an OK packet is decoded to its affected rows, insert id and status |
| ResultSets.HandleOkPacket | mysql/packets.go:757-787 | the last entries of both lists and the status are those of the packet; a packet cut off in the status has changed the lists all the same |
| ResultSets.ErrorReportedIff | mysql/packets.go:676-712 | an ERR packet is reported with its number, state and message if and only if it has a state, or a message that is not empty and does not start with '#' |
| ResultSets.Int64Wraps | mysql/packets.go:771-778 | counts up to 2^63-1 are kept and larger ones wrap around to negative numbers |
| ResultSets.MoreIsTheBitOfEight | mysql/const.go:156-160 | another result follows exactly when the status bit of value 8 is set |
| ResultSets.ReadResultSetHeaderPacket | mysql/packets.go:614-672 | one new entry in each list; OK, ERR, LOCAL INFILE and column count told apart |
| ResultSets.ReadUntilEOF | mysql/packets.go:1168-1204 | the loop discards packets as its specification says, and copies them when there is a client |
| ResultSets.DrainToEof | mysql/packets.go:1168-1185 | packets that start with neither marker are passed over, up to and including the EOF packet, whose status is kept |
| ResultSets.DrainStopsEarly | mysql/packets.go:1176-1182 | the drain consumes no more than the first packet that starts with a marker |
| ResultSets.DrainExactIffShortFirstFields | mysql/packets.go:1168-1185 | the drain discards exactly the rows if and only if no row starts with a field of 2^24 bytes or more |
| ResultSets.DiscardResults | mysql/packets.go:1537-1555 | reads results as long as the status announces another |
| ResultSets.Exec | mysql/connection.go:321-347 | sends the query and reads every result it produces, with both lists cleared first |
| ResultSets.ReplyRead | mysql/connection.go:331-345 | one well-formed result is consumed exactly and adds one entry to each list |
| ResultSets.ChainRead | mysql/packets.go:1537-1555 | a chain of results linked by the status bit is consumed exactly, one entry per result in order |
| ResultSets.ExecReadsWholeChain | mysql/connection.go:321-347 | exec consumes exactly the packets of the chain; entry i is that of the i-th OK packet as int64, or 0 for rows |
| ResultSets.ExecReportsFailure | mysql/connection.go:321-347 | a statement that fails, at once or behind any number of results, is reported with the server's number, state and message, and nothing behind the error is consumed |
| Proxying.ColumnParses | mysql/packets.go:915-985 | an encoded column definition is decoded to its name, charset, length, type, flags and decimals |
| Proxying.ReadColumns1 | mysql/packets.go:889-985 | the column loop as specified, every byte copied to the client |
| Proxying.ColumnsRead | mysql/packets.go:889-985 | well-formed column definitions and their EOF packet are consumed exactly |
| Proxying.TooFewColumns | mysql/packets.go:898-904 | an EOF packet before the announced number of definitions is a mismatch of columns |
| Proxying.NextResultSet1 | mysql/rows.go:162-186 | end of rows when nothing more is announced, else the next header |
| Proxying.NextNotEmptyResultSet1 | mysql/rows.go:203-216 | skips results without columns and stops at the first with some |
| Proxying.DecodeFields | mysql/packets.go:1107-1165 | the field loop decodes as specified, or reports a failed conversion if some column is converted |
| Proxying.AliasChangesNothingElse | mysql/packets.go:920-933 | with ColumnsWithAlias the table name is read exactly where it is skipped otherwise |
| Proxying.TableIsRead | mysql/packets.go:920-927 | and it is the table name that the server wrote |
| Proxying.RowDecodes | mysql/packets.go:1107-1165 | an encoded row is decoded to its fields |
| Proxying.ReadRow1 | mysql/packets.go:1078-1165 | a packet is a row, the end of the rows with its status, or an error; the row set lets go of the connection exactly when nothing is left |
| Proxying.Next1 | mysql/rows.go:282-292 | as above on an open connection; a stream that breaks off closes it; a closed one never yields the end of the rows |
| RowLoop.CallsToEndIff | proxy/mysql.go:175-179 | some number of calls reaches the end of the rows if and only if an EOF or ERR packet is there, and then one more than the packets suffice |
| RowLoop.OneCall | mysql/rows.go:282-292 | one call ends the loop exactly at that number, and otherwise keeps the loop's state |
| RowLoop.DrainFor | proxy/mysql.go:175-179 | for every number of turns, on rows that decode and a stream that breaks off: ended if and only if that many calls reach the end; without one it ends up spinning on a closed connection |
| RowLoop.DroppedReplicaNeverEnds | proxy/mysql.go:167-182 | a stream cut off inside any packet behind rows is such an input: lost, and no number of calls reaches the end |
| Framing.BrokenStream | mysql/packets.go:85-149 | a stream cut off inside a packet: the packets before it can be read, then the connection is lost |
| Proxying.ReadQueryReply | mysql/connection.go:420-448 | query1 behind the command: header, empty results skipped, columns |
| Proxying.QueryRead | mysql/connection.go:404-449 | a well-formed answer is consumed up to its first row, after any number of leading OK packets; an ERR packet is reported with its number, state and message |
| Proxying.NextRow | mysql/packets.go:1078-1165 | facing the unread rows of an answer, one call consumes one of them or ends the rows, or reports the number, state and message of the ERR packet that ends them |
| Proxying.DrainRows | proxy/mysql.go:172-180 | the loop ends, with exactly the rows and their end consumed and copied |
| Proxying.WriteDataRow | proxy/mysql.go:167-182 | for every well-formed answer: ends, copies every byte in order, leaves what follows unread and the connection open, and reports exactly the number, state and message of the replica's ERR packet |
| Proxying.ForwardAnswer | proxy/mysql.go:167-182 | a replica that sends its answer and nothing else: the client receives exactly those bytes, none is left unread, and the error is that of the replica's ERR packet, by number, state and message |
| Proxying.ExactAnswer | proxy/mysql.go:167-182 | the packets of an answer, as frames, are exactly its packets and leave nothing |
| RowSets.SkipToNextResultSet1 | mysql/rows.go:162-186 | what is left of the current result is read before the next header |
| RowSets.Close | mysql/rows.go:93-127 | reads the unread rows and every further result, and lets go of the connection except when discarding fails |
| RowSets.CloseReadsTheRest | mysql/rows.go:93-127 | closing in the middle of the rows consumes exactly the packets of the statement, further results included |
| RowSets.CloseIsExactIff | mysql/rows.go:93-127 | with nothing behind the rows, closing is exact if and only if no unread row starts with a field of 2^24 bytes or more |
| LongData.ChunksMakeArgument | mysql/packets.go:1239-1288 | the pieces are nonempty, their bodies stay below the limit, all but the last fill it, and together they are the argument |
| LongData.SendPiece | mysql/packets.go:1260-1283 | one piece is sent as its own command, and the bytes behind it are untouched |
| LongData.WriteCommandLongData | mysql/packets.go:1239-1288 | ends, and sends exactly the commands of the pieces although headers overwrite the shared array |
| LongData.ProgressIffLimitExceedsEight | mysql/packets.go:1240-1270 | with the length the loop gives each packet, a turn shortens the rest if and only if the limit exceeds eight bytes |
| Statements.SetNullBit | mysql/packets.go:1383-1387 | sets one bit of the mask and nothing else, values included |
| Statements.AppendUint64 | mysql/packets.go:1399-1442 | the in-capacity path and the appending path give the same bytes |
| Statements.EncodeArg | mysql/packets.go:1381-1515 | one argument: its null bit, type and value, or its long data sent ahead; the rest of the fixed part stays |
| Statements.Layout | mysql/packets.go:1346-1377 | room for mask and types, in place or in a new array, with the mask cleared |
| Statements.FixedStep | mysql/packets.go:1381-1515 | setting bit and type of argument k extends the fixed part by exactly that argument |
| Statements.EncodeArgs | mysql/packets.go:1381-1515 | after the loop mask, types, values and long data are those of all arguments |
| Statements.Splice | mysql/packets.go:1518-1530 | fixed part and values side by side, whether or not the values had to move |
| Statements.ThresholdShares | mysql/packets.go:1304-1308 | the threshold for long data is the limit's share per parameter and one more, rounded down, and never below 64 |
| Statements.WriteExecutePacket | mysql/packets.go:1292-1533 | what is sent depends only on the arguments, not on the buffer; unsupported values and wrong counts are refused; succeeds on a reliable wire within the limit |
| StatementDecoding.MaskBitIffNull | mysql/packets.go:1381-1388 | bit i of the mask is set if and only if argument i is NULL |
| StatementDecoding.ValueRead | mysql/packets.go:1393-1515 | each value is read back by its type |
| StatementDecoding.ArgumentForms | mysql/packets.go:1393-1515 | the type bytes of every kind of argument by their protocol numbers, and its value bytes: two's complement, float bits, one byte for a truth value |
| StatementDecoding.ExecHeadRead | mysql/packets.go:1328-1344 | the packet starts with the command, the statement's id, no cursor and one iteration |
| StatementDecoding.ExecDecodes | mysql/packets.go:1292-1533 | a decoder recovers every argument from the packet and the long data |
| StatementDecoding.ServerRecoversArguments | mysql/packets.go:1239-1533 | a server reading the whole stream keeps the long data of the statement they name, executes exactly that statement, recovers every argument, and stops behind the packet, whatever it keeps for other statements |
| Temporals.SpanFormats | mysql/utils.go:435-475 | for every wire length and 0 to 6 decimals a TIME value is shown with exactly its sign, hours of all days, minutes, seconds and microseconds; it fails exactly when minutes or seconds have no two digits |
| Temporals.SpanTextDenotes | mysql/utils.go:435-475 | that text denotes the fields: a minus sign if negative, 24 * days + hours with at least two digits, minutes, seconds, and the microseconds less the digits cut off |
| Temporals.PointFormats | mysql/utils.go:378-433 | for every wire length and every text length a DATE or DATETIME value is shown with its fields as far as the text goes; it fails exactly when a field it shows has too many digits |
| Temporals.PointTextDenotes | mysql/utils.go:378-433 | that text denotes year, month, day, hour, minute, second and the leading digits of the microseconds |
| Temporals.PointParses | mysql/utils.go:222-258 | parsing the binary value gives its fields, and the zero time for the empty value, whatever follows |
| BinaryRows.DecodeRow | mysql/packets.go:1558-1734 | the column loop decodes as specified, errors included |
| BinaryRows.TypesByNumber | mysql/const.go:99-129 | widths of the integer types and the types sent with a length, by their protocol numbers |
| BinaryRows.UnsignedIsTheBitOf32 | mysql/const.go:134-140 | a column is unsigned exactly when the flag of value 32 is set |
| BinaryRows.TemporalBytes | mysql/packets.go:1671-1725 | whatever bytes stand behind the length of a temporal value, exactly they are handed on |
| BinaryRows.CellReadBack | mysql/packets.go:1587-1734 | one encoded value is read back: sign extension by width and unsigned flag, large unsigned values as decimal text, dates and times by their fields, as text or as the parser gives them, in every wire length and for every number of decimals |
| BinaryRows.ReadRowInvertsEncodeRow | mysql/packets.go:1558-1734 | reading inverts encoding for every list of columns and values, temporal values given by their fields |
| Watcher.StepKeepsInv | mysql/connection.go:489-679 | every step of every party keeps the invariant |
| Watcher.WatcherSafety | mysql/connection.go:136-160 | in every interleaving: sending never blocks; once watching is clear the slot is empty and no context is held; closech is closed at most once; a context cancels only its own operation, and only once it is done; if the watcher closed the connection, error() reports that context's error |
| Watcher.DoneContextCloses | mysql/connection.go:656-679 | a context that is done while the watcher holds it closes the connection in the watcher's next steps, with that context's error unless somebody else had closed it |
| Watcher.FinishProgress | mysql/connection.go:489-498 | while finish waits it can return or some step is enabled, and every effective step brings the return nearer |
| Watcher.FinishWaitsAtMostEightSteps | mysql/connection.go:656-679 | after at most eight effective steps of the others finish can return |
| Escaping.ReserveBuffer | mysql/utils.go:618-627 | the same bytes with room behind them, in place when the capacity allows |
| Escaping.EscapeInto | mysql/utils.go:638-674 | writes the escaped text and nothing outside the reserved part |
| Escaping.Escape | mysql/utils.go:634-763 | the escaped text behind an unchanged prefix, in either mode |
| Escaping.ReadEscaped | mysql/utils.go:634-763 | reading an escaped text gives the text, then what reading goes on to give |
| Escaping.LiteralReadBackIff | mysql/utils.go:634-763 | a literal is read back and left at its closing quote, if and only if no quote follows |
| Interpolation.AppendLiteral | mysql/connection.go:219-282 | the literal of each kind of argument behind an unchanged prefix, or its error |
| Interpolation.InterpolateParams | mysql/connection.go:196-293 | the result is the woven text or the first error, in the order of the source's tests; the connection's unread bytes are untouched |
| Interpolation.BuildSucceedsIff | mysql/connection.go:206-293 | succeeds if and only if every argument has a literal and the text up to each argument but nil leaves four bytes; the text is then the segments interleaved with the literals |
| Interpolation.WeaveSplits | mysql/connection.go:209-219 | the text splits at every placeholder |
| Interpolation.ArgumentReadBackIff | mysql/connection.go:248-276 | a server reading at argument k recovers it and stops behind its quote, if and only if no quote follows in the query or in the next literal |
| Interpolation.StyleFollowsServer | mysql/connection.go:248-272 | backslashes are used exactly when the status bit of value 0x200 is clear |
| Interpolation.ServerReadsArgumentIff | mysql/connection.go:196-293 | in the text built under a connection's status, a server with that status bit reads argument k back, if and only if no quote follows |
| Interpolation.OtherLiteralsDenote | mysql/connection.go:224-247 | NULL for nil and nil bytes, 1 and 0 for truth values, integer literals denote their arguments, and time literals parse back exactly for whole microseconds; texts open with a quote, bytes with the binary introducer |
| DateTimes.ParseByteNanoSec | mysql/utils.go:200-213 | the loop reads a fraction of a second |
| DateTimes.ParseByteYear | mysql/utils.go:175-186 | the loop reads four digits |
| DateTimes.AppendDateTime | mysql/utils.go:260-316 | the text of a time with zeros trimmed, for years 1 to 9999 |
| DateTimes.ParseInvertsTextIffMicroseconds | mysql/utils.go:100-316 | parsing inverts formatting, trimmed and date-only forms included, if and only if the time has whole microseconds |
| DateTimes.BinaryText | mysql/utils.go:327-433 | at every length the text of a binary value spells out its fields, as far as it goes |
| DateTimes.DatePathsAgreeIffNonzero | mysql/utils.go:222-433 | parsing that text gives the fields that parsing the binary value gives, if and only if they are not all zero |
| Urls.UnescapeInvertsEscape | mysql/dsn.go:198-199 | percent-decoding inverts percent-encoding in both modes |
| Urls.EscapeIsSafe | mysql/dsn.go:381-382 | no delimiter of a data source name survives encoding |
| Dsn.Config.constructor | mysql/dsn.go:63-71 | a new configuration has the default values |
| Dsn.Config.NormalizeAddress | mysql/dsn.go:98-116 | default network, default address, default port, or the error for an unknown network |
| Dsn.DefaultAddresses | mysql/dsn.go:98-113 | no network means tcp; the default address of tcp and of unix, and an error exactly for every other network |
| DsnRoundTrip.GivenAddress | mysql/dsn.go:98-116 | a given address is kept, except that over tcp one without a port gets port 3306 |
| Dsn.Config.Normalize | mysql/dsn.go:93-155 | the normalized settings or the first error |
| Dsn.Config.ParseDSNParams | mysql/dsn.go:383-579 | every parameter is assigned in order, up to the first error |
| Dsn.BoolWords | mysql/utils.go:84-94 | exactly the four spellings of true and the four of false are read as booleans |
| Dsn.Config.ParseFront | mysql/dsn.go:309-352 | user, password, network and address, as the four scanning loops find them |
| Dsn.Config.ParseBack | mysql/dsn.go:354-367 | the parameters, then the decoded database name |
| Dsn.ParseDSN | mysql/dsn.go:301-379 | the settings that the text stands for, or the error |
| Dsn.Config.WriteDSNParam | mysql/dsn.go:157-168 | one more parameter behind the right separator |
| Dsn.Config.WriteFields | mysql/dsn.go:202-284 | every option that the source's conditions select, in their order |
| Dsn.Config.FormatDSN | mysql/dsn.go:174-298 | the text of the settings, further parameters in some order |
| DsnRoundTrip.FieldBehindName | mysql/dsn.go:391-568 | every option is found under its own name |
| DsnRoundTrip.AtoiInvertsItoaIff | mysql/dsn.go:281-283 | the packet limit is read back if and only if it fits 64 bits |
| DsnRoundTrip.TlsReadBackIff | mysql/dsn.go:526-542 | a TLS name is read back if and only if it is not another spelling of a boolean or of a reserved word |
| DsnRoundTrip.FieldComesBackIff | mysql/dsn.go:202-284 | a written option is read as its value and an unwritten one has its default, if and only if it is recoverable |
| DsnRoundTrip.PiecesOfQuery | mysql/dsn.go:157-168 | splitting the written parameters gives them back |
| DsnRoundTrip.AddressReadBackIff | mysql/dsn.go:333-351 | network and address are read back if and only if the network has no parenthesis and an address comes with a network |
| DsnRoundTrip.CredentialsReadBackIff | mysql/dsn.go:317-331 | user and password are read back if and only if the user has no colon and a password comes with a user |
| DsnRoundTrip.ParseInvertsFormatIff | mysql/dsn.go:174-379 | parsing inverts formatting on every field, in whatever order further parameters are written, if and only if the credentials are read back |
| DsnRoundTrip.ReplicaNameReadBackIff | proxy/mysql.go:213-215 | the name built for a replica is read as its user, password, host, port and database over tcp if and only if the user has no colon, for any password |
| DsnRoundTrip.PortIsAddedIff | mysql/dsn.go:581-586 | adding the default port gives an address with a port, and is idempotent, exactly for the addresses named |
| Pool.ConnectionPool.Open | pool/connectionPool.go:36-57 | adds the minimum number of connections, or waits for ever exactly when they do not fit in the channel and nobody receives; refused when closed |
| Pool.ConnectionPool.Get | pool/connectionPool.go:60-81 | the oldest idle connection, or a new one that nobody holds; fails when closed |
| Pool.ConnectionPool.Put | pool/connectionPool.go:84-100 | back to the idle ones while there is room and the pool is open, else closed |
| Pool.ConnectionPool.Close | pool/connectionPool.go:103-118 | closes the oldest half of the idle connections, rounded up |
| Pool.ConnectionPool.Reap | pool/connectionPool.go:121-137 | closes what exceeds the minimum, oldest first |
| Pool.CloseEmptiesIffAtMostOne | pool/connectionPool.go:112-117 | closing empties the pool if and only if there was at most one idle connection |
| Pool.OnePlaceEach | pool/connectionPool.go:60-100 | a connection in one place is in no other |
| PoolProtocol.StepConserves | pool/connectionPool.go:36-137 | no step loses or duplicates a connection; connecting adds the next one |
| PoolProtocol.StepKeepsInv | pool/connectionPool.go:36-137 | every step keeps the invariant |
| PoolProtocol.PoolConservation | pool/connectionPool.go:36-137 | in every interleaving each connection is in exactly one place, none is lent twice, and the idle ones never exceed the maximum |
| PoolProtocol.OpenNeverBlocks | pool/connectionPool.go:45-52 | sending to the channel never blocks while opening, given room at the start |
| PoolProtocol.MutexExcludes | pool/connectionPool.go:36-118 | while Open or Close holds the mutex nobody takes or gives back a connection, only the opener adds one, and only the holder's last step frees it |
| PoolProgress.StuckOpenWaitsForEver | pool/connectionPool.go:45-52 | an opener with a full channel that nobody owes a receive never takes another step, and the mutex is never free |
| PoolProgress.OpenWaitsIff | pool/connectionPool.go:36-57 | from any reachable start of Open, some schedule gets it stuck if and only if idle connections and minimum exceed the maximum and the owed receives |
| PoolProgress.FirstOpenWaitsIff | pool/connectionPool.go:36-57 | a new pool's Open can wait for ever if and only if the minimum exceeds the maximum |
| PoolProgress.FullChannelIsEmptied | pool/connectionPool.go:45-52 | an opener that is not stuck sends, or a reaper can take its next step towards a receive it owes |
| PoolProtocol.ClosedPoolOnlyShrinks | pool/connectionPool.go:103-137 | after Close the idle connections are only ever taken from the front, none is opened and none is lent out |
| PoolProtocol.ReaperCanUndershoot | pool/connectionPool.go:121-137 | with one connection more than the minimum, a Get in between makes a reaper go below it |
| PoolProgress.RoundBalance | pool/connectionPool.go:126-134 | at every moment of a round, in every interleaving, the idle connections are those at its start less the received ones, plus what came, less what others took |
| PoolProgress.RoundUndershootsIff | pool/connectionPool.go:126-134 | a round that starts at or above the minimum ends below it if and only if others took more than came back |
| PoolProtocol.DrainedCloseWaitsForEver | pool/connectionPool.go:112-117 | a Close that finds the channel drained makes no further step, whatever happens |
| PoolProgress.CloseWaitsIff | pool/connectionPool.go:103-118 | from any reachable start of Close, some schedule leaves it waiting for ever if and only if connections are idle and reapers owe more receives than half of their number |
| PoolProgress.CloseComesNearer | pool/connectionPool.go:112-117 | unless it is stuck Close has a step to take, each brings it nearer to its end, and nobody sets it back |
| PoolProgress.CloseCanWaitForEver | pool/connectionPool.go:103-137 | eight steps from a new pool to a Close that waits for ever |
| Routing.PatternsDisjoint | proxy/mysql.go:240-243 | no statement matches two of the patterns |
| Routing.KindIff | proxy/mysql.go:123-152 | the kind of a packet read off its bytes: command 3 and a keyword in any letter case behind blanks and line ends, if and only if |
| Routing.LastControlOpensIff | proxy/mysql.go:129-140 | a span is open if and only if some begin has no commit or rollback behind it |
| Routing.MysqlProxy.DelegateSelect | proxy/mysql.go:123-152 | a command goes to a replica exactly when it is a SELECT outside a span, and the flag stays the truth about all commands so far |
| Routing.MysqlProxy.Session | proxy/mysql.go:94-152 | the same for every command of a whole session |
| Routing.ChooseByWeight | proxy/mysql.go:154-165 | the replica in whose interval the number lies; the fallback exactly for numbers not below the total |
| Routing.OneOwner | proxy/mysql.go:154-165 | every number belongs to one replica |
| Routing.ChosenExactlyByWeight | proxy/mysql.go:154-165 | over all numbers below the total, replica i is chosen exactly Weight_i times |
| Routing.InitMysqlDB | proxy/mysql.go:206-238 | the usable replicas in order, with positive weights and their sum as total |
| Routing.ReplicaCounts | proxy/mysql.go:206-238 | a replica counts exactly if its weight is positive and it connects, in order, with one to ten connections unless the settings say otherwise |
| OldPassword.PwHash | mysql/auth.go:103-127 | the hash loop with 32-bit wrap-around, sign bits removed |
| OldPasswordValues.KnownHash | mysql/auth.go:103-127 | the hash of the password 'a' is 60671c89 6665c3fa |
| OldPassword.BlanksDoNotCount | mysql/auth.go:110-113 | blanks anywhere in a password do not change its hash |
| OldPassword.MyRnd.constructor | mysql/auth.go:85-90 | both seeds are reduced below 2^30-1 |
| OldPassword.MyRnd.NextByte | mysql/auth.go:95-100 | the next state and an output of at most 30, with every 32-bit operation exact |
| OldPassword.SeedsFit | mysql/auth.go:95-100 | from seeds below 2^30-1 no sum or product wraps and the next seeds are below it again |
| OldPassword.OutputIsScaledFraction | mysql/auth.go:76-100 | the integer output is the floor of 31 times the seed's fraction of the modulus |
| OldPassword.GeneratorBounded | mysql/auth.go:84-100 | from any seeds, at every step, seeds and outputs stay in bounds |
| OldPassword.MaskedLetter | mysql/auth.go:140-146 | a letter mixed with the mask stays in 0x40..0x5f |
| OldPassword.ScrambleOldPassword | mysql/auth.go:130-149 | eight bytes in 0x40..0x5f, never the terminator, each the generator's letter mixed with its ninth output |
| OldPasswordValues.KnownScramble | mysql/auth.go:130-149 | the eight bytes of the scramble of 'a' for a challenge of blanks |

## Left out

- Sockets, deadlines, TLS, dialing, the liveness check before a command (`mc.reset`), and reads that return data together with an error other than end-of-file.
- Client side of the proxy: a failed write to the client is ignored in the code; here the client accepts everything.
- Proxying.WriteDataRow: requires a well-formed answer whose last result announces no other, because the loop stops only at the end of the rows (proxy/mysql.go:176); answers that are cut off behind their columns are the subject of `RowLoop.DrainFor`, others are covered by the contracts of the methods it calls.
- Proxying.DrainRows: the same requirement.
- RowLoop.DrainFor: the stream breaks off by ending or with a malformed packet; behind a frame with a wrong number the connection stays open and later bytes are read as packets, which is left out.
- Proxying.DecodeFields: conversion of a number or date column is a possible failure and its values stay text, because it is decided by library parsers.
- Proxying.ColumnParses: the columns handed on carry no table name; what ColumnsWithAlias adds is stated by `ReadTable` beside it.
- Proxying.Next1: a slice past the end of a packet but within its array would read stale bytes; the model reports a panic there, as for every index past the end. Such packets are malformed. A truncated string in a row ends the rows, as in the code.
- Connections.MysqlConn.ReadPacket: the packet is returned as a value; that it shares the read buffer, and so is valid only until the next read, is stated by the contracts of `Buffers`.
- ResultSets.HandleOkPacket: LOCAL INFILE requests and RejectReadOnly are errors of the model, because file transfer is not part of it.
- LongData.WriteCommandLongData: requires a limit above eight bytes, without which the loop makes no progress (`ProgressIffLimitExceedsEight`).
- Statements.WriteExecutePacket: the same requirement where there are long arguments; the statement id is any number, of which the low 32 bits are sent.
- StatementDecoding.ServerRecoversArguments: at most 65535 parameters, the number the protocol's counters hold, and no long data kept for the statement before, as after its last execution.
- BinaryRows.ReadRowInvertsEncodeRow: starts behind the row marker; the EOF and ERR packets of a binary result are told apart as in a text result. Floats are bit patterns. A temporal value has fields that fit its bytes, less than a second of microseconds, and one of the lengths of the protocol; other bytes behind a length are covered by `TemporalBytes`.
- Interpolation.InterpolateParams: the text of a float is a parameter (it must not be empty), and a time is already in the connection's time zone.
- DateTimes.ParseInvertsTextIffMicroseconds: a date is the tuple of its fields; time zones and the normalization of impossible days are left out.
- Dsn.ParseDSN: locations are names, durations come from two functions that must be inverse on positive values, and the registries of TLS configurations, keys and unsafe collations are predicates; lower-casing is that of ASCII. "strict" is an error where the code panics.
- Dsn.Config.FormatDSN: the further parameters come in some order, not necessarily sorted; the round trip holds for every order. ConnectionAttributes is not written by the code and so is empty in the round trip. The options are written in a loop over their list, where the source writes its conditions one below the other.
- DsnRoundTrip.ParseInvertsFormatIff: requires a normalized configuration whose network and address hold no '@', whose network holds no '(', and whose unescaped parts hold no '/' or '&'.
- PoolProtocol.StepKeepsInv: Get and Put are one step each, because they hold the mutex throughout; connecting inside them is part of that step.
- Pool.ConnectionPool.Reap: one round; the timer and the close channel of the goroutine are steps of `PoolProtocol`.
- Routing.MysqlProxy.DelegateSelect: the patterns are tests for ASCII prefixes without regard to case; an inbound read is one whole command; forwarding to the main server is the plain copy of bytes and is not modelled.
- OldPassword.ScrambleOldPassword: exclusive or and masks are written arithmetically. Password hashing with SHA and RSA, and the dialogue of the authentication plugins, are left out: they rest on libraries.
- proxy/postgres.go routes as the MySQL proxy does and leaves the rest to other drivers.
- Connection attributes, collation and field tables, configuration files, logging and signals: tables and wrappers.
