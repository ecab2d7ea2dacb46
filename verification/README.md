# A verified model of the SQL Server driver's protocol core

The repository is a SQL Server driver: byte codecs for the TDS protocol ([MS-TDS]), a transaction state machine
that queues rollbacks lazily, and a stream adapter that carries a TLS handshake inside PRELOGIN packets. This
project models those parts in Dafny and proves what they are for.

How the model is laid out:

- `Wire.dfy` holds bytes, fixed-width integers and the cursor readers. A reader returns the item and the bytes
  that are left (`Read<T>`); a loop of the driver is a method proved equal to a recursive function, and an object
  whose methods update it is a class proved against a function of its state.
- `Packet.dfy`, `WireStream.dfy` and `TlsPrelogin.dfy` cover framing: the buffer encoder and decoder, the reader and
  writer over a connected stream, and the poll-driven handshake stream over a transport that may cut, delay or fail
  at every poll.
- `Transaction.dfy`, `Atomicity.dfy`, `Refinement.dfy`, `NestingLimit.dfy` and `Connection.dfy` cover transactions.
  The connection (depth, descriptor, queued rollback) talks to an abstract server with a durable store, a working
  store, a stack of equally named savepoints and a log of every request it saw. Whether the server keeps a savepoint
  after rolling back to it is a parameter; all results hold for both.
- `TypeInfo.dfy`, `TypeCodes.dfy`, `Arguments.dfy`, `ArgumentList.dfy`, `Rpc.dfy` and `RpcCalls.dfy` cover parameters
  from TYPE_INFO to framed requests.
- `Row.dfy`, `EnvChange.dfy`, `Query.dfy`, `QueryStream.dfy`, `LoginResponse.dfy` cover responses.
- `PreLogin.dfy` and `Login7.dfy` cover the two connection-setup messages.
- `Numeric.dfy` and `DateTime.dfy` cover value arithmetic; `StatementHandle.dfy` the handle a prepare returns.
- `EndToEnd.dfy` puts framing, requests, responses and the state machine together for one request of each kind.

Three findings are theorems here. A program of begins, commits and rollbacks nests correctly, whatever its statements
do short of making the server abandon the transaction, if and only if each inner rollback happens while the newest
savepoint belongs to the level it ends; two levels always do, and a run of three that does not is shown
(`NestingIsFaithfulIff`, `ShallowRunsFaithful`, `DepthThreeFails`). A handshake flush sends all its bytes if and only if no write poll stalls: the buffer is taken before polling and is not put back
(`TlsPreloginStream.PollFlush`). And an assembled PRELOGIN table parses back if and only if no offset or length byte
is 0xff, because the parser looks for the first terminator byte anywhere in the table (`AssembledParsesIff`); an
instance name of 254 bytes runs into it (`LongInstanceNameFails`).

Each round trip has a second statement beside it that names what is on the wire without the codec's own functions:
byte positions, literal codes, decimal digits, bits (`Packet.SplitPacket`, `Login7.LoginFieldsByName`,
`RpcCalls.ExecuteSqlByName`, `TypeCodes.FixedValues` and the like).

## Model

| member | source | states |
|---|---|---|
| Wire.LittleEndianRoundTrip | src/protocol/read.rs:12-22 | every number below 256^width comes back from its little-endian bytes |
| Wire.LittleEndianFour | src/protocol/read.rs:12-22 | four bytes hold their number with the low byte first |
| Wire.ReadBVarCharExact | src/protocol/read.rs:29-46 | counted UTF-16 text reads back whole and leaves exactly what follows it |
| Wire.ReadLenPrefixedExact | src/protocol/read.rs:24-27 | a length-prefixed body reads back whole and leaves exactly what follows it |
| Packet.HeaderRoundTrip | src/protocol/packet.rs:90-126 | decoding inverts encoding on every header of legal length, and refuses exactly the others |
| Packet.HeaderDecodeInjective | src/protocol/packet.rs:107-126 | a decoded header encodes to the very bytes it came from |
| Packet.EncodeMessage | src/protocol/packet.rs:145-201 | the loop emits the packets of Split, whose every byte SplitPacket gives, or refuses exactly the packet sizes outside 9..65535 |
| Packet.SplitIsMessage | src/protocol/packet.rs:145-201 | those packets form a message the decoder accepts, and together carry the payload |
| Packet.SplitPacket | src/protocol/packet.rs:145-201 | packet k of a message holds the payload from k times the room on, and in its header the id first + k modulo 256, status 1 exactly when it is the last, its own length, and zeros |
| Packet.MessagePacket | src/protocol/packet.rs:208-262 | in every message the decoder accepts, packet k is numbered first + k modulo 256 and exactly the last one has status 1 |
| Packet.SecondPacketChecked | src/protocol/packet.rs:208-262 | the second packet is refused exactly if its type is another one or its id is not the next, each with its own error; otherwise both payloads are joined |
| Packet.TryDecodeMessage | src/protocol/packet.rs:208-262 | the offset loop computes the packet-by-packet decoding, whose check of each next packet SecondPacketChecked spells out |
| Packet.DecodeStable | src/protocol/packet.rs:208-262 | on arbitrary input a decoded message or an error never changes when more bytes arrive |
| Packet.MessageDecodes | src/protocol/packet.rs:208-262 | every well-formed message decodes to its type and payload, consuming exactly its bytes |
| Packet.MessagePrefixNotYet | src/protocol/packet.rs:208-262 | every proper prefix of a message is an unfinished one |
| Packet.DecodeCharacterised | src/protocol/packet.rs:208-262 | the decoder accepts an input if and only if it starts with a well-formed message |
| Packet.FramingRoundTrip | src/protocol/packet.rs:145-262 | decode after encode gives type, payload and length for every payload, size and suffix, past 255 packets too |
| WireStream.ReaderRefinesDecoder | src/connection.rs:550-605 | when every packet fits the negotiated size the stream reader and the buffer decoder agree on any bytes |
| WireStream.ReaderRejectsLongPackets | src/connection.rs:581-587 | the reader reports a too long packet if and only if some packet it reaches does not fit |
| WireStream.Stream.ReadMessage | src/connection.rs:550-605 | on success it consumed exactly the bytes the buffer decoder would, with the same type and payload |
| WireStream.Stream.WriteAll | src/connection.rs:622-636 | the writes are whole packets that partition the message; it fails if and only if the bytes are not whole packets |
| WireStream.PacketSlice | src/connection.rs:638-654 | the slice is one whole packet, and an error means the rest is not made of whole packets |
| WireStream.EncodedMessagesAreSendable | src/connection.rs:622-654 | every encoded message can be sent and is read back by a peer with the same packet size |
| TlsPrelogin.TlsPreloginStream.PollHeader | src/tls.rs:66-106 | a header gathered over any number of polls is the one in the raw stream, and nothing of it is delivered |
| TlsPrelogin.TlsPreloginStream.StoreHeader | src/tls.rs:83-86 | the gathered bytes are always the tail of the raw stream |
| TlsPrelogin.TlsPreloginStream.PollRead | src/tls.rs:53-124 | however the transport fragments, what was delivered is exactly the payload of the raw bytes taken; every failure is accounted for |
| TlsPrelogin.TlsPreloginStream.PollPayload | src/tls.rs:108-124 | payload bytes are passed on once, in order, and never beyond the packet |
| TlsPrelogin.TlsPreloginStream.PollWrite | src/tls.rs:128-139 | handshake writes are only buffered, in order |
| TlsPrelogin.TlsPreloginStream.PollFlush | src/tls.rs:141-164 | a flush sends the whole framing of the buffered bytes if and only if no write poll stalls, else a proper prefix, and leaves the buffer empty |
| TlsPrelogin.FeedFrames | src/tls.rs:66-124 | deframing whole PRELOGIN packets yields exactly the bytes they carry |
| TlsPrelogin.PartialDeframing | src/tls.rs:66-124 | after any part of a packet stream a prefix of the payload has been seen, all of it at the end |
| TlsPrelogin.HeaderRefusedIff | src/tls.rs:88-106 | between packets the next eight bytes are refused exactly if their type is not 0x12 or their big-endian length is below eight, and nothing behind a refused header is delivered |
| TlsPrelogin.ReadExpected | src/tls.rs:53-124 | polling on delivers the whole payload of every packet stream unless the transport fails |
| TlsPrelogin.WrappedReachesPeer | src/tls.rs:171-176 | the flush sends type 0x12 packets of 4096 bytes, from which the peer's deframer and message decoder get the bytes back |
| TlsPrelogin.StalledFlushLeavesPeerWaiting | src/tls.rs:147-159 | after a stall the peer holds an unfinished message |
| Transaction.SendAgreed | src/connection.rs:157-168 | a request carries the current descriptor, is logged, and takes in the transaction change it causes |
| Transaction.SendLogs | src/connection.rs:157-168 | every request carries the descriptor the connection holds; an error response changes nothing on the connection, and a stale descriptor nothing on the server either |
| Transaction.LastChangeCounts | src/connection.rs:116-133 | after a response the descriptor is the one begun last or 0 after an end, and the packet size the one announced last, kept within 512..32767 and otherwise the nearer bound |
| Transaction.NoChangeKeeps | src/connection.rs:116-133 | without such a change descriptor and packet size stay |
| Transaction.FlushAgreed | src/connection.rs:186-193 | a queued rollback is sent once, always succeeds, and restores the store it names |
| Transaction.AgreementKept | src/transaction.rs:14-54 | every operation at every depth keeps connection and server in agreement and is sent with the right descriptor |
| Transaction.AgreementInEveryRun | src/connection.rs:116-193 | in every reachable state a transaction is open exactly when depth is positive or a full rollback is queued, and a queued savepoint rollback names an existing savepoint |
| Transaction.WhatIsSent | src/transaction.rs:14-54 | the exact batches of every operation: the queued rollback first, then BEGIN or SAVE, COMMIT, ROLLBACK, the statement, or the prepare with the unprepare of its handle; an inner commit, a rollback at depth zero and a drop send nothing |
| Transaction.HandleIsGivenBack | src/connection.rs:224-261 | an accepted prepare that returns a handle is the last request but one and the unprepare of exactly that handle the last; without a handle, or with an undecodable one, the prepare is the last request |
| Transaction.DepthAndQueue | src/transaction.rs:14-54 | depth and queue slot after every operation: deeper only on a successful begin, back on a successful commit or rollback and on a drop, and an empty slot after everything that sends |
| Transaction.StatementKeepsAgreementIff | src/protocol/query.rs:76-80 | a failing statement breaks agreement if and only if the server abandons an open transaction with it |
| Transaction.PrepareKeepsAgreementIff | src/connection.rs:224-261 | so does a prepare, whatever it returns |
| StatementHandles.FirstI32ReturnValue | src/connection.rs:415-426 | the first return value as a 32-bit number, none, or an error for NULL and everything that is no such number |
| StatementHandles.HandleArrives | src/connection.rs:415-426 | every 32-bit handle a server returns as an int arrives, a NULL one is an error |
| StatementHandles.DecimalHandleArrives | src/connection.rs:415-426 | so does a whole handle in any of the four decimal types, at every scale at which its digits fit |
| Atomicity.DurableStep | src/transaction.rs:28-36 | the durable store changes only at a commit at depth one or a statement sent with nothing open |
| Atomicity.InsideKeepsDurable | src/transaction.rs:14-54 | a run that stays inside a transaction leaves the durable store alone |
| Atomicity.DropsOnlyQueue | src/connection.rs:170-184 | dropping guards sends nothing; enough drops queue exactly one full rollback |
| Atomicity.QueuedRollbackComesFirst | src/connection.rs:186-193 | with a full rollback queued, the next begin, statement or prepare is preceded by one ROLLBACK and finds the durable store |
| Atomicity.AbandonedTransactionLeavesNoTrace | src/connection.rs:170-193 | the next begin, statement or prepare after an abandoned transaction is preceded by one ROLLBACK and sees the store as before the outermost begin, also when that begin found another rollback queued |
| Refinement.FlushLinked | src/connection.rs:186-193 | flushing a queued rollback keeps data and savepoints linked to the snapshot stack |
| Refinement.StepLinked | src/transaction.rs:14-54 | each guarded operation keeps the connection linked to a stack of snapshots with eager rollbacks |
| Refinement.GuardedRunsLinked | src/transaction.rs:14-54 | guarded runs show, after the flush, the specification's data after every operation |
| Refinement.ShallowRunsGuarded | src/transaction.rs:14-54 | runs that never exceed depth two are guarded |
| Refinement.ShallowRunsFaithful | src/connection.rs:152-193 | nested-transaction refinement for all runs of depth at most two, with immediate and queued rollbacks in any mix |
| NestingLimit.StampedRunsApart | src/transaction.rs:16-19 | with distinguishable data before each begin, a savepoint equals an inner level's snapshot only if it was set for it |
| NestingLimit.UnguardedRunsDiverge | src/transaction.rs:32-46 | every unguarded program has statements under which the driver shows other data than the specification |
| NestingLimit.NestingIsFaithfulIff | src/transaction.rs:14-54 | a program nests correctly for all statements if and only if it is guarded |
| NestingLimit.DepthThreeFails | src/transaction.rs:32-46 | a concrete depth-three run, on any fresh connection, after which the data seen are not the specification's |
| Connection.MssqlConnection.constructor | src/connection.rs:104-109 | a new connection has depth zero, nothing queued, and the login's changes applied |
| Connection.MssqlConnection.ApplyEnvChanges | src/connection.rs:116-133 | the loop folds the changes in order; an announced packet size within 512..32767 is kept, any other clamped |
| Connection.MssqlConnection.SendDirect | src/connection.rs:157-168 | one request with the descriptor held before it; an error response changes nothing on the connection |
| Connection.MssqlConnection.QueueRollbackNow | src/connection.rs:170-184 | the queue slot and the depth after dropping a transaction guard |
| Connection.MssqlConnection.FlushPendingRollback | src/connection.rs:186-193 | the slot is emptied before its batch is sent |
| Connection.MssqlConnection.RunSqlBatch | src/connection.rs:152-155 | the queued rollback goes first and its failure stops the batch |
| Connection.MssqlConnection.RunExecuteSql | src/connection.rs:195-222 | a statement is one request behind the flush |
| Connection.MssqlConnection.RunPrepare | src/connection.rs:224-261 | the prepare step of the state machine, whose requests HandleIsGivenBack lists: a refused prepare and an undecodable return value are errors, an accepted prepare is followed by an unprepare of exactly the handle |
| Connection.MssqlConnection.PingServer | src/connection.rs:310-318 | a ping only flushes |
| Connection.TransactionManager.Begin | src/transaction.rs:14-26 | BEGIN at depth zero, SAVE deeper, depth raised only on success |
| Connection.TransactionManager.Commit | src/transaction.rs:28-37 | COMMIT only at depth one; deeper commits only lower the depth |
| Connection.TransactionManager.Rollback | src/transaction.rs:39-50 | full ROLLBACK at depth one, savepoint ROLLBACK deeper |
| Connection.TransactionManager.StartRollback | src/transaction.rs:52-54 | queues instead of sending |
| EndToEnd.ResponseArrives | src/connection.rs:263-281 | however a response is cut into packets that fit, its payload reaches the parser whole |
| EndToEnd.ControlTextIsUnderstood | src/transaction.rs:14-50 | a server that reads a control batch word by word, verb, TRANSACTION and savepoint, carries out that very batch, and saving and rolling back name the same savepoint |
| EndToEnd.ControlTextsDiffer | src/transaction.rs:14-50 | the five control batches have different texts, so a server can tell them apart |
| EndToEnd.SendIsTheWire | src/connection.rs:157-168 | through framing, headers, text, token stream and environment changes, one SQL batch arrives as written and leaves the connection exactly where the state machine puts it, on success and on error |
| EndToEnd.ExecuteIsTheWire | src/connection.rs:195-222 | the same for a statement with arguments: the server sees the call with every argument |
| EndToEnd.PrepareIsTheWire | src/connection.rs:224-261 | the same for a whole prepare: what is done with the parsed response is the state machine's step, up to giving the handle back |
| EndToEnd.UnprepareIsTheWire | src/connection.rs:244-257 | the same for giving a handle back: the call is procedure 15 and the number in its one parameter decodes to the handle |
| TypeInfos.CodeRoundTrip | src/protocol/type_info.rs:39-95 | the byte of every data type names that type again |
| TypeInfos.CollationReadsBack | src/protocol/type_info.rs:796-818 | a collation with fields in range survives its 20/6/4-bit packing |
| TypeInfos.TypeInfoReadsBack | src/protocol/type_info.rs:119-221 | every TYPE_INFO the reader can express is read from its bytes, whatever follows it |
| TypeInfos.ReadTypeInfoIsCanonical | src/protocol/type_info.rs:119-221 | the reader produces no other TYPE_INFO |
| TypeInfos.ReadBigBlob | src/protocol/type_info.rs:395-419 | the chunk loop computes the concatenation up to the empty chunk |
| TypeInfos.AnyChunkingReadsBack | src/protocol/type_info.rs:395-419 | a blob of known or unknown length is the concatenation of its chunks for every chunking |
| TypeInfos.ChopJoins | src/arguments.rs:414-429 | the writers' chunks are at most 8192 bytes, never empty, and join to the value |
| TypeInfos.WritePlpValue | src/arguments.rs:414-429 | the parameter writer's loop emits exactly those chunks behind the length, or the NULL marker |
| TypeInfos.PutBigBlob | src/protocol/type_info.rs:531-551 | the other blob writer's loop emits the identical bytes for every value |
| TypeInfos.PlpReadsBack | src/protocol/type_info.rs:395-419 | reading inverts the blob writers for every byte string, the empty one and NULL |
| TypeInfos.PlpMarkers | src/protocol/type_info.rs:395-419 | eight bytes 0xff are NULL, and 0xfe in front of seven of them announce chunks of unknown total |
| TypeInfos.GetTypeInfoLocal | src/protocol/type_info.rs:119-221 | bytes behind a TYPE_INFO never influence it |
| TypeInfos.GetValueLocal | src/protocol/type_info.rs:315-393 | bytes behind a value never influence it |
| TypeCodes.FixedValues | src/protocol/type_info.rs:119-158 | each fixed type code is followed by exactly its one, two, four or eight value bytes, never NULL |
| TypeCodes.ByteCountedValues | src/protocol/type_info.rs:159-393 | by raw code: nullable numbers and the unique identifier, a length byte 0 or 0xff being NULL and any other counting the bytes |
| TypeCodes.LegacyTextValues | src/protocol/type_info.rs:159-393 | the old text and binary codes, of which only a length byte 0xff is NULL |
| TypeCodes.DecimalValues | src/protocol/type_info.rs:119-393 | the four decimal codes announce size, precision and scale in this order, their values a length byte |
| TypeCodes.TimedInfo | src/protocol/type_info.rs:139-168 | the codes 0x29 to 0x2b announce a scale of at most seven and thereby the size of their values; any other scale is refused |
| TypeCodes.TimedValues | src/protocol/type_info.rs:139-393 | their values behind a length byte |
| TypeCodes.BigValues | src/protocol/type_info.rs:119-393 | the big text and binary codes with their little-endian size, collation and two-byte value length, 0xffff being NULL |
| TypeCodes.OtherCodes | src/protocol/type_info.rs:119-221 | six codes are refused as unsupported, and every code outside the table as unknown |
| TypeCodes.HandleOnTheWire | src/connection.rs:415-426 | a handle byte by byte: type 0x26 of four bytes, a length of four, and the little-endian two's complement number |
| Arguments.WriteTypeInfo | src/arguments.rs:177-261 | appends the TYPE_INFO bytes, or fails on exactly the unsupported kinds and oversized lengths |
| Arguments.TypeInfoOnTheWire | src/arguments.rs:177-261 | the TYPE_INFO bytes of each kind, literally, and the kinds that have none |
| Arguments.ShortTypeInfoOnTheWire | src/arguments.rs:177-261 | text and binary types: code, little-endian size, and the default collation behind text |
| Arguments.DeclaredSizeHoldsValue | src/arguments.rs:380-412 | a size the caller fixed is kept; a computed one is the least above zero with room for the value, and is missing exactly when no 16-bit size has room |
| Arguments.WriteParamLenData | src/arguments.rs:263-309 | appends length and data, the NULL sentinel, or the blob |
| Arguments.WriteParameterWithStatus | src/arguments.rs:123-136 | appends name, status, type and value in that order |
| Arguments.TypeInfoBytesAgree | src/arguments.rs:177-261 | the parameter writer and the TYPE_INFO grammar agree byte for byte |
| Arguments.TypeInfoReadsBack | src/arguments.rs:177-261 | a written TYPE_INFO reads back as the wire type, or is refused exactly for a scale above 7 |
| Arguments.ParameterRoundTripIff | src/arguments.rs:177-309 | a written parameter reads back as the same type, size, scale, precision and bytes with exactly the suffix left, if and only if its scale is at most 7 and its length avoids the sentinels |
| Arguments.ReadableIsWritten | src/arguments.rs:177-309 | readable parameters of every supported kind are written |
| ArgumentList.DeclarationMatchesTypeInfo | src/arguments.rs:311-378 | each declaration is the rendering of the TYPE_INFO sent with it, up to the spelling of two type names |
| ArgumentList.MaxExactlyWhenBlob | src/arguments.rs:341-412 | the declaration text ends in (max) if and only if the size says blob, and then the value goes out as a blob; otherwise as a counted value or the NULL sentinel |
| ArgumentList.DigitsDenote | src/arguments.rs:311-367 | numbers in names and declarations are decimal: their digits denote the number, without leading zeros |
| ArgumentList.NamesDiffer | src/arguments.rs:49-56 | two parameters have the same name if and only if they have the same position |
| ArgumentList.DeclaredNames | src/arguments.rs:311-378 | the T-SQL type of each kind as text, with sizes in units for nvarchar and in bytes otherwise |
| ArgumentList.DeclarationPartReads | src/arguments.rs:49-70 | declaration k, taken apart at its blank, names parameter k + 1 and the argument's own type |
| ArgumentList.PartOfJoin | src/arguments.rs:49-70 | the declarations stand in order, one comma between each two of them |
| ArgumentList.MssqlArguments.constructor | src/arguments.rs:28-33 | an empty list |
| ArgumentList.MssqlArguments.AddParameter | src/arguments.rs:49-70 | a successful add extends data and declarations by one item, named by its position (NamesDiffer); it succeeds exactly when the item can be declared and written |
| ArgumentList.ParameterReadsBack | src/arguments.rs:123-136 | one parameter reads back as name, status, type and value |
| ArgumentList.ArgumentsReadBack | src/arguments.rs:49-70 | after any number of adds the data parses to exactly those parameters (SeenAt gives each), with nothing left over |
| ArgumentList.SeenAt | src/arguments.rs:49-70 | argument k is read back as an input named @p and k + 1, with its own type and its own bytes or NULL |
| Rpc.WriteAllHeaders | src/protocol/query.rs:106-112 | appends the 22 bytes of ALL_HEADERS |
| Rpc.AllHeadersReadBack | src/protocol/query.rs:106-112 | both lengths are right and the descriptor comes back whole |
| Rpc.BuildSqlBatchPacket | src/protocol/query.rs:34-47 | the UTF-16 loop builds headers and text, framed; only a bad packet size fails |
| Rpc.SqlBatchReadsBack | src/protocol/query.rs:34-47 | a server that deframes the batch finds the descriptor and exactly the SQL text |
| Rpc.WriteRpcHeader | src/protocol/rpc.rs:89-94 | appends headers, the procedure-id marker, the id and empty flags |
| Rpc.TextParameterIff | src/arguments.rs:138-146 | text is sent if and only if it has at most 32767 units, and then reads back |
| Rpc.IntParameterReadsBack | src/arguments.rs:108-121 | an output or input int reads back with its status and bits |
| Rpc.BuildExecuteSqlPacket | src/protocol/rpc.rs:15-37 | appends statement, declarations and argument data in order, stopping at the first failure |
| Rpc.ExecuteSqlReachesServer | src/protocol/rpc.rs:15-37 | built if and only if texts and packet size fit; the server then sees descriptor, procedure 10, statement, declarations and every argument |
| Rpc.ParameterDeclarations | src/protocol/rpc.rs:96-111 | the loop joins one declaration per type, failing exactly if some type has none |
| Rpc.BuildPreparePacket | src/protocol/rpc.rs:39-68 | appends handle, declarations or NULL, statement and option in order |
| Rpc.PrepareReachesServer | src/protocol/rpc.rs:39-68 | built if and only if everything fits; the server then sees procedure 11 with those four parameters |
| Rpc.BuildUnpreparePacket | src/protocol/rpc.rs:70-87 | appends the handle's 32-bit pattern |
| Rpc.UnprepareReachesServer | src/protocol/rpc.rs:70-87 | the server sees procedure 15 with exactly the handle, negative ones too |
| RpcCalls.ExecuteSqlByName | src/protocol/rpc.rs:15-37 | in the message of type 3 a server finds procedure 10, the statement, the comma-joined declarations and each argument under its own number, and without arguments the statement alone |
| RpcCalls.PrepareByName | src/protocol/rpc.rs:39-68 | procedure 11 with an output int 0, the declarations or NULL, the statement and the option 1 |
| RpcCalls.UnprepareByName | src/protocol/rpc.rs:70-87 | procedure 15 whose one parameter decodes to the handle, negative ones too |
| RpcCalls.PreparedAsWidest | src/arguments.rs:155-175 | a prepare declares each parameter, by position, as an execution declares the widest value of its kind; it fails for exactly the same kinds |
| Rows.RowGet | src/protocol/row.rs:12-43 | the column loop computes the column-by-column reading |
| Rows.GetRow | src/protocol/row.rs:12-43 | a row has one value for each column or is not read |
| Rows.CellReadsBack | src/protocol/type_info.rs:315-393 | every value or NULL a layout can express reads back, under each of the six layouts |
| Rows.RowReadsBack | src/protocol/row.rs:24-40 | a ROW decodes to exactly its values and consumes exactly its bytes, for any number of columns |
| Rows.NbcRowReadsBack | src/protocol/row.rs:18-40 | so does an NBCROW under any bitmap that marks its nulls, whatever the padding bits |
| Rows.FormsAgree | src/protocol/row.rs:18-40 | where both forms exist they decode to equal rows |
| Rows.BitmapMarks | src/protocol/row.rs:27-28 | every list of values has such a bitmap, eight columns a byte, lowest bit first |
| Rows.LowestBitFirst | src/protocol/row.rs:27-28 | bit j of byte k, counted from the lowest, is what marks column 8k + j |
| Rows.GetRowLocal | src/protocol/row.rs:12-43 | bytes behind a row never influence it |
| EnvChanges.DecimalParses | src/protocol/token.rs:247-253 | the decimal text of every 32-bit number parses to it |
| EnvChanges.EnvChangeReadsBack | src/protocol/token.rs:240-265 | every environment change is understood, whatever old value follows it |
| EnvChanges.ServerErrorReadsBack | src/protocol/token.rs:219-238 | an ERROR body is reported with all its fields |
| Query.ColMetaDataGet | src/protocol/col_meta_data.rs:29-47 | the counted loop computes the column list; 0xffff means none |
| Query.ParseQueryResponse | src/protocol/query.rs:49-104 | the token loop computes the token-by-token reading |
| Query.TokenLocal | src/protocol/query.rs:57-95 | bytes behind a token never influence it |
| Query.ParseAppend | src/protocol/query.rs:49-104 | running the loop on a followed by b is running a, then b, when a ends at a token boundary |
| Query.StopsAtFirstError | src/protocol/query.rs:76-80 | an ERROR token ends the response with its own error, whatever follows |
| Query.RowsStayComplete | src/protocol/row.rs:24-42 | on arbitrary input every row has as many values as columns, and rows are only appended |
| Query.CountedIff | src/protocol/done.rs:23-36 | a row count counts exactly when bit 16 of the status is set |
| Query.UnknownTokenStops | src/protocol/query.rs:91-95 | any token but the eleven known ones ends the response with an error that names it |
| Query.NumberWidths | src/protocol/type_info.rs:581-593 | integers are read at the widths 1, 2, 4, 8 and floats at 4, 8, and nothing else |
| QueryStream.DescribedReadsBack | src/protocol/col_meta_data.rs:51-63 | a described column reads back with its type and name |
| QueryStream.ReturnHeadReadsBack | src/protocol/return_value.rs:30-52 | a return value's fixed fields are skipped whole |
| QueryStream.DoneReadsBack | src/protocol/done.rs:14-20 | a DONE token reads back |
| QueryStream.TokenReadsBack | src/protocol/query.rs:57-95 | each well-formed token has exactly its own effect and leaves what follows |
| QueryStream.StreamIsSummarised | src/protocol/query.rs:49-104 | for every well-formed token stream: rows in order with the columns in force, return values and changes in order, latest columns, sum of the counted DONE tokens |
| QueryStream.StreamWithError | src/protocol/query.rs:76-80 | the first ERROR after well-formed tokens is the result, whatever follows it |
| LoginResponses.ParseTokens | src/protocol/token.rs:140-165 | the loop reads every token before any is interpreted |
| LoginResponses.ParseLoginResponse | src/protocol/token.rs:168-192 | the first ERROR anywhere wins; otherwise the last acknowledgement with all changes, provided a DONE is there |
| LoginResponses.AckReadsBack | src/protocol/token.rs:194-213 | a LOGINACK body reads back, its version big-endian |
| LoginResponses.ResponseUnderstood | src/protocol/token.rs:140-192 | every legal login response is understood as the tokens in it, INFO skipped |
| LoginResponses.FirstErrorDecides | src/protocol/token.rs:168-192 | a login fails with the first ERROR sent, wherever it stands |
| LoginResponses.LoginSucceedsIff | src/protocol/token.rs:168-192 | without an ERROR it succeeds if and only if an acknowledgement and a DONE were sent, with the last acknowledgement and the changes in the order sent; what is missing is named |
| PreLogin.AssembleOptions | src/protocol/pre_login.rs:60-106 | the loops build table and data, or fail exactly on size or a terminator option |
| PreLogin.ParseOptions | src/protocol/pre_login.rs:109-138 | the entry loop computes the entry-by-entry reading up to the first terminator byte |
| PreLogin.EntriesReadBack | src/protocol/pre_login.rs:121-137 | offsets and lengths of an assembled table select exactly each option's data |
| PreLogin.AssembledParsesIff | src/protocol/pre_login.rs:109-138 | an assembled message parses to the same list if and only if no offset or length byte is 0xff, and otherwise gives a truncated table |
| PreLogin.OptionOnTheWire | src/protocol/pre_login.rs:60-106 | the five table bytes of each option, code, big-endian offset and big-endian length, select its data, and the table ends in 0xff |
| PreLogin.ShortMessagesRoundTrip | src/protocol/pre_login.rs:60-138 | every message shorter than 255 bytes round trips |
| PreLogin.BuildPreLoginPayload | src/protocol/pre_login.rs:162-188 | assembles version, encryption, MARS and the optional instance |
| PreLogin.ClientMessageIff | src/protocol/pre_login.rs:162-188 | the client's message exists if and only if the instance name fits, and parses back if and only if its length avoids 0xff bytes |
| PreLogin.LongInstanceNameFails | src/protocol/pre_login.rs:109-117 | a concrete instance name of 254 bytes whose message is built and then refused as truncated |
| PreLogin.EncryptionChoiceArrives | src/protocol/pre_login.rs:204-213 | the first encryption option of an answer is the choice reported |
| PreLogin.ClientMessageByName | src/protocol/pre_login.rs:162-188 | the client's message literally: a version of six zeros, the encryption byte 0 to 3, no MARS, the instance name with a closing zero, and nothing else |
| PreLogin.ClientChoiceArrives | src/protocol/pre_login.rs:162-213 | a server that parses the client's message gets the client's choice of encryption |
| Login7.ObfuscationInverts | src/protocol/login.rs:144-148 | undoing the mask and the nibble swap gives every password byte back |
| Login7.ObfuscatedBits | src/protocol/login.rs:144-148 | the eight bits of an obfuscated byte, given the eight bits it came from |
| Login7.EncodeUtf16Le | src/protocol/login.rs:137-151 | UTF-16 bytes, each rewritten in place for a password |
| Login7.Login7Fields.constructor | src/protocol/login.rs:109-114 | no field yet, next offset 94 |
| Login7.Login7Fields.PushText | src/protocol/login.rs:116-134 | appends the field at the next offset, or leaves everything as it was, with the right one of two errors |
| Login7.BuildLogin7Payload | src/protocol/login.rs:15-68 | the payload, whose bytes LoginFieldsByName and LoginConstants give, or the error of the first field that does not fit |
| Login7.NoErrorIff | src/protocol/login.rs:121-130 | no field fails if and only if 94 plus two bytes per unit is at most 65535 |
| Login7.FieldsAreContiguous | src/protocol/login.rs:18-55 | the fields follow each other without gap or overlap from byte 94 to the end |
| Login7.LoginPayloadReadsBack | src/protocol/login.rs:15-68 | the first word is the payload's length and each descriptor gives its field back, the password included; which option is which field is LoginFieldsByName |
| Login7.LoginBuildsIff | src/protocol/login.rs:15-68 | a login is built if and only if its eight texts and the 94 fixed bytes take at most 65535 bytes, and is that long |
| Login7.LoginFieldsByName | src/protocol/login.rs:18-59 | the descriptors at bytes 36, 40, 48, 52, 60, 64 and 68 give host, user, application, server, interface, language and database name unit by unit, the one at 44 the password under the mask |
| Login7.LoginConstants | src/protocol/login.rs:38-62 | version, flags, zeros, the unused descriptor, the client id and the closing descriptors, byte by byte |
| Login7.LoginNumbersReadBack | src/protocol/login.rs:31-42 | length, version, packet size, program version and process id arrive in their places |
| Login7.ClosingDescriptorsEmpty | src/protocol/login.rs:27-62 | the three descriptors behind the client id are empty and point at the end of the payload |
| Numeric.NumericBytesIff | src/decimal_tools.rs:19-38 | exactly the strings of a sign byte 0 or 1 and at most 16 more bytes decode, each other one with its own error, and sign and magnitude give the bytes back |
| Numeric.NumericBytesReadBack | src/decimal_tools.rs:19-38 | every magnitude that fits its bytes decodes to itself with its sign |
| Numeric.DecodeNumericInteger | src/value.rs:123-137 | sign times the quotient by 10^scale towards zero, failing exactly above i64::MAX; the power overflows 128 bits exactly when scale exceeds 38 and the numerator is no multiple of 10^(scale-38) |
| Numeric.NumericIntegerMeans | src/value.rs:123-137 | the integer v of a numeric: the magnitude lies between v and v + 1 times 10^scale, and a sign byte 0 is negative |
| Numeric.PowerFitsIff | src/value.rs:131-133 | exactly the powers of ten up to the 38th fit in 128 bits |
| Numeric.DecodeInteger | src/value.rs:103-121 | a numeric by its scale, anything else by its length |
| Numeric.IntegerRoundTrip | src/value.rs:110-120 | unsigned bytes and two's-complement integers of 2, 4 and 8 bytes decode to themselves; every other length is an error |
| Numeric.WholeNumericReadsBack | src/value.rs:103-137 | a whole number sent as a numeric of any scale up to 38 decodes to itself if its digits fit |
| Numeric.MoneyRoundTrip | src/decimal_tools.rs:3-17 | every 64-bit amount survives the high-half-first layout and every 32-bit one the short layout; every other length is an error |
| Numeric.MoneyOnTheWire | src/decimal_tools.rs:3-17 | the eight bytes of an amount: signed high half first, low byte first in each half |
| Numeric.BigDecimalRoundTripIff | src/types.rs:130-182 | the decoded number equals the encoded one if and only if it is zero, or its exponent is in range and its scaled digits fit in 128 bits |
| DateTime.I24RoundTripIff | src/types.rs:533-545 | a day number survives if and only if it fits in 24 bits with its sign |
| DateTime.CalendarEnds | src/types.rs:533-545 | the first day of year 1 is sent as 0 and the last of year 9999 as 3652058 by both libraries' encoders; the other is at lines 631-636 |
| DateTime.EncodersAgree | src/types.rs:547-566 | chrono and time put the same datetime2 bytes on the wire; the other encoder is at lines 638-659 |
| DateTime.Accumulate | src/types.rs:570-574 | the shift loop holds the little-endian number modulo 2^64 |
| DateTime.DecodeChronoTime | src/types.rs:568-582 | the moment MomentOf gives the accumulated count, which MomentAtEveryScale and MomentIff fix at every scale |
| DateTime.DecodeTimeTime | src/types.rs:669-685 | hour, minute, second and nanosecond of the same moment, which MomentAtEveryScale and MomentIff fix at every scale |
| DateTime.MomentAtEveryScale | src/types.rs:568-582 | at every scale, a count of seconds and a fraction decodes to exactly these seconds and this fraction of one in nanoseconds |
| DateTime.MomentIff | src/types.rs:576-581 | a count decodes if and only if it is less than a day's at its scale |
| DateTime.TimeSizeIsMinimal | src/protocol/type_info.rs:139-168 | the bytes of a time at each scale are the fewest that hold every moment of a day |
| DateTime.DateTime2AtEveryScale | src/types.rs:591-596 | so is a datetime2 of every scale: its day, its seconds and its fraction |
| DateTime.DateTimeOffsetAtEveryScale | src/types.rs:620-629 | and a datetimeoffset, its offset in minutes behind them |
| DateTime.ScalingNeverOverflows | src/types.rs:576-578 | for each scale and the data size its TYPE_INFO fixes, the 64-bit scaling does not overflow |
| DateTime.TicksFit | src/types.rs:552-558 | every time of day, leap seconds too, fits in 40 bits |
| DateTime.TimeRoundTripIff | src/types.rs:552-582 | a time comes back cut to 100 ns if and only if it is not inside a leap second |
| DateTime.DateTime2RoundTripIff | src/types.rs:560-596 | datetime2 comes back, cut to 100 ns, if and only if the day fits 24 bits and there is no leap second |
| DateTime.OffsetReadsBack | src/types.rs:330-331 | the offset's minutes, cut towards zero, survive and differ from it by less than a minute |
| DateTime.DateTimeOffsetKeepsInstant | src/types.rs:324-334 | the UTC instant survives to 100 ns; the offset keeps whole minutes, towards zero |

## Left out

- Sockets, the TLS library, certificates, async scheduling and cancellation: the transport is a byte sequence with an
  adversarial schedule; a read may answer Pending any finite number of times.
- Transport and encoding failures of control batches, and a connection used after such a failure.
- Custom begin texts and transaction SQL sent by the user: the state machine has the operation, the run theorems
  exclude it. They also exclude requests on which the server abandons the transaction; the exact effect of such a
  request on agreement is stated instead. A failing statement that leaves part of its work behind is included.
- Giving a statement handle back is taken to succeed on the server.
- Transaction.FlushAgreed: is stated for a connection in agreement with its server, which every run of the excluded
  kinds can end.
- MssqlArguments.AddParameter: does not say which bytes a failed add leaves in the buffer and the declarations; the
  original bumps the length and may leave part of the item behind.
- Query.ParseQueryResponse: the row counter wraps at 2^64 as an optimised build does; a debug build stops instead.
- Numeric.DecodeNumericInteger: the 128-bit power overflow is an error value here; the original stops or wraps,
  depending on the build.
- DateTime.DecodeChronoTime: the 64-bit overflow of overlong data is an error value here, likewise.
- EnvChanges.EnvChangeReadsBack: text is a sequence of 16-bit units, so invalid UTF-16 is not an error in this model.
- TypeInfos.GetTypeInfoLocal: says nothing about failed reads, which more bytes may turn into successful ones.
- Numeric.BigDecimalRoundTripIff: exponents are unbounded integers; the one exponent whose negation overflows 64 bits
  is not treated apart.
- Memory limits: a declared blob length up to 2^63 - 1 is taken to be reservable; above, the reader fails.
- The TYPE_INFO module's own `put` and its value writers other than the blob one, which only its tests call (`put`
  writes a size byte for the date type that the reader does not expect); floating point, JSON
  and UUID values; the `rust_decimal` codec; the old datetime and smalldatetime types; calendar limits of the date
  libraries (a date is a day number).
- A handshake packet without payload makes `poll_read` answer empty, which a TLS layer may take for the end of the
  stream; the model shows when that happens, not what the layer makes of it.
- Encryption negotiation, the instance lookup over UDP, URL options, migrations and the adapter types: easier than
  what is here or outside the driver.
