# Model of the Rust Firebird client

A Dafny model of the parts of rsfbclient in which a mistake would be hardest to see: the unframed
byte protocol of the pure-Rust client, and the arithmetic, ciphers and state machines around it.
Every property is proved for all inputs, all runs or all ways the bytes can arrive.

`dafny verify dfyconfig.toml` checks the whole project.

## How the model is laid out

| file | models |
|---|---|
| Util.dfy | byte cursor and buffer, integers, length-prefixed bytes |
| Wire.dfy | status vectors and generic responses |
| NullBitmap.dfy, Rows.dfy | null bitmaps, decoding of rows |
| Client.dfy | the response parsers, with their lazy count, and their prefix stability |
| Session.dfy | the socket, the connection and `read_with` |
| SessionRuns.dfy | runs of calls on one connection, and exactly when they stay aligned |
| Fetch.dfy | batched fetching against a cursor on the server |
| Xsqlda.dfy, Prepare.dfy | column descriptions that arrive in truncated pieces |
| Blr.dfy, Blobs.dfy | statement parameters and blobs |
| Columns.dfy | batches whose rows hold blobs |
| Srp.dfy, Arc4.dfy | key agreement and stream cipher |
| DateTime.dfy | day numbers and times of day |
| Events.dfy | event blocks and the event channel |
| Connection.dfy | the default transaction of a connection |
| Savepoints.dfy | nested transactions of the diesel backend, on top of Connection.dfy |
| NamedParams.dfy | rewriting of named parameters |
| StmtCache.dfy | the cache of prepared statements |

## How to read it

A parser has two faces. A function says what it makes of the bytes that are left: a value and
the unconsumed bytes, a request for more bytes, or an error. A method on a cursor consumes those
bytes in place and is proved to agree with the function. Parsers that skip lazy replies carry
the lazy count along.

The socket is the byte sequence the peer has sent; a read hands out any non-empty piece of it.
The server is a parameter: whatever it sends for a request comes into the call that makes the
request. A method on the connection says what it leaves of `pending` followed by the unread bytes.

Objects the source updates in place are classes here; their methods are proved against functions
on values, and the properties over runs are lemmas about those functions.

## Where the code does not do what one would expect

Each of these is proved, with the exact condition where there is one.

- A lazy reply that is an error is reported as the error of the next request, whose own reply is
  then left uncounted, and so is the reply to a preparation whose allocation failed
  (`RequestKeepsAlignmentIff`, `PrepareKeepsAlignmentIff`, `FetchKeepsAlignmentIff`). With
  uncounted replies every call is given the reply of an earlier one, a `free_statement` included
  (`UncountedRepliesShiftTheRun`, `UncountedReplyShiftsTheRun`); their number
  never falls, and it grows by those the calls leave behind, so without batch fetches the session
  is never aligned again (`RunOnQueue`, `LostCountStaysLost`).
- `execute2` reads its final response without an op code. If the server sends one, everything is
  read shifted (`Execute2ReadsShifted`), and without keepalives and data what happens hangs on the
  low word of the object id (`Execute2HonoursEndIff`, `Execute2KeepsAlignmentIff`).
- When the server cuts a batch of rows short with an error, the rows in front of the error are
  lost, which fetching one row at a time would have delivered (`FetchBatch`, `FetchRow`). When a
  blob cannot be read, its row and all later ones of the batch are lost, and the rows in front of it
  are delivered after the error, the end of the cursor behind them (`FetchWholeBatch`).
- An error is taken for a success when it reports one code whose text is a bare newline
  (rsfbclient-rust/src/consts.rs:326), or only its first argument and that is empty
  (rsfbclient-rust/src/consts.rs:268), and never otherwise (`ErrorIsHiddenIff`).
- The comment at rsfbclient-core/src/date_time.rs:23 is off by one: day -678882 does not survive,
  -678881 is the first that does; and from 95067189 on `decode_date` stops the client
  (`EncodeUndoesDecodeIff`, `DecodeStopsAfterLast`).
- `powm` returns 1 for modulus 1 and exponent 0 (`Powm`).
- `calc_key` reduces an exponent modulo N; in the group in use it never exceeds N, in others the
  secrets can differ (`KeysAgreeIff`, `HashesAreSmall`, `ReducedExponentMatters`).
- After a wrapped stream takes only part of a write, the next bytes arrive garbled unless the key
  stream repeats itself (`NextWriteArrivesIff`, `ShortWriteGarbles`).
- The writes of a block whose commit or rollback is refused are committed by the next successful
  call (`RefusedBlockIsCommittedLater`); `begin_transaction_config` ignores its configuration when
  there is a default transaction (`RequestedConfigurationIff`).
- When the rollback of an outermost diesel transaction is refused, the manager reports itself
  broken to every begin, commit and rollback, but the next accepted write commits the refused block
  with it; a next write that fails loses the block (`BrokenCommitsIff`, `BrokenRun`,
  `RefusedRollbackIsCommitted`).
- `insert_and_close` drops the least recently used statement without closing it when a new key
  meets a full cache (`ClosingLosesIff`).
- With 32768 parameters or more the field count of the message wraps in a release build
  (`DescriptionReadIff`); a debug build stops there when the doubled 16-bit count overflows.
- `get_segment` returns true when there is no more data; its comment says the opposite
  (rsfbclient-rust/src/client.rs:1148).
- Named parameters are also found in quoted identifiers and comments, a single quote in one of
  these hides parameters behind it, and a question mark of the statement itself gets a value too
  few (`RewritingPreservesMeaningIff`, `QuoteFreeStatementIff`, `NameInIdentifier`,
  `QuoteInIdentifier`).

## Main results

- One request: however the bytes arrive, a result is that of the whole stream
  (`FirebirdWireConnection.ReadWith`), and every run keeps the session aligned (`RunStaysAligned`),
  exactly under the conditions of `RequestKeepsAlignmentIff`, `PrepareKeepsAlignmentIff` and
  `FetchKeepsAlignmentIff`; otherwise it stays lost (`LostCountStaysLost`).
- Server errors: exactly which status vectors are taken for a success (`ErrorIsHiddenIff`).
- Results: rows round trip in both protocols, to values spelled out for every type (`RowRoundTrip`); fetching gives every row once and in
  order, with the exact conditions under which it fails (`FetchRow`, `FetchAll`, `FetchWholeBatch`).
- Statements: truncated descriptions are completed, and columns coerced by their class
  (`PrepareStatement`); a server that follows the description of a message finds every parameter in
  it (`ParamsToBlr`, `MessageRead`, `DescriptionReadIff`).
- Names: rewriting keeps the meaning of a statement under an exact condition on the statement
  (`RewritingPreservesMeaningIff`).
- Transactions: every run of a connection in which explicit ends are accepted, whatever else fails
  (`RunRefines`), and what a refused end does (`RefusedEndMatchesIff`); every run of the diesel
  manager on top of it, whatever is refused (`CallsMeet`, `BrokenCommitsIff`); a block that is rolled
  back leaves no trace (`RollbackRestoresBegin`).
- Dates: the closed form counts days, and exactly which numbers survive 32-bit decoding
  (`EncodeRefinesCounting`, `EncodeUndoesDecodeIff`).
- Keys and ciphers: exactly when client and server agree (`KeysAgreeIff`), key and proof being those
  of the server (`ProcessReply`), which key stream is produced (`KeySetupMeans`, `Arc4.Next`), and
  when what was written is read back (`ChunkedReadsDecrypt`, `ReadBackIff`).
- Events: blocks and packets round trip, and the channel finds the event waited for
  (`BlockRoundTrip`, `EventChannel.RecvEvent`).
- Statement cache: every statement is cached, handed out or lost, exactly once, and exactly when it is
  lost (`RunConserves`, `InsertingConserves`, `ClosingLosesIff`).

## Model

| member | source | states |
|---|---|---|
| Session.FirebirdWireConnection.ReadWith | rsfbclient-rust/src/client.rs:1206-1249 | for every prefix-stable parser and every way the peer cuts its bytes into reads: the result is that of parsing the whole stream at once, `pending` plus the unread bytes is exactly what that parse leaves, the lazy count is rolled back on an underflow, and the loop ends |
| Session.FirebirdWireConnection.FreeStatement | rsfbclient-rust/src/client.rs:881-893 | the session stays aligned with one more reply outstanding; nothing is read |
| Session.FirebirdWireConnection.Request | rsfbclient-rust/src/client.rs:1333-1348 | when the outstanding lazy replies succeed, the caller gets its own reply, success or server error, and no byte of it or of the lazy replies is left |
| Session.FirebirdWireConnection.Prepare | rsfbclient-rust/src/client.rs:786-822 | when the outstanding lazy replies and the allocation succeed, the caller gets the allocated handle with the reply to the preparation, or the error of the preparation, and no byte of either reply or of the lazy replies is left |
| Session.FirebirdWireConnection.Execute2 | rsfbclient-rust/src/client.rs:965-1001 | the result and the bytes left are those of parsing the whole stream at once; over succeeding lazy replies every generic response in the place of the row gives its server error, or, if it reports none, an error naming its op code, and leaves the session aligned with nothing outstanding |
| Session.FrameRoundTrip | rsfbclient-rust/src/client.rs:1252-1260 | behind any number of keepalives a reply is found, and exactly its bytes are consumed, whether it reports an error or not |
| Session.SkipLazyReplies | rsfbclient-rust/src/client.rs:1263-1277 | exactly the counted lazy replies are skipped, keepalives between them included |
| Session.SkipLazyStopsAtError | rsfbclient-rust/src/client.rs:1270-1271 | the first lazy reply that fails ends the skipping with its error; what is behind it is unread, and the count is that of the lazy replies behind it |
| Session.RequestGetsItsReply | rsfbclient-rust/src/client.rs:1333-1348 | over any outstanding lazy replies that succeed, the outcome is that of the own reply and the stream is empty afterwards |
| Session.PrepareGetsItsReplies | rsfbclient-rust/src/client.rs:794-822 | over any outstanding lazy replies that succeed, and after an allocation that does, the outcome is the allocated handle with the data of the preparation, or the error of the preparation, and the stream is empty afterwards |
| Session.Execute2GetsItsError | rsfbclient-rust/src/client.rs:983-989 | behind any succeeding lazy replies a generic response in the place of the row of `execute2` is consumed to its end whatever follows, and its error is the result, or an error naming op code 9 if it reports none |
| Session.OtherAnswerIsRejected | rsfbclient-rust/src/client.rs:1263-1348 | behind any succeeding lazy replies and keepalives, a packet of a kind that does not answer the request is an error naming its op code, which is all that is consumed of it, for `read_response`, a preparation, `execute2` and a fetch |
| Session.OtherPrepareIsRejected | rsfbclient-rust/src/client.rs:812-818 | the same in the place of the reply to a preparation, behind that to the allocation |
| Session.OtherLazyIsRejected | rsfbclient-rust/src/client.rs:1263-1277 | in the place of a lazy reply any other packet is an error naming its op code; the lazy reply it stands for and those behind it stay counted |
| SessionRuns.RunStaysAligned | rsfbclient-rust/src/client.rs:1184-1277 | session invariant over every run of `free_statement`, requests, preparations and batch fetches, any of which the server may answer with an error: every call gets its own answer, and the stream is always exactly the outstanding lazy replies, as many as the lazy count |
| SessionRuns.StepStaysAligned | rsfbclient-rust/src/client.rs:1184-1277 | one call, answered with an error or not, a batch cut short included, keeps the session aligned and gets its own answer |
| SessionRuns.RequestKeepsAlignmentIff | rsfbclient-rust/src/client.rs:1263-1277 | a request leaves the session aligned if and only if no outstanding lazy reply is an error |
| SessionRuns.PrepareKeepsAlignmentIff | rsfbclient-rust/src/client.rs:806-821 | a preparation leaves the session aligned if and only if no outstanding lazy reply and not the reply to the allocation is an error |
| SessionRuns.FailedLazyReplyIsReported | rsfbclient-rust/src/client.rs:1270-1271 | the error of a lazy reply is reported as that of the next request, whose own reply stays unread and uncounted |
| SessionRuns.FailedAllocIsReported | rsfbclient-rust/src/client.rs:812 | a failed allocation leaves the reply to the preparation unread and uncounted |
| SessionRuns.FetchKeepsAlignmentIff | rsfbclient-rust/src/client.rs:1060-1092 | a batch fetch leaves the session aligned if and only if no outstanding lazy reply is an error; a batch the server cuts short with an error does not matter |
| SessionRuns.FailedLazyReplyEndsFetch | rsfbclient-rust/src/client.rs:1060-1092 | a failing lazy reply is reported as the error of the fetch, and the whole batch stays unread and uncounted |
| SessionRuns.Trailing | rsfbclient-rust/src/client.rs:1263-1277 | a stream that goes on behind the counted replies is not aligned, whatever follows |
| SessionRuns.UncountedFrame | rsfbclient-rust/src/client.rs:1263-1277 | a stream with one reply more than the lazy count cannot be read as an aligned one |
| SessionRuns.StepOnQueue | rsfbclient-rust/src/client.rs:1184-1277 | on any stream of whole replies, errors among them, with any number of them counted: which reply `free_statement`, a request or a preparation takes for its own, and which replies it leaves and counts |
| SessionRuns.RunOnQueue | rsfbclient-rust/src/client.rs:1184-1277 | over every run of `free_statement`, requests and preparations, from any stream of whole replies with any number of them counted: no reply is split, and the number of uncounted replies grows by exactly those the calls leave behind: all their own replies when a counted reply is an error, one when the reply taken for that to an allocation is |
| SessionRuns.QueueIsAlignedIff | rsfbclient-rust/src/client.rs:1263-1277 | a stream of whole replies is aligned if and only if all of them are counted |
| SessionRuns.LostCountStaysLost | rsfbclient-rust/src/client.rs:1184-1277 | over every run of `free_statement`, requests and preparations the session is aligned at the end if and only if it was at the start and no call left a reply uncounted: nothing ever repairs a lost count |
| SessionRuns.UncountedRepliesShiftTheRun | rsfbclient-rust/src/client.rs:1184-1277 | with any number of uncounted replies, over every run of `free_statement`, requests and preparations each call is given the replies that many places before its own, and as many stay uncounted, as long as no reply taken for one to `free_statement` or to an allocation is an error |
| SessionRuns.UncountedReplyShiftsTheRun | rsfbclient-rust/src/client.rs:1333-1348 | once one reply is uncounted, over every run of `free_statement` and requests each request gets the reply of the call directly before it, and one reply stays uncounted, as long as no reply taken for one to `free_statement` is an error |
| SessionRuns.FrameCountIsUnique | rsfbclient-rust/src/client.rs:1252-1277 | a byte string is made of one number of replies only |
| SessionRuns.Execute2ReadsBareResponse | rsfbclient-rust/src/client.rs:990-999 | what `execute2` reads is a row followed by a response without an op code |
| SessionRuns.Execute2ReadsShifted | rsfbclient-rust/src/client.rs:990-999 | if the final response of `execute2` carries its op code, everything is read shifted by one word, and by one more for each keepalive: for every response with any data and keepalives, whatever follows, and behind any succeeding lazy replies, what exactly comes of it; the fourth word is taken for the length of the data |
| SessionRuns.Execute2ByLowWord | rsfbclient-rust/src/client.rs:990-999 | what `execute2` makes of a final response that has an op code, no keepalive and no data: at a low word of the object id of 0 the row is returned whatever the status says and the status vector stays in the stream; from 1 to 4 the response is honoured and consumed; above 4 one without errors is waited for in vain |
| SessionRuns.Execute2HonoursEndIff | rsfbclient-rust/src/client.rs:990-999 | a final response of `execute2` that has an op code, no keepalive and no data is honoured and consumed, whatever its status and whatever follows, if and only if the low word of its object id is 1 to 4 |
| SessionRuns.Execute2KeepsAlignmentIff | rsfbclient-rust/src/client.rs:965-1001 | after an `execute2` whose final response has an op code, no keepalive and no data, the session is aligned whatever the status if and only if the low word of the object id is 1 to 4; at 0 it never is |
| Client.NextOpStable | rsfbclient-rust/src/client.rs:1252-1260 | prefix stability: bytes arriving later change neither the op code nor where it ends |
| Client.SkipFromStable | rsfbclient-rust/src/client.rs:1263-1277 | prefix stability of the loop over lazy replies |
| Client.SkipLazyStable | rsfbclient-rust/src/client.rs:1263-1277 | prefix stability: once the parser has decided, bytes arriving later change neither its decision nor what it consumed |
| Client.ReplyStable | rsfbclient-rust/src/client.rs:1333-1348 | prefix stability: once the parser has decided, bytes arriving later change neither its decision nor what it consumed |
| Client.PrepareStable | rsfbclient-rust/src/client.rs:806-821 | prefix stability: once the parser has decided, bytes arriving later change neither its decision nor what it consumed |
| Client.Execute2Stable | rsfbclient-rust/src/client.rs:983-1000 | prefix stability: once the parser has decided, bytes arriving later change neither its decision nor what it consumed |
| Client.FetchStable | rsfbclient-rust/src/client.rs:1281-1330 | prefix stability: once the parser has decided, bytes arriving later change neither its decision nor what it consumed |
| Fetch.ReadBatchMessages | rsfbclient-rust/src/client.rs:1060-1092 | the loop over the messages of a batch does to the whole stream what the batch parser does |
| Fetch.RequestBatch | rsfbclient-rust/src/client.rs:1046-1092 | the whole answer to one request for rows is read over the outstanding lazy replies, and what comes of it is its rows with the end mark or the error that cuts it short; the session stays aligned |
| Fetch.FetchBatch | rsfbclient-rust/src/client.rs:1040-1106 | one batch of the server ends up in the queue, none of its rows lost, doubled or reordered; if the server cuts it short, its error is returned and exactly the rows in front of it are lost, none if and only if there were none; the session stays aligned in both cases |
| Fetch.FetchRow | rsfbclient-rust/src/client.rs:1019-1036 | each call returns the next row of the result, then none for good; exactly when it fails, with which error and which rows: none after a thousand empty batches, those of the batch when the server cuts one short |
| Fetch.Execute | rsfbclient-rust/src/client.rs:896-940 | after a successful execution the rows to come are exactly those of this execution, whatever was queued before; a wrong number of parameters changes nothing |
| Fetch.FetchAll | src/connection/mod.rs:340-360 | reading to the end or the first failure gives rows of the result in order, once each, and all of them if and only if no batch is cut short and no thousand empty ones follow each other |
| Fetch.BatchRoundTrip | rsfbclient-rust/src/client.rs:1060-1092 | behind any succeeding lazy replies exactly the bytes of the answer are consumed; its rows come back, or the error that cuts it short |
| Fetch.RowMsgRoundTrip | rsfbclient-rust/src/client.rs:1281-1330 | a row message is read back and consumed exactly |
| Fetch.EndRoundTrip | rsfbclient-rust/src/client.rs:1290-1320 | the end of a batch, of the cursor and an error in their place are consumed exactly and told apart |
| Fetch.SurplusRowIsRefused | rsfbclient-rust/src/client.rs:1060-1092 | one row more than was asked for ends the batch with an error, and exactly what is behind that row is left |
| Wire.ParseStatusVector | rsfbclient-rust/src/wire.rs:988-1065 | agrees with the specification: items consumed, sql code, message substitution, error exactly when a message is left |
| Wire.StatusStable | rsfbclient-rust/src/wire.rs:988-1065 | prefix stability of the status loop |
| Wire.ResponseStable | rsfbclient-rust/src/wire.rs:702-715 | prefix stability: once the parser has decided, bytes arriving later change neither its decision nor what it consumed |
| Wire.StatusRoundTrip | rsfbclient-rust/src/wire.rs:988-1065 | reading an encoded vector consumes exactly it and reports what its items add up to |
| Wire.ResponseRoundTrip | rsfbclient-rust/src/wire.rs:702-715 | an encoded reply comes back whole or as its error, and exactly its bytes are consumed in both cases |
| Wire.QuietVectorSucceeds | rsfbclient-rust/src/wire.rs:1050-1064 | a vector that adds no text is a success |
| Wire.ErrorIsHiddenIff | rsfbclient-rust/src/wire.rs:988-1065 | over all vectors with texts as in the table: taken for a success if and only if it has no words and reports no code, or one whose text is a bare newline, or its first argument and that comes out empty |
| Wire.SolidTextIsReported | rsfbclient-rust/src/wire.rs:988-1065 | for every table: one character besides the at sign, digits and newlines in a code text or interpreted text makes the vector an error, whatever the arguments |
| Wire.TwoNewlinesAreReported | rsfbclient-rust/src/wire.rs:1054-1064 | a message with two newlines is an error whatever follows, since one is dropped |
| Wire.LoneCodeIsHiddenIff | rsfbclient-rust/src/wire.rs:1003-1064 | for every table: a code without arguments is lost if and only if its text is empty or a bare newline |
| Wire.EmptyArgumentHidesErrorIff | rsfbclient-rust/src/wire.rs:1023-1064 | a code that reports only its argument is lost if and only if the argument is empty |
| Wire.MessageIs | rsfbclient-rust/src/wire.rs:1003-1042 | the text of a code goes behind the message so far, and the arguments behind the code take the places of `@1`, `@2` and so on in the whole message; an interpreted text goes behind it as it is; a zero code and an sql state change no text |
| Wire.SqlCodeIs | rsfbclient-rust/src/wire.rs:990-1021 | the sql code of an error is the last number that stands behind code 335544436 with no other code between them, and -1 if there is none |
| Wire.VerdictMeans | rsfbclient-rust/src/wire.rs:1053-1064 | no error if and only if the message is empty or a bare newline; otherwise the error has the sql code and the message without one newline at its end |
| Wire.UnknownItemIsRefused | rsfbclient-rust/src/wire.rs:1045-1049 | an item of an unknown kind ends the reading with an error, whatever came before |
| Wire.ReplaceMeans | rsfbclient-rust/src/wire.rs:1019-1029 | substitution replaces every place of the pattern from the left on, and nothing else |
| Wire.DecimalMeans | rsfbclient-rust/src/wire.rs:1012-1020 | a number argument is written with its decimal digits without leading zeros, behind a sign if it is negative |
| Util.WireBytesRoundTrip | rsfbclient-rust/src/util.rs:86-104 | `get_wire_bytes` undoes `put_wire_bytes`, padding included, and stops exactly behind it |
| Util.WireBytesStable | rsfbclient-rust/src/util.rs:86-104 | prefix stability: once the parser has decided, bytes arriving later change neither its decision nor what it consumed |
| Util.BigEndianInverse | rsfbclient-rust/src/util.rs:120-160 | big-endian digits of any width determine the number |
| Util.LittleEndianInverse | rsfbclient-rust/src/util.rs:113-146 | little-endian digits of any width determine the number |
| Util.WordValues | rsfbclient-rust/src/util.rs:113-153 | byte by byte what words of two, four and eight bytes are, big endian or little endian |
| Util.TwosComplement | rsfbclient-rust/src/util.rs:134-160 | a signed number is sent as itself modulo 2^32 or 2^64 and comes back |
| Rows.RowRoundTrip | rsfbclient-rust/src/wire.rs:737-926 | for every column list, null pattern and both protocol layouts, decoding consumes exactly the row, and what comes back is, column by column, the name and type of the description without its null bit, and no value if the indicator is set; otherwise the decoded text, the number, the eight bytes, date and time, true exactly for a flag of 1, or the id of the blob, binary exactly for subtype 0 |
| Rows.CellRoundTrip | rsfbclient-rust/src/wire.rs:779-915 | for every column type, null or not, and both protocol layouts, decoding consumes exactly one value with its indicator, and what comes back is what the value stands for: name, type without the null bit, null exactly if the indicator is set, and otherwise the decoded text, the number, the bytes of the float, date and time, the flag, or the blob id with its kind by subtype |
| Rows.UnsupportedIsRefused | rsfbclient-rust/src/wire.rs:779-915 | a column type is refused, by its number, if and only if the decoder has no arm for it |
| Rows.UndecodableTextIsRefused | rsfbclient-rust/src/wire.rs:795-815 | a text that is not null and cannot be decoded is an error, in both layouts |
| Rows.NoRowIsRefused | rsfbclient-rust/src/wire.rs:737-747 | a message that announces no row is an error |
| Rows.RowStable | rsfbclient-rust/src/wire.rs:737-926 | prefix stability of row decoding |
| Rows.ColumnsStable | rsfbclient-rust/src/wire.rs:779-922 | prefix stability of the loop over the columns |
| NullBitmap.PutNullBitmap | rsfbclient-rust/src/blr.rs:140-152 | the folds over chunks of 32 append exactly the bitmap |
| NullBitmap.BitmapLength | rsfbclient-rust/src/wire.rs:748-756 | the writer produces, for every number of values, as many bytes as the reader computes |
| NullBitmap.BitmapAgreement | rsfbclient-rust/src/wire.rs:768-777 | bit i % 8 of byte i / 8 is set if and only if value i is null, through little-endian words |
| NullBitmap.WordExtends | rsfbclient-rust/src/blr.rs:142-148 | or-ing a bit in extends the word by that bit and changes no other |
| NullBitmap.BitsAreBinary | rsfbclient-rust/src/blr.rs:142-148 | bit k is the binary digit of 2^k, and or-ing it in adds 2^k unless it is there |
| NullBitmap.ByteOfWord | rsfbclient-rust/src/blr.rs:151 | each byte of a little-endian word holds its eight bits in place |
| Blr.ParamsToBlr | rsfbclient-rust/src/blr.rs:18-133 | fails if and only if something is wrong with a parameter, with the error of the first one; otherwise, for fewer than 32768 parameters, a server that reads the values by the fields of the description finds for every parameter what it is: the integer, the bytes of the float, date and time, the flag, an absent value for null, the encoded text if it has at most 32767 bytes, and for a longer text or binary data the id of a stored blob that holds exactly these bytes |
| Blr.PutParam | rsfbclient-rust/src/blr.rs:63-120 | appends type and value of one parameter, and what is appended stands for it: the number, bytes, flag or encoded text itself, no value for null, and for a text over 32767 bytes or binary data the id of the blob that was stored with exactly these bytes; or returns its error |
| Blr.ConvertParams | rsfbclient-rust/src/blr.rs:18-133 | the loop writes description and values of all parameters in order, header, null bitmap and end marks around them, and stores the blobs in order, or returns the error of the first parameter that cannot be converted |
| Blr.ContentArrives | rsfbclient-rust/src/blr.rs:63-120 | what a parameter is sent as, by its kind: an integer as that number, a float as its bytes, a timestamp as its two numbers, a boolean as a flag, null as no value, a text as its encoding up to 32767 bytes, and anything longer and binary data as the id of the blob with these bytes |
| Blr.ContentsOkIff | rsfbclient-rust/src/blr.rs:63-131 | the conversion fails if and only if a text cannot be encoded or a blob cannot be stored, and the first such parameter decides |
| Blr.HandleBlob | rsfbclient-rust/src/blr.rs:43-61 | the data is stored once and its id put into the message |
| Blr.MessageRead | rsfbclient-rust/src/blr.rs:18-133 | in both protocols a server that follows the description reads from the values exactly what was put in, nulls included, and stops where the message ends |
| Blr.DescriptionReadIff | rsfbclient-rust/src/blr.rs:34 | the server finds the described fields if and only if there are fewer than 32768 parameters: the 16-bit field count wraps |
| Blr.ContentMeans | rsfbclient-rust/src/blr.rs:63-120 | each field holds the content of its own parameter, and a blob id belongs to the blob with the data of that parameter, however many others needed blobs |
| Blr.MessageAligned | rsfbclient-rust/src/blr.rs:63-120 | the values always end on a multiple of four bytes |
| Blobs.PutSegments | rsfbclient-rust/src/client.rs:1122-1132 | the segments sent are the data in order, none empty, none over the limit, all but the last full |
| Blobs.JoinSegments | rsfbclient-rust/src/client.rs:1157-1168 | the loop agrees with the segment specification, cut segments and a stray byte included |
| Blobs.SegmentsRoundTrip | rsfbclient-rust/src/client.rs:1157-1168 | the segments of a reply are put together again |
| Blobs.GetSegment | rsfbclient-rust/src/client.rs:1149-1171 | data and end mark of one reply, the session aligned |
| Blobs.SegmentOutcomeMeans | rsfbclient-rust/src/client.rs:1149-1171 | one reply gives the server error, or the data of its segments, being the last if and only if its handle is 2, or the error of a segment cut short |
| Blobs.CutSegments | rsfbclient-rust/src/client.rs:1157-1168 | behind any whole segments: one that is shorter than its length says is an error, a single byte is passed over |
| Blobs.ReadSegmentsOf | rsfbclient-rust/src/wire.rs:960-970 | the loop collects the data of all answers, or returns the error of the last; the session stays aligned |
| Blobs.CollectedIsContent | rsfbclient-rust/src/wire.rs:960-970 | however the server cuts a blob into segments and answers, the whole blob is collected |
| Blobs.BlobMeans | rsfbclient-rust/src/wire.rs:945-970 | a blob is its whole content if opening, all answers and closing succeed, and otherwise the failure that comes first |
| Blobs.ReadBlob | rsfbclient-rust/src/wire.rs:945-984 | opening, segments, closing: the content, or the first failure; the session stays aligned in every case |
| Columns.IntoColumn | rsfbclient-rust/src/wire.rs:945-984 | a parsed column becomes a column; a blob column gets the whole content of its blob, as bytes or as text, or the first failure; the session stays aligned |
| Columns.ColumnOutcomeMeans | rsfbclient-rust/src/wire.rs:945-984 | a complete column stays what it is; a blob column has its name, the blob type and the content of its blob, as bytes if it is binary and as the decoded text if not; it fails if and only if the blob cannot be read or the text not be decoded |
| Columns.IntoColumns | rsfbclient-rust/src/client.rs:1097-1101 | the columns of a row in order, or the failure of the first that fails |
| Columns.RowOutcomeMeans | rsfbclient-rust/src/client.rs:1097-1101 | a row is all its columns in order, or the failure of the first that fails |
| Columns.IntoRows | rsfbclient-rust/src/client.rs:1096-1103 | exactly the rows in front of the first one with a blob that cannot be read go into the queue, in order, and that failure is returned |
| Columns.FetchWholeBatch | rsfbclient-rust/src/client.rs:1040-1106 | a batch with its blobs: cut short by the server, all its rows are lost and the end mark stays; otherwise the end mark is set, and when a blob cannot be read exactly the rows from that one on are lost, while the rows in front of it stay queued behind the error; nothing is lost if and only if all blobs are read; the session stays aligned in every case |
| Xsqlda.ItemsRoundTrip | rsfbclient-rust/src/xsqlda.rs:243-399 | encoded items are read back and folded into the vector, up to the end or truncation mark |
| Xsqlda.HeaderRead | rsfbclient-rust/src/xsqlda.rs:175-240 | the header is accepted if and only if the low byte of its statement type is 1 to 14 and there are at most 1024 columns; then statement type and parameter count are those of the header and the columns are read behind it |
| Xsqlda.PartFills | rsfbclient-rust/src/xsqlda.rs:243-399 | a description of columns from a given one on, cut after any item, completes all columns before the last one begun and touches none before the first |
| Xsqlda.PartOfColumn | rsfbclient-rust/src/xsqlda.rs:243-399 | a column described in part is in the vector once, as what its items make of the entry that was there or of an empty one; entries before it are untouched, and a complete one is that of the column |
| Xsqlda.CutToShort | rsfbclient-rust/src/xsqlda.rs:270-320 | numbers are cut to 16 bits: they stay the same modulo 65536 |
| Xsqlda.StrayItemIsRefused | rsfbclient-rust/src/xsqlda.rs:243-399 | a number or a name before any column was begun is an error |
| Xsqlda.GapIsRefused | rsfbclient-rust/src/xsqlda.rs:255-320 | in a release build an index that skips a column is not an error itself, but the next number or name is; a debug build stops at the index |
| Xsqlda.BadItemIsRefused | rsfbclient-rust/src/xsqlda.rs:243-399 | an index of zero and an item of an unknown kind are errors |
| Xsqlda.BrokenHeaderIsRefused | rsfbclient-rust/src/xsqlda.rs:175-240 | a description without a statement type in front or a section of parameters behind it is refused |
| Xsqlda.BodyGivesVar | rsfbclient-rust/src/xsqlda.rs:243-399 | the items of a column give its entry, whatever the entry held before |
| Xsqlda.ReplyRead | rsfbclient-rust/src/xsqlda.rs:175-399 | what one reply, cut anywhere, adds to the vector |
| Prepare.PrepareStatement | rsfbclient-rust/src/client.rs:779-878 | for every way the server truncates its description, the loop ends with each column described once and completely and then coerced by its class: texts to variable length; exact numbers to 64-bit integers if their scale is 0 and to floating point otherwise, the scale then 0; approximate numbers to floating point; dates, times and timestamps to timestamps; blobs of subtype up to 1 and booleans as they are; the null bit set, names and subtype untouched; refused if and only if a column is in no class; or with the error of the request the server refuses; the session stays aligned |
| Prepare.PrepareFirst | rsfbclient-rust/src/client.rs:786-833 | the first reply fills the vector from nothing |
| Prepare.DescribeMore | rsfbclient-rust/src/client.rs:835-859 | a further request names the last column begun and completes it |
| Prepare.CoerceColumns | rsfbclient-rust/src/xsqlda.rs:63-113 | every column becomes what its class asks for, or the first column in no class decides the error: texts become SQL_VARYING, exact numbers SQL_INT64 or with a scale SQL_DOUBLE, approximate ones SQL_DOUBLE, dates and times SQL_TIMESTAMP, small blobs and booleans stay |
| Prepare.CoerceMeans | rsfbclient-rust/src/xsqlda.rs:63-113 | one column: accepted if and only if its type is in a class, refused by its type otherwise; the new type by class, the null bit set, the scale 0 where a scaled number becomes floating point, names, owner, subtype and null indicator untouched |
| Prepare.CoercedColumnsDecode | rsfbclient-rust/src/xsqlda.rs:63-113 | coercion accepts every type the row decoder reads and gives only such types; coercing twice changes nothing |
| Srp.Powm | rsfbclient-rust/src/srp.rs:176-192 | square-and-multiply is base^exp mod modulus if and only if not both modulus is 1 and exp is 0 |
| Srp.NewClient | rsfbclient-rust/src/srp.rs:64-74 | the public value is g^a mod N |
| Srp.SubtractionUndone | rsfbclient-rust/src/srp.rs:87-91 | the two-branch subtraction is subtraction modulo N |
| Srp.CalcKey | rsfbclient-rust/src/srp.rs:77-95 | the loops compute the client secret |
| Srp.KeysAgreeIff | rsfbclient-rust/src/srp.rs:77-95 | for every group, all secrets and every public value B that is right modulo N, client secret and server secret of section 2.6 of RFC 5054 are equal if and only if g^(b (a + (u x mod N))) and g^(b (a + u x)) are the same modulo N |
| Srp.KeysAgree | rsfbclient-rust/src/srp.rs:77-95 | client secret and server secret are equal for every group and all secrets with u * x < N |
| Srp.ServerExponent | rsfbclient-rust/src/srp.rs:77-95 | the server secret is g^((a + u x) b) mod N |
| Srp.ClientSecretIs | rsfbclient-rust/src/srp.rs:83-94 | for every public value B that is right modulo N the client secret is g^(b (a + (u x mod N))) mod N |
| Srp.HashesAreSmall | rsfbclient-rust/src/srp.rs:93 | in the group in use the bound on u * x always holds |
| Srp.ReducedExponentMatters | rsfbclient-rust/src/srp.rs:93 | without the bound the secrets can differ: a concrete group |
| Srp.ProcessReply | rsfbclient-rust/src/srp.rs:98-154 | a public value is refused if and only if it is zero modulo N; otherwise the key is the hash of the client secret, and the proof that of H(N)^H(g) mod N, the hash of the user, the salt, the own public value, the one received and the key, in this order; with the group in use and a server that follows the protocol both are what the server computes from its own secret and its own record of the login |
| DateTime.EncodeCountsDays | rsfbclient-core/src/date_time.rs:54-71 | the day after a date has the next number |
| DateTime.EncodeRefinesCounting | rsfbclient-core/src/date_time.rs:54-71 | the closed form equals counting day by day under the Gregorian leap rule |
| DateTime.YearLengths | rsfbclient-core/src/date_time.rs:54-71 | years have 365 days, and 366 exactly by the leap rule |
| DateTime.EncodeIsMonotone | rsfbclient-core/src/date_time.rs:54-71 | numbers are ordered as dates are, both ways |
| DateTime.CountingIsMonotone | rsfbclient-core/src/date_time.rs:54-71 | later days have later dates |
| DateTime.BaseDate | rsfbclient-core/src/date_time.rs:10-22 | 1858-11-17 is day 0 |
| DateTime.DecodeUndoesEncode | rsfbclient-core/src/date_time.rs:24-71 | every date of the date type from 0000-03-01 on survives encoding and decoding on 32-bit integers, in debug and release builds |
| DateTime.DecodeUndoesEncodeIff | rsfbclient-core/src/date_time.rs:24-71 | a date of the date type survives encoding and decoding on 32-bit integers if and only if it is not before 0000-03-01 |
| DateTime.EncodeUndoesDecode | rsfbclient-core/src/date_time.rs:24-71 | from -678881 to 95067188, the last day of the date type, decoding on 32-bit integers gives the date counted day by day and encoding gives the number back |
| DateTime.EncodeUndoesDecodeIff | rsfbclient-core/src/date_time.rs:24-71 | a 32-bit number survives decoding and encoding if and only if it is from -678881 to 95067188, in debug and release builds; -678882, which the comment names, decodes to the same date as its successor |
| DateTime.DecodeStopsAfterLast | rsfbclient-core/src/date_time.rs:24-51 | for every number above 95067188 a debug build stops: on an overflow where 4 * nday does not fit, otherwise on a date out of range |
| DateTime.DecodeFailsBeforeOrigin | rsfbclient-core/src/date_time.rs:24-51 | no number below -678881 survives the truncating divisions |
| DateTime.DatesFitI32 | rsfbclient-core/src/date_time.rs:54-71 | no date of the date type is encoded beyond 32 bits or to a number that decoding overflows on |
| DateTime.EncodeUndoesDecodeTime | rsfbclient-core/src/date_time.rs:74-98 | a number decodes to a time of day if and only if it is below the fractions in a day, and is always given back |
| DateTime.DecodeUndoesEncodeTimeIff | rsfbclient-core/src/date_time.rs:74-98 | a time survives if and only if it lies on a tenth of a millisecond and is not a leap second |
| DateTime.TimeRefinesCounting | rsfbclient-core/src/date_time.rs:74-98 | decoding a number is counting that many tenths of a millisecond from midnight on, seconds, minutes and hours carrying over, and encoding gives the number back |
| Arc4.Arc4.constructor | rsfbclient-rust/src/arc4.rs:16-34 | key setup in place: the state is that of the key schedule, a permutation (`Arc4.KeySetupMeans` says which) |
| Arc4.Arc4.Next | rsfbclient-rust/src/arc4.rs:36-42 | one step in place: i moves by 1 and j by the entry at i, modulo 256, the entries at both are exchanged and nothing else, and the output is the entry at the sum of the two |
| Arc4.Arc4.Process | rsfbclient-rust/src/arc4.rs:44-49 | the output is the input under the key stream, which advances by its length |
| Arc4.KeySetupMeans | rsfbclient-rust/src/arc4.rs:16-34 | the state after key setup is what 256 turns make of the numbers 0 to 255 in order: in turn k the index moves by the entry k and the key byte k modulo the key length, and the entries at k and at the index are exchanged |
| Arc4.StepMeans | rsfbclient-rust/src/arc4.rs:36-42 | one step on values: both indexes modulo 256, which two entries are exchanged, all others in place, and which entry is the key byte |
| Arc4.XorIsBitwise | rsfbclient-rust/src/arc4.rs:47 | each bit of the combined byte is set if and only if the two bits differ |
| Arc4.KeySetupIsPermutation | rsfbclient-rust/src/arc4.rs:16-34 | the state is a permutation of 0..255 after key setup |
| Arc4.AdvanceKeepsPermutation | rsfbclient-rust/src/arc4.rs:36-42 | the state is a permutation of 0..255 after any number of steps |
| Arc4.CryptConcat | rsfbclient-rust/src/arc4.rs:44-49 | processing a concatenation is processing the pieces in turn |
| Arc4.CryptTwice | rsfbclient-rust/src/arc4.rs:44-49 | encrypting twice from the same state gives the plaintext back |
| Arc4.XorTwice | rsfbclient-rust/src/arc4.rs:47 | combining twice with the same byte gives the byte back |
| Arc4.ChunkedReadsDecrypt | rsfbclient-rust/src/arc4.rs:78-95 | however the ciphertext is cut into reads, the plaintext comes out |
| Arc4.ReaderSeesWriter | rsfbclient-rust/src/arc4.rs:78-113 | a reader has what the writer with the same key wrote, as far as it has arrived |
| Arc4.Arc4Stream.Read | rsfbclient-rust/src/arc4.rs:78-95 | what has been handed out is the decryption of what has been read, for every chunk size |
| Arc4.Arc4Stream.Write | rsfbclient-rust/src/arc4.rs:97-113 | what is sent is what is reported as written, each byte encrypted with the key byte at a recorded position; the position moves on by all that was offered, so it stays that of the data if and only if the wrapped stream took everything |
| Arc4.ReadBackIff | rsfbclient-rust/src/arc4.rs:78-113 | over any writes: a reader gets back what was written if and only if every byte met the same key byte on both sides |
| Arc4.NextWriteArrivesIff | rsfbclient-rust/src/arc4.rs:97-113 | after a write that came short, the next bytes arrive as written if and only if the key stream repeats itself at that distance |
| Arc4.ShortWriteGarbles | rsfbclient-rust/src/arc4.rs:97-113 | a concrete key with which the byte after a short write arrives changed |
| Arc4.XorUndoneIff | rsfbclient-rust/src/arc4.rs:47 | what was combined with one byte comes back with another if and only if they are the same |
| Savepoints.FbConnection.Begin | rsfbclient-diesel/src/fb/transaction.rs:43-60 | new state of manager, connection and savepoints, and the error: the first level opens a block of the connection, each further one sets a savepoint named by its depth; a refusal changes nothing, and a broken manager is reported |
| Savepoints.FbConnection.Rollback | rsfbclient-diesel/src/fb/transaction.rs:62-90 | new state and error: the outermost level ends the block of the connection, whatever the server answers, an inner one goes back to its savepoint; a refusal breaks the manager, and after one of the outermost level the writes of the block stay in the default transaction |
| Savepoints.FbConnection.Commit | rsfbclient-diesel/src/fb/transaction.rs:92-141 | new state and error: an inner commit releases nothing; an outermost one ends the block of the connection, and if it is refused a rollback follows, whose refusal breaks the manager and leaves the writes in the default transaction |
| Savepoints.FbConnection.Execute | rsfbclient-diesel/src/fb/connection.rs:21-81 | a statement goes to the connection whatever the manager believes: inside a block of the connection it waits, outside one the connection commits it together with all that waits, or all that waits is gone |
| Savepoints.StepSimulates | rsfbclient-diesel/src/fb/transaction.rs:43-141 | without refusals every step of the manager on its connection keeps the simulation against an ideal stack of snapshots, and fails exactly when there is no level to close |
| Savepoints.RunSimulates | rsfbclient-diesel/src/fb/transaction.rs:43-141 | the simulation against the stack of snapshots over every run without refusals |
| Savepoints.CallMeets | rsfbclient-diesel/src/fb/transaction.rs:43-141 | one call, whatever the server says to its requests: what is committed, what waits and what is reported are those of the stack of snapshots, or, once a rollback was refused, of the connection that is left behind |
| Savepoints.CallsMeet | rsfbclient-diesel/src/fb/transaction.rs:43-141 | over every run, whichever requests the server refuses: what is committed, what waits and what every call reports; until a rollback is refused it is the stack of snapshots, a refused begin changing nothing and a refused outermost commit rolling back; after a refused inner rollback writes wait forever, after a refused outermost one they are committed |
| Savepoints.BreaksIff | rsfbclient-diesel/src/fb/transaction.rs:62-141 | the manager breaks if and only if a rollback is refused while a level is open, either asked for or following a refused outermost commit; the connection then still is in its block if and only if that level was an inner one, and holds the writes it held |
| Savepoints.BrokenRun | rsfbclient-diesel/src/fb/connection.rs:21-81 | every run of calls on a broken manager, accepted or refused: after a refused inner rollback nothing is ever committed and the accepted writes wait; after a refused outermost one the accepted writes are committed in order, behind the writes of the refused block if the first write is accepted and without them if not; each call but a write reports the broken manager |
| Savepoints.BrokenCommitsIff | rsfbclient-diesel/src/fb/connection.rs:21-81 | after the break anything is committed if and only if a write is accepted and the refused rollback was that of the outermost level; the whole refused block is committed with it if and only if the block was empty or the first write is accepted |
| Savepoints.RefusedRollbackIsCommitted | rsfbclient-diesel/src/fb/transaction.rs:62-90 | a concrete run: begin, a write, a refused rollback, a commit that reports the broken manager, a write; both writes are committed |
| Savepoints.TopSavepoint | rsfbclient-diesel/src/fb/transaction.rs:68-76 | the reused name finds the savepoint of the open level, not a leftover of a closed one |
| Savepoints.RolledBackBlockVanishes | rsfbclient-diesel/src/fb/transaction.rs:62-90 | in the ideal a well-nested block that is rolled back leaves no trace |
| Savepoints.RollbackRestoresBegin | rsfbclient-diesel/src/fb/transaction.rs:62-90 | a well-nested block that is rolled back leaves the database and the depth as they were at its begin, although inner commits release nothing and names are reused |
| Savepoints.RefusedCommitIsUndone | rsfbclient-diesel/src/fb/transaction.rs:112-138 | an outermost block whose commit is refused and whose rollback is accepted is undone and reported |
| Connection.Connection.Take | src/connection/mod.rs:186-200 | the default transaction is taken out, or a new one begun |
| Connection.Connection.RunClosure | src/connection/mod.rs:186-220 | the writes of the closure, its returns to savepoints and its own retaining operations take effect in order |
| Connection.Connection.WithTransaction | src/connection/mod.rs:186-220 | state and error are those of the specification, and the only live transaction is the default one |
| Connection.Connection.DropTransaction | src/transaction/mod.rs:89-92 | the transaction is rolled back, or leaked if the server refuses |
| Connection.Connection.Retaining | src/transaction/mod.rs:58-66 | commits or undoes what the transaction holds and keeps it |
| Connection.Connection.BeginTransaction | src/connection/mod.rs:262-271 | opens a block on the existing or a new default transaction |
| Connection.Connection.EndBlock | src/connection/mod.rs:274-285 | ends the block whatever the server answers |
| Connection.Connection.Execute | src/connection/mod.rs:410-428 | one statement, committed on its own outside a block |
| Connection.Connection.Close | src/connection/mod.rs:162-173 | nothing is committed on the way out and no transaction stays alive unless its rollback failed |
| Connection.StepRefines | src/connection/mod.rs:186-285 | each call does to the database what an application expects, unless it is a refused commit or rollback |
| Connection.RunRefines | src/connection/mod.rs:186-285 | over every run: committed state is the successful calls outside blocks and the committed blocks, in order |
| Connection.RefusedEndMatchesIff | src/connection/mod.rs:274-285 | after a refused commit or rollback the connection is where the application believes if and only if the block was empty |
| Connection.RefusedBlockIsCommittedLater | src/connection/mod.rs:274-285 | the writes of a refused block are committed by the next successful call outside a block |
| Connection.ActAllWrites | src/connection/mod.rs:225-248 | a closure commits exactly the writes before its own retaining commits and leaves the rest |
| Connection.CallReports | src/connection/mod.rs:186-285 | what every call reports and leaves: a refused begin, a refused end outside a block or of an explicit one, or the failure of the closure, in this order; the configuration of the default transaction; and whether a block is open |
| NamedParams.Parse | rsfbclient-core/src/params.rs:253-277 | both passes, replacing and collecting, compute what one left-to-right scan gives |
| NamedParams.FirstMeans | rsfbclient-core/src/params.rs:253-262 | what the expression finds at a position: from a quote up to and with the next one, from a colon the longest run of word characters if there is one, otherwise the character |
| NamedParams.Convert | rsfbclient-core/src/params.rs:289-312 | one value for each name in order, or the first name without a value |
| NamedParams.JoinOfScan | rsfbclient-core/src/params.rs:254-262 | the scan loses no character |
| NamedParams.ScanOfRewritten | rsfbclient-core/src/params.rs:253-277 | to the client the rewritten statement has the same literals and characters, with a question mark for each parameter |
| NamedParams.ParseIsIdempotent | rsfbclient-core/src/params.rs:253-277 | parsing again changes nothing and finds no names |
| NamedParams.RewritingPreservesMeaningIff | rsfbclient-core/src/params.rs:253-312 | against a server that knows literals, quoted identifiers and comments, for every statement and all values: putting the i-th value at the i-th place equals replacing each name by its value if and only if the parameters the client finds start at exactly the offsets where the parameters are, and the statement has no question mark of its own |
| NamedParams.RewritingsOf | rsfbclient-core/src/params.rs:253-277 | two ways to find parameters in one statement rewrite it to the same text if and only if they find them at the same offsets, and then the names are the same |
| NamedParams.QuoteFreeStatementIff | rsfbclient-core/src/params.rs:253-312 | corollary for statements without single quotes in identifiers and comments: the meaning is preserved if and only if these hold no `:name` and there is no question mark outside them and literals |
| NamedParams.ServerScanOfRewritten | rsfbclient-core/src/params.rs:253-277 | to the server the rewriting of such a scanner has the tokens of the original, with a question mark for each parameter |
| NamedParams.NameInIdentifier | rsfbclient-core/src/params.rs:253-277 | a name in a quoted identifier is rewritten although the server has no place there: a concrete statement |
| NamedParams.QuoteInIdentifier | rsfbclient-core/src/params.rs:253-277 | a single quote in an identifier hides a parameter behind it: a concrete statement |
| NamedParams.SubstitutionsAgree | rsfbclient-core/src/params.rs:253-312 | on one list of tokens, substituting by position in the rewriting is substituting by name |
| NamedParams.ValuesFitIff | rsfbclient-core/src/params.rs:253-277 | for every statement in which the client finds the parameters where they are: the server gets as many values as it has places if and only if the statement has no question mark outside literals, identifiers and comments |
| Events.EventBlock | rsfbclient-rust/src/events.rs:105-130 | the block, or the error of the first name that cannot be sent, or of the length |
| Events.ParseEventBlock | rsfbclient-rust/src/events.rs:137-169 | agrees with the specification on every byte string, malformed ones included |
| Events.EventCount | rsfbclient-rust/src/events.rs:172-183 | the first counter of the name; fails if and only if there is none |
| Events.EntriesRoundTrip | rsfbclient-rust/src/events.rs:105-169 | entries are read back with trimmed names and their counters |
| Events.BlockRoundTrip | rsfbclient-rust/src/events.rs:105-169 | every block that can be built is parsed back, also after the padded wire format |
| Events.EntriesOkIff | rsfbclient-rust/src/events.rs:63-100 | the entries can be built if and only if every name can be sent |
| Events.NameOkIff | rsfbclient-rust/src/events.rs:63-100 | a name can be sent if and only if without its blanks at the end it is not empty, can be encoded and has at most 255 bytes then; which error otherwise; the encoding is sent |
| Events.BlockOkIff | rsfbclient-rust/src/events.rs:105-130 | a block can be built if and only if every name can be sent and it has at most 65535 bytes; the first bad name decides the error, then the length |
| Events.BadBlockIsRefused | rsfbclient-rust/src/events.rs:137-169 | an empty block, one of another version, one that breaks off inside an entry and one with a name that cannot be decoded are refused, whatever entries come before |
| Events.PacketRoundTrip | rsfbclient-rust/src/events.rs:389-414 | the computed length 12 + padded block + 12 is exactly what the parser consumes |
| Events.NextPacketIs | rsfbclient-rust/src/events.rs:367-414 | keepalives are skipped and the next event packet is split off exactly |
| Events.FirstEventIsReceived | rsfbclient-rust/src/events.rs:356-364 | the block of the first packet with the id is returned and the stream left at the next packet |
| Events.OthersArePassedOver | rsfbclient-rust/src/events.rs:356-414 | keepalives and events of other ids change nothing: what comes of the stream is what comes of it behind them, a refused packet an error and a cut one not enough |
| Events.OtherPacketIsRefused | rsfbclient-rust/src/events.rs:367-414 | two op codes by which the server takes leave, any other op code that is no keepalive and no event, and a block over 65535 bytes end the channel, each with its error |
| Events.EventChannel.Fill | rsfbclient-rust/src/events.rs:427-443 | reads until enough is there, for any chunking; fails if and only if the peer has sent less; loses no byte |
| Events.EventChannel.RecvPacket | rsfbclient-rust/src/events.rs:367-414 | the next packet of the whole stream, or its refusal |
| Events.EventChannel.RecvEvent | rsfbclient-rust/src/events.rs:356-364 | the counters of the first event with the id on the whole stream, for any chunking, and the stream left behind it; a stream that breaks off ends in a closed connection |
| Events.PacketIsComplete | rsfbclient-rust/src/events.rs:399-412 | a packet that was split off always parses |
| Events.IdsCycle | rsfbclient-rust/src/client.rs:618-624 | event ids run through 1 to 2^32 - 1, skip zero, and do not repeat before |
| StmtCache.StmtCache.Get | src/connection/stmt_cache.rs:36-44 | a hit leaves cache and key set together; the `unwrap` cannot fail |
| StmtCache.StmtCache.Insert | src/connection/stmt_cache.rs:48-75 | cache, key set and displaced statement are those of the specification |
| StmtCache.StmtCache.InsertAndClose | src/connection/stmt_cache.rs:101-113 | the key is put into the set before the statement into the map; cache, key set and displaced statement are those of the specification |
| StmtCache.StmtCache.GetOrPrepare | src/connection/stmt_cache.rs:84-97 | a cached statement if and only if the key is cached, otherwise a prepared one |
| StmtCache.RunConserves | src/connection/stmt_cache.rs:36-113 | over every run at any capacity: keys are in the set, the size stays within capacity, and every statement is cached, handed out or lost, exactly once |
| StmtCache.GetsAndInsertsLoseNothing | src/connection/stmt_cache.rs:36-75 | over every run of `get` and `insert` with capacity at least 1 nothing is lost and the set is exactly the keys |
| StmtCache.InsertingConserves | src/connection/stmt_cache.rs:48-75 | an insert loses a statement if and only if the key is new to a full map and already in the set, or the capacity is 0 |
| StmtCache.ClosingLosesIff | src/connection/stmt_cache.rs:101-113 | `insert_and_close` loses the least recently used statement, unclosed, if and only if the key is new and the cache full |
| StmtCache.TakingConserves | src/connection/stmt_cache.rs:36-44 | a miss changes nothing, a hit moves one statement out |
| StmtCache.PutConserves | src/connection/stmt_cache.rs:48-75 | what the underlying map does with a statement put in: kept, replaced or forgotten |
| StmtCache.InsertingMeans | src/connection/stmt_cache.rs:48-75 | the statement put in becomes the most recently used, the others keep their order; what is handed out is the statement replaced, or the least recently used one of a full cache; and which keys the set then has |
| Client.NextOpCode | rsfbclient-rust/src/client.rs:1252-1260 | consumes keepalives and the next op code, and nothing behind it |
| Client.SkipLazyResponses | rsfbclient-rust/src/client.rs:1263-1277 | consumes the counted lazy replies up to the first that is an error, counts each down before reading it, and returns the op code behind them or the error, in place as `Client.SkipLazy` says for the whole stream |
| Client.ParseReply | rsfbclient-rust/src/client.rs:1333-1348 | skips the lazy replies and reads one response in place: its outcome, the bytes and the count that are left, on success, underflow and error |
| Client.ParsePrepare | rsfbclient-rust/src/client.rs:806-821 | skips the lazy replies and reads two responses in place: handle of the first and data of the second, the bytes and the count that are left, on success, underflow and error |
| Client.ParseExecute2 | rsfbclient-rust/src/client.rs:983-1000 | skips the lazy replies and reads a row and the body of a response in place, or a whole response in their place, whose error is returned (`Session.Execute2GetsItsError`); outcome, bytes and count that are left are those of the whole stream |
| Client.ParseOneFetchResponse | rsfbclient-rust/src/client.rs:1281-1330 | skips the lazy replies and reads a row, an end of batch or an end of cursor in place; both words of a terminator are consumed |
| Wire.ParseResponse | rsfbclient-rust/src/wire.rs:702-715 | reads handle, object id and data in place and reports the error of the status vector if there is one, with everything up to its end consumed |
| Util.ByteBuf.PutWireBytes | rsfbclient-rust/src/util.rs:12-23 | the length modulo 2^32, the bytes, zeros up to a multiple of four |
| Util.Cursor.Advance | rsfbclient-rust/src/util.rs:76-84 | consumes the bytes, or fails and consumes nothing |
| Util.Cursor.GetWireBytes | rsfbclient-rust/src/util.rs:86-104 | takes a length, that many bytes and the padding to a multiple of four in place, or fails on missing bytes; never reads past the end |
| Util.Cursor.GetU8 | rsfbclient-rust/src/util.rs:106-111 | takes one byte, or fails and reports missing bytes |
| Util.Cursor.GetU16Le | rsfbclient-rust/src/util.rs:113-118 | takes two bytes as a little-endian number, or fails on missing bytes |
| Util.Cursor.GetU32 | rsfbclient-rust/src/util.rs:120-125 | takes four bytes as a big-endian number, or fails on missing bytes |
| Util.Cursor.GetU32Le | rsfbclient-rust/src/util.rs:127-132 | takes four bytes as a little-endian number, or fails on missing bytes |
| Util.Cursor.GetI32 | rsfbclient-rust/src/util.rs:134-139 | takes four bytes as a big-endian number in two's complement, or fails on missing bytes |
| Util.Cursor.GetI32Le | rsfbclient-rust/src/util.rs:141-146 | takes four bytes as a little-endian number in two's complement, or fails on missing bytes |
| Util.Cursor.GetU64 | rsfbclient-rust/src/util.rs:148-153 | takes eight bytes as a big-endian number, or fails on missing bytes |
| Util.Cursor.GetI64 | rsfbclient-rust/src/util.rs:155-160 | takes eight bytes as a big-endian number in two's complement, or fails on missing bytes |
| Util.Cursor.CopyToSlice | rsfbclient-rust/src/util.rs:169-176 | takes exactly the bytes asked for, or fails |
| Rows.ParseSqlResponse | rsfbclient-rust/src/wire.rs:737-926 | reads the row flag, the null bitmap of protocol 13 and the columns in place; the outcome and the bytes left are those of `Rows.ReadRow`, of which `Rows.RowRoundTrip` says what it gives for every row and both layouts |
| Rows.ParsePayload | rsfbclient-rust/src/wire.rs:788-915 | reads the value of one column in place by its type: text, integer, float, timestamp, blob id or boolean; refuses other types |
| Rows.ReadNull | rsfbclient-rust/src/wire.rs:768-777 | the null indicator comes from the bitmap or from the stream, by protocol version |
| Xsqlda.ParseSelectItems | rsfbclient-rust/src/xsqlda.rs:243-399 | reads description items in place and fills the vector column by column up to the end or truncation mark; an item without a begun column is an error |
| Xsqlda.ParseXsqlda | rsfbclient-rust/src/xsqlda.rs:175-240 | reads statement type, parameter count and columns of a description in place, with its limits and end marks |
| Events.ParseEventNotification | rsfbclient-rust/src/wire.rs:595-609 | reads op code, database handle, event block, two addresses and id of an event packet in place; refuses another op code and fails on missing bytes |

## Left out

- Events.EventChannel.RecvEvent: leaves the stream unspecified after an error, because the channel is closed then.
- Session.FirebirdWireConnection.Execute2: promises alignment for an error in the place of the row, but not for a row, because `Execute2KeepsAlignmentIff` shows that it hangs on what the server sends. `Execute2ReadsShifted` says what comes of every final response, but whether the session is then aligned is stated as a condition only for one without data and keepalives, because with them it hangs on what those bytes mean when they are read as a status vector.
- Prepare.PrepareStatement: requires that the allocation succeeds (`PrepareKeepsAlignmentIff` has the other case), that a truncated reply begins a new column, because the loop has no other bound, and that there are at most 1024 columns, because the parser refuses more.
- Fetch.FetchBatch: queues rows with unresolved blob ids; `Columns.FetchWholeBatch` has the blobs, but runs of fetches (`FetchRow`, `FetchAll`) are stated without them.
- Wire.ErrorIsHiddenIff: requires that texts of codes are as in the table (words, a bare newline or a bare first argument) and interpreted texts words or empty; `SolidTextIsReported` and `LoneCodeIsHiddenIff` hold for any table.
- NamedParams.QuoteFreeStatementIff: excludes single quotes in identifiers and comments, because it is a corollary about the names hidden there; `RewritingPreservesMeaningIff` has no such condition.
- Alternative quoting of literals in statements is not modelled.
- SessionRuns.LostCountStaysLost: covers no batch fetches, because after one the stream need not be made of whole replies any more; `FetchKeepsAlignmentIff` says when that happens.
- Connection.RunRefines: assumes that the server accepts each explicit commit and rollback, because `RefusedEndMatchesIff` shows what happens otherwise.
- Savepoints.RunSimulates: assumes that the server accepts each request; `CallsMeet` does not.
- Savepoints.FbConnection.Execute: models statements that write; queries run through the same transactions. The raw connection inside, which the application can also use on its own, is only used through the manager.
- Blr.ParamsToBlr: computes the field count as a release build does, where it wraps; does not model what stays on the server of blobs stored before a parameter that fails.
- Srp.ProcessReply: hash functions are parameters, and what is concatenated before it is hashed is kept as a record.
- Errors that are neither underflows nor reported by the server, such as text that cannot be decoded or an unknown status item, are returned as the code returns them, but what a caller can still do with the connection afterwards is not stated.
- The count of lazy replies and the lengths held in memory are unbounded; only where the code casts to 8, 16 or 32 bits is wrap-around modelled.
- The date type holds the years -262144 to 262143, those of chrono 0.4.19, the oldest version the manifest admits; later versions hold one year less at either end.
- Texts of error messages by code, UTF-8 and charset conversion, and the class of word characters are parameters; the regular expression is modelled as the scanner it describes.
- Password hashing and hexadecimal conversion.
- Floating point values are carried as their eight bytes, and date columns as the two numbers on the wire; that those are decoded is in DateTime.dfy.
- The order of requests on the socket: requests are not modelled as bytes, only the replies are.
- `xsqlda_to_blr`, the request builders of wire.rs (among them `que_events`), and `parse_info_sql_affected_rows`.
- The connection handshake: `parse_accept`, `parse_cont_auth`, wire encryption set-up and attachment parameters.
- TCP connections, timeouts, keep-alive options and environment variables.
- How the server counts events, and how it treats savepoints beyond what the SQL statements used here promise (a savepoint of the same name replaces the older one, rolling back to one keeps it).
- The LRU map is specified by what its documentation promises, not by its implementation.
- `close_all` of the statement cache, and the statements held by iterators.
- The native client, services, connection strings, builders, the `Simple*` wrappers, row and type conversions, the derive macro, the connection pool and the rest of the diesel backend.
