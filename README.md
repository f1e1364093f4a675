# A verified model of the node-zookeeper-client core

This project models the core of a TypeScript ZooKeeper client in Dafny and
proves properties of the model:

- the jute record codec (field sizes, big-endian serialisation into a buffer,
  deserialisation, the chroot rewriting of paths);
- the framing of a request (length prefix, header, payload);
- the multi-operation transaction codec (request record list, response header
  loop) and the transaction builder with its commit scan;
- the watcher registry with its event dispatch;
- the client's retry loop with exponential back-off, the argument checks of
  `create`, `remove`, `setData` and `setACL`, the watcher choice of `exists`,
  and the composite operations `mkdirp`, `listSubTreeBFS` and `removeRecursive`;
- the packet queue;
- the exception and event classes: code tables, name lookup, message format.

Modules follow the source files:

- `Wire` (wire.dfy): bytes, int32, big-endian words, `Result`, buffer splicing, Node's clamping copy
- `Text` (text.dfy): decimal rendering of numbers and its inverse
- `CodeTables` (tables.dfy): the name-to-number tables shared by Exception.ts and Event.ts
- `Exceptions` (exception.dfy): Exception.ts
- `Events` (event.dfy): Event.ts
- `PacketQueues` (packet_queue.dfy): PacketQueue.ts
- `JuteCodec` (jute.dfy): the field codec of record.ts as functions, with the round-trip lemmas
- `Buffers` (buffer.dfy): `copy` and `writeInt32BE` into an `array<byte>`
- `JuteRecord` (record.dfy): the `Record` class of record.ts and its imperative writers and readers
- `RecordChroot` (chroot.dfy): the record round trip under a chroot
- `JuteRequest` (request.dfy): request.ts
- `Protocol` (protocol.dfy): operation codes and the record shapes the transaction code uses
- `TxnRequest` (multi_request.dfy): transaction-request.ts
- `TxnResponse` (multi_response.dfy): transaction-response.ts
- `Transactions` (transaction.dfy): Transaction.ts
- `Watchers` (watchers.dfy): WatcherManager.ts
- `ZkClient` (client.dfy): client.ts

The codec works on closed datatypes: a `TypeTag` (`int`, `long`, `buffer`,
`ustring`, `boolean`, `vector<T>`, `data.X` with its field table) and a
`Value`. `Absent` is JavaScript's `undefined`. Decoding is a family of
functions (`Decode`, `DecodeItems`, `DecodeFields`, `DecodeRecord`). The
imperative readers and writers of record.ts, request.ts and the transaction
files are methods over `array<byte>` or `seq<byte>`, and each is proved equal
to those functions. The functions themselves satisfy the round-trip, size and
chroot lemmas.

The code and its description disagree in some places. The model follows the
code:

- `Record.deserialize` strips the chroot only from `path`, not from the watch
  lists (`RecordChroot.WatchKeepsChroot`).
- A truncated `long`, `buffer` or `ustring` is not an error. Node's `copy`
  and `toString` clamp the range, so a short buffer is zero-padded and a
  short string comes back shorter.
- A version of 0 becomes -1 in the transaction builder (`version || -1`) but
  stays 0 in the client's `remove`, `setData` and `setACL`.

## Model

| member | source | states |
|---|---|---|
| `Wire.ReadInt32` | src/lib/jute/record.ts:358-361 | `readInt32BE` succeeds exactly when four bytes are left at the offset |
| `Wire.Int32RoundTrip` | src/lib/jute/record.ts:283-286 | the four bytes `writeInt32BE` writes for an int32 read back as that int32 |
| `Text.IntStringRoundTrip` | src/lib/Exception.ts:110 | the decimal form of a number in a message parses back to the number |
| `Text.IntStringInjective` | src/lib/Exception.ts:110 | different numbers have different decimal forms |
| `Text.Bracketed` | src/lib/Event.ts:123-127 | `pre + '[' + n + ']' + rest` can be split back into `pre`, `n` and `rest` |
| `CodeTables.AnyKeyHas` | src/lib/Exception.ts:24-26 | the `some` over the keys is true exactly when a key of the table holds the value |
| `CodeTables.Validate` | src/lib/Exception.ts:21-31 | accepts exactly a number that is a table value; rejects a non-number and an unknown value, each with its message |
| `CodeTables.FindKey` | src/lib/Exception.ts:78-89 | the `while` loop finds the first key holding the value, or none exactly when no key holds it |
| `CodeTables.FirstIsOnly` | src/lib/Exception.ts:82-86 | in a table with distinct values, the first key holding a value is the key of that value |
| `Exceptions.ValidateCode` | src/lib/Exception.ts:21-31 | `validateCode` accepts exactly the numbers found in the code table |
| `Exceptions.MessageParts` | src/lib/Exception.ts:110-116 | the message is 'Exception: ' + name, then '[' + code + ']', then '@' + path exactly when the path is truthy |
| `Exceptions.MessagePath` | src/lib/Exception.ts:96-99 | the message sees the path only when a `ctor` is given and the third argument is a path; otherwise the third argument is taken as `ctor` and the local path is undefined |
| `Exceptions.Exception.constructor` | src/lib/Exception.ts:94-117 | the exception keeps its code, its name and its third argument as given (the `path` parameter property is stored before the shift); the message is formatted with the shifted path |
| `Exceptions.NewException` | src/lib/Exception.ts:94-117 | the code check, then a non-empty name, then a function as `ctor`, in that order, each with its message; on success the code, the name, the third argument as stored path, and the message with the shifted path |
| `Exceptions.Create` | src/lib/Exception.ts:75-92 | an invalid code fails as `validateCode` does; a valid one fails only when the first key holding it is empty; on success the name is that key, the code is kept, and the path is stored and in the message |
| `Exceptions.CreateNames` | src/lib/Exception.ts:47-66 | with the named codes filled in, `create(code)` gets the name declared for that code |
| `Exceptions.CodesNamed` | src/lib/Exception.ts:47-66 | every named code has a non-empty name, so `create` never fails its name check for a named code |
| `Exceptions.CodesDistinct` | src/lib/Exception.ts:47-66 | the named codes are pairwise different |
| `Events.ValidateType` | src/lib/Event.ts:22-32 | `validateType` accepts exactly the numbers found in the type table |
| `Events.EventStringParts` | src/lib/Event.ts:122-130 | `toString` is name + '[' + type + ']', then '@' + path exactly when the path is not empty |
| `Events.Event.constructor` | src/lib/Event.ts:78-84 | the event keeps its type, name and path |
| `Events.NewEvent` | src/lib/Event.ts:78-84 | the type check, then a non-empty name; on success the fields |
| `Events.Create` | src/lib/Event.ts:58-76 | a missing event and an unknown type fail; otherwise the name is the first key holding the type, and the type and path are kept |
| `Events.CreateNames` | src/lib/Event.ts:46-49 | with the four event types, `create` gets the name declared for each type |
| `PacketQueues.PacketQueue.constructor` | src/lib/PacketQueue.ts:18 | a new queue is empty and nothing has been emitted |
| `PacketQueues.PacketQueue.Push` | src/lib/PacketQueue.ts:20-28 | a non-object is rejected and nothing changes; an object goes at the back and 'readable' is emitted once |
| `PacketQueues.PacketQueue.Unshift` | src/lib/PacketQueue.ts:31-38 | a non-object is rejected and nothing changes; an object goes at the front and 'readable' is emitted once |
| `PacketQueues.PacketQueue.Shift` | src/lib/PacketQueue.ts:40-42 | the front packet is removed and returned, undefined for an empty queue; nothing is emitted |
| `PacketQueues.UnshiftThenShift` | src/lib/PacketQueue.ts:31-42 | a packet put back at the front is the next one out, and the queue is as before |
| `JuteCodec.Encode` | src/lib/jute/record.ts:278-350 | the module-level `serialize` writes exactly `byteLengthImpl` bytes for a field |
| `JuteCodec.EncodeItems` | src/lib/jute/record.ts:330-337 | the items of a vector take the sum of their sizes |
| `JuteCodec.EncodeFields` | src/lib/jute/record.ts:150-176 | the fields of a record, in table order, take the record's `byteLength` |
| `JuteCodec.EncodeNonEmpty` | src/lib/jute/record.ts:228-273 | every field takes at least one byte on the wire |
| `JuteCodec.DecodeInt` | src/lib/jute/record.ts:358-361 | an int is read exactly when four bytes are left |
| `JuteCodec.DecodeLong` | src/lib/jute/record.ts:362-368 | a long is always 8 bytes and 8 bytes read, zero-padded when the buffer is short |
| `JuteCodec.DecodeBuffer` | src/lib/jute/record.ts:369-386 | a buffer is absent (length -1) or reads its length plus 4 bytes |
| `JuteCodec.DecodeUString` | src/lib/jute/record.ts:387-402 | a ustring is absent (length -1) or counts at least its bytes plus 4 |
| `JuteCodec.DecodeBoolean` | src/lib/jute/record.ts:403-406 | a boolean is read exactly when a byte is left |
| `JuteCodec.DecodeTyped` | src/lib/jute/record.ts:352-436 | whatever the bytes, a successful read yields a value of the field's type |
| `JuteCodec.DecodeItemsTyped` | src/lib/jute/record.ts:413-423 | the vector loop reads exactly `length` items (none for a negative length), each of the element type |
| `JuteCodec.DecodeFieldsTyped` | src/lib/jute/record.ts:196-213 | the field loop of `Record.deserialize` reads one value per field, each of its field's type |
| `JuteCodec.DecodeRecordTyped` | src/lib/jute/record.ts:187-214 | a successful `Record.deserialize` started inside the buffer and stored well-typed fields |
| `JuteCodec.PrependChroot` | src/lib/jute/record.ts:216-226 | identity without a chroot, '/' becomes the chroot, any other path gets the chroot in front |
| `JuteCodec.StripChroot` | src/lib/jute/record.ts:203-210 | a path equal to the chroot becomes '/', a longer one loses the chroot's length, an absent path fails |
| `JuteCodec.ChrootRoundTrip` | src/lib/jute/record.ts:203-226 | with a chroot set, a non-empty path survives prepend-then-strip |
| `JuteCodec.ChrootAbsentPath` | src/lib/jute/record.ts:216-226 | an absent path is written as chroot + 'undefined' and comes back as 'undefined' |
| `JuteCodec.DecodeEncode` | src/lib/jute/record.ts:278-436 | reading back the encoding of a well-typed field gives the value, with bytes read equal to bytes written |
| `JuteCodec.DecodeEncodeFixed` | src/lib/jute/record.ts:283-291 | the same round trip for int, long and boolean |
| `JuteCodec.DecodeEncodeSized` | src/lib/jute/record.ts:293-317 | the same round trip for buffer and ustring, an absent one written as -1 reading back absent |
| `JuteCodec.DecodeEncodeVector` | src/lib/jute/record.ts:324-341 | the same round trip for vectors, an absent one written as -1 reading back absent |
| `JuteCodec.DecodeEncodeRecord` | src/lib/jute/record.ts:342-343 | the same round trip for nested records |
| `JuteCodec.DecodeItemsEncode` | src/lib/jute/record.ts:417-422 | the items of a vector body read back as the items |
| `JuteCodec.DecodeFieldsEncode` | src/lib/jute/record.ts:198-211 | the fields of a record body read back as the fields |
| `JuteCodec.BooleanBytes` | src/lib/jute/record.ts:403-406 | a boolean is written as 1 or 0 and read as true only for the byte 1, so a byte above 1 does not survive a read-write |
| `JuteCodec.DecodeUStringAsWritten` | src/lib/jute/record.ts:387-402 | the ustring read as written: any length other than -1 is added to the byte count |
| `JuteCodec.UStringNegativeLength` | src/lib/jute/record.ts:387-402 | the length -13 makes the code as written report -9 bytes read; the model rejects it |
| `JuteCodec.DecodeAdvances` | src/lib/jute/record.ts:352-436 | with negative lengths rejected, every successful field read moves forward, by at least 4 bytes for a length-prefixed one |
| `JuteCodec.ParseTagName` | src/lib/jute/record.ts:68-84 | the type string of a nameable tag is read back as the tag by the constructor's `switch` and patterns |
| `JuteCodec.ParseTagNames` | src/lib/jute/record.ts:68-84 | every type string the codec accepts is the name of the tag it reads |
| `JuteCodec.NotVectorName` | src/lib/jute/record.ts:257 | a string without '<' never reads as a vector type |
| `JuteCodec.ParseTagRejects` | src/lib/jute/record.ts:255-269 | 'float' and a nested vector are unknown types; `data.X` of a record not in the catalog fails |
| `JuteCodec.Initials` | src/lib/jute/record.ts:26-86 | the constructor assigns one value per field |
| `JuteCodec.InitialsAt` | src/lib/jute/record.ts:26-86 | field i takes its value from argument i |
| `JuteCodec.InitialsTyped` | src/lib/jute/record.ts:26-86 | the constructor gives a well-typed record whenever the arguments it stores fit their fields |
| `JuteCodec.InitialTyped` | src/lib/jute/record.ts:26-86 | one field's initial value has the field's type when its argument fits |
| `JuteCodec.NoArgDefaults` | src/lib/jute/record.ts:26-86 | without arguments: int 0, long eight zero bytes, boolean false, buffer, ustring and vector absent, a nested record of defaults |
| `JuteRecord.FieldLength` | src/lib/jute/record.ts:228-273 | `byteLengthImpl` is the size of the field's encoding |
| `JuteRecord.VectorLength` | src/lib/jute/record.ts:255-264 | the vector case of `byteLengthImpl`: the count prefix plus each item's size |
| `JuteRecord.RecordLength` | src/lib/jute/record.ts:100-125 | `byteLength` sums the sizes of the fields after the chroot rewriting |
| `JuteRecord.WireValuesUnset` | src/lib/jute/record.ts:106-119 | without a chroot no field is rewritten |
| `JuteRecord.WriteField` | src/lib/jute/record.ts:278-350 | the module-level `serialize` writes the field's encoding at the offset, changes no other byte, and returns its length |
| `JuteRecord.WriteSized` | src/lib/jute/record.ts:293-317 | a present buffer or ustring is its length, then its bytes |
| `JuteRecord.WriteVector` | src/lib/jute/record.ts:324-341 | a vector is its count, then its items, or -1 when absent |
| `JuteRecord.WriteItems` | src/lib/jute/record.ts:330-337 | the items are written one after another at the running offset |
| `JuteRecord.WriteRecord` | src/lib/jute/record.ts:135-177 | an offset outside the buffer fails and too little space fails, both before any byte is written; otherwise the rewritten fields are written in order and `byteLength` is returned |
| `JuteRecord.ReadField` | src/lib/jute/record.ts:352-436 | the module-level `deserialize` returns what `Decode` gives |
| `JuteRecord.ReadVector` | src/lib/jute/record.ts:409-423 | the vector case reads the count and then that many items |
| `JuteRecord.ReadItems` | src/lib/jute/record.ts:417-422 | the `while (length > 0)` loop returns what `DecodeItems` gives |
| `JuteRecord.ReadStored` | src/lib/jute/record.ts:198-211 | one turn of the field loop: the raw read, the stored value after the chroot strip, and the next offset |
| `JuteRecord.Record.constructor` | src/lib/jute/record.ts:21-87 | the record holds the constructor's initial values and no chroot |
| `JuteRecord.Record.SetChrootPath` | src/lib/jute/record.ts:89-91 | only the chroot changes |
| `JuteRecord.Record.ByteLength` | src/lib/jute/record.ts:100-125 | `byteLength` is the size of exactly the bytes `serialize` writes |
| `JuteRecord.Record.Serialize` | src/lib/jute/record.ts:135-177 | the checks of `serialize`, then the record's bytes at the offset, returning `byteLength` |
| `JuteRecord.Record.Deserialize` | src/lib/jute/record.ts:187-214 | the offset check, then the fields and byte count of `DecodeRecord`; on an error inside the buffer the fields read before it hold their new values, a field whose path strip failed holds its raw value, and the rest keep their old ones |
| `RecordChroot.ReadBackWire` | src/lib/jute/record.ts:203-226 | a field the chroot can be stripped from again reads back as written |
| `RecordChroot.WatchKeepsChroot` | src/lib/jute/record.ts:111-119 | a watch entry is sent with the chroot in front and read back with it |
| `RecordChroot.EmptyPathBecomesSlash` | src/lib/jute/record.ts:204-226 | with a chroot, an empty path is sent as the chroot and comes back as '/' |
| `RecordChroot.ChrootFields` | src/lib/jute/record.ts:198-211 | reading with a chroot is reading without one and then stripping each field |
| `RecordChroot.RecordRoundTrip` | src/lib/jute/record.ts:135-214 | a record written with a chroot and read back with the same chroot restores its fields, in as many bytes as were written |
| `JuteRequest.FrameLayout` | src/lib/jute/request.ts:35-46 | the frame is 4 + h + p bytes, its prefix is the size after the prefix, the header is at [4, 4+h) and the payload at [4+h, 4+h+p) |
| `JuteRequest.FrameFails` | src/lib/jute/request.ts:22-48 | the frame fails exactly when the size overflows int32 or a present record is to be written at the end of the buffer |
| `JuteRequest.Request.constructor` | src/lib/jute/request.ts:14 | the request keeps its header and payload |
| `JuteRequest.Request.ToBuffer` | src/lib/jute/request.ts:22-49 | `toBuffer` gives the frame of the header's and the payload's bytes |
| `JuteRequest.Frame` | src/lib/jute/request.ts:23-48 | size, allocation, length prefix, then each present record at the running offset, giving the frame |
| `JuteRequest.PartLength` | src/lib/jute/request.ts:26-32 | a missing record adds nothing to the size, a present one its `byteLength` |
| `JuteRequest.WritePart` | src/lib/jute/request.ts:40-46 | a missing record is skipped; a present one is written after the bytes already there or fails the offset check at the end of the buffer |
| `TxnRequest.Payload` | src/lib/jute/transaction-request.ts:24-55 | CREATE carries path, data, acl and flags; DELETE and CHECK path and version; SET_DATA copies only a Buffer; any other type fails |
| `TxnRequest.BuildRecords` | src/lib/jute/transaction-request.ts:18-61 | the constructor's loop builds the record list of `RecordsOf` |
| `TxnRequest.RecordsLayout` | src/lib/jute/transaction-request.ts:18-61 | for n ops the list has 2n+1 records: op i's header at 2i, its payload at 2i+1, the terminator last; an op of unknown type makes the build fail, and only then |
| `TxnRequest.TotalLength` | src/lib/jute/transaction-request.ts:71-75 | the reduce of `byteLength` is the length of all records' bytes together |
| `TxnRequest.NewTransactionRequest` | src/lib/jute/transaction-request.ts:11-62 | a new request holds the record list, or fails with the unknown-type error |
| `TxnRequest.TransactionRequest.constructor` | src/lib/jute/transaction-request.ts:11-62 | the object holds the built records |
| `TxnRequest.TransactionRequest.SetChrootPath` | src/lib/jute/transaction-request.ts:64-68 | every record gets the chroot and nothing else changes |
| `TxnRequest.TransactionRequest.ByteLength` | src/lib/jute/transaction-request.ts:71-75 | `byteLength` is the number of bytes `serialize` writes |
| `TxnRequest.TransactionRequest.Serialize` | src/lib/jute/transaction-request.ts:77-102 | the range and space checks, then the records written contiguously in order, returning `byteLength` |
| `TxnResponse.ReadHeader` | src/lib/jute/transaction-response.ts:43-44 | a MultiHeader is nine bytes, or an out-of-range error |
| `TxnResponse.HeaderRead` | src/lib/jute/transaction-response.ts:43-44 | the generic read of the MultiHeader record (type, done, err) agrees with ReadHeader |
| `TxnResponse.DecodeBody` | src/lib/jute/transaction-response.ts:53-95 | a body keeps its header's type; DELETE and CHECK read no bytes; an unknown type fails |
| `TxnResponse.TxnDone` | src/lib/jute/transaction-response.ts:46-48 | a `done` header ends the loop with no result, its bytes counted |
| `TxnResponse.TxnBody` | src/lib/jute/transaction-response.ts:50-95 | a header that is not `done` adds exactly one result, in wire order, and the loop continues after its body |
| `TxnResponse.DecodeTxnBound` | src/lib/jute/transaction-response.ts:42-98 | the bytes read cover a nine-byte header per result plus the terminator |
| `TxnResponse.CreateStepAsWritten` | src/lib/jute/transaction-response.ts:54-62 | one pass of the loop as written over a CREATE header and its body |
| `TxnResponse.CreateStallsAsWritten` | src/lib/jute/transaction-response.ts:42-62 | as written, the pass over the bad input advances by 0 bytes, so the loop never ends |
| `TxnResponse.StallInputRejected` | src/lib/jute/transaction-response.ts:42-98 | the corrected loop rejects that input with the bad-length error |
| `TxnResponse.StallPathRejected` | src/lib/jute/transaction-response.ts:54-62 | the CreateResponse of that input does not decode |
| `TxnResponse.TransactionResponse.constructor` | src/lib/jute/transaction-response.ts:16-23 | no results and no chroot |
| `TxnResponse.TransactionResponse.SetChrootPath` | src/lib/jute/transaction-response.ts:25-27 | only the chroot changes |
| `TxnResponse.TransactionResponse.Deserialize` | src/lib/jute/transaction-response.ts:29-98 | the offset check, then the results and byte count of the header loop; on an error inside the buffer the results of the headers before it have been pushed (`Pushed`) and stay |
| `TxnResponse.PushedAll` | src/lib/jute/transaction-response.ts:42-98 | when the loop reaches the `done` header, the results pushed are exactly the results returned |
| `TxnResponse.ReadHeaderRecord` | src/lib/jute/transaction-response.ts:43-44 | `new MultiHeader()` and its `deserialize` give ReadHeader |
| `TxnResponse.ReadBody` | src/lib/jute/transaction-response.ts:53-95 | one turn of the loop for a non-final header: the result and what remains of the loop |
| `Transactions.SortArgs` | src/lib/Transaction.ts:59-67 | the forEach over the optional arguments gives `SortedArgs` |
| `Transactions.SortedAcls` | src/lib/Transaction.ts:59-67 | `acls` is unset exactly when no argument is an array, and is otherwise the last array |
| `Transactions.SortedMode` | src/lib/Transaction.ts:59-67 | `mode` is unset exactly when no argument is a number, and is otherwise the last number |
| `Transactions.SortedData` | src/lib/Transaction.ts:59-67 | `data` is unset exactly when no argument is a buffer, and is otherwise the last buffer |
| `Transactions.CreateOpOf` | src/lib/Transaction.ts:69-85 | acls default to OPEN_ACL_UNSAFE and mode to PERSISTENT; the op is built exactly when the path is valid and the acls are not empty |
| `Transactions.VersionOf` | src/lib/Transaction.ts:99-102 | a falsy version (0, null, undefined, false) becomes -1, another number is kept, and anything else fails the number check |
| `Transactions.DataOf` | src/lib/Transaction.ts:126-129 | data passes exactly when it is null, undefined or a buffer |
| `Transactions.BuilderOpsEncode` | src/lib/Transaction.ts:174-180 | a builder's op list always gives a request record list of 2n+1 records |
| `Transactions.Transaction.constructor` | src/lib/Transaction.ts:35-36 | a new transaction has no ops |
| `Transactions.Transaction.Create` | src/lib/Transaction.ts:49-88 | one create op appended at the end, or an error with the ops unchanged |
| `Transactions.Transaction.Check` | src/lib/Transaction.ts:98-111 | the path check, then the version check; on success one check op appended at the end |
| `Transactions.Transaction.SetData` | src/lib/Transaction.ts:122-140 | the path, data and version checks in order; on success one set-data op appended at the end |
| `Transactions.Transaction.Remove` | src/lib/Transaction.ts:150-163 | the path check, then the version check; on success one delete op appended at the end |
| `Transactions.Transaction.Commit` | src/lib/Transaction.ts:171-204 | one MULTI request with the ops; a transport error alone, or all results with the exception of the first ERROR result whose err is not OK, and no exception exactly when there is none |
| `Watchers.RegisteredWellFormed` | src/lib/WatcherManager.ts:128-137 | registration keeps every path once, each with a listener |
| `Watchers.RegisteredAt` | src/lib/WatcherManager.ts:128-137 | the listener is added to its path once; registering the same function again is a no-op |
| `Watchers.RegisteredElsewhere` | src/lib/WatcherManager.ts:128-137 | registration leaves the listeners of every other path alone |
| `Watchers.DeletedListeners` | src/lib/WatcherManager.ts:53-77 | deleting a path drops its listeners and keeps everyone else's |
| `Watchers.WatchedPaths` | src/lib/WatcherManager.ts:140-151 | the paths returned are exactly those with at least one listener |
| `Watchers.DispatchAsWritten` | src/lib/WatcherManager.ts:11-69 | as written, a case is taken only when the type equals a label, and every label is undefined |
| `Watchers.EveryTypeUnknownAsWritten` | src/lib/WatcherManager.ts:50-70 | as written, every event type, the four real ones included, falls to `default` and is rejected, while `Dispatch` routes exactly types 1-4 |
| `Events.KnownTypesNamed` | src/lib/Event.ts:58-76 | each of the four event types passes `validateType` with the filled table and the first key holding it is non-empty |
| `Watchers.Dispatch` | src/lib/WatcherManager.ts:50-81 | data change and creation reach data then existence watchers, children change child watchers, deletion data then child watchers; any other type reaches none |
| `Watchers.NotifiedNonEmpty` | src/lib/WatcherManager.ts:83-85 | there is someone to notify exactly when one of the event's registries holds the path |
| `Watchers.WatcherManager.constructor` | src/lib/WatcherManager.ts:14-16 | three empty registries |
| `Watchers.WatcherManager.Register` | src/lib/WatcherManager.ts:118-138 | an invalid path or a non-function is rejected with nothing changed; otherwise only the kind's registry gains the listener |
| `Watchers.WatcherManager.GetWatcherPaths` | src/lib/WatcherManager.ts:140-151 | the loop returns the watched paths of that kind |
| `Watchers.WatcherManager.IsEmpty` | src/lib/WatcherManager.ts:94-115 | empty exactly when no registry has a path with a listener |
| `Watchers.WatcherManager.EmptyMeansNoPaths` | src/lib/WatcherManager.ts:94-115 | under the registry invariant, empty means that no paths are registered at all |
| `Watchers.WatcherManager.Emit` | src/lib/WatcherManager.ts:42-92 | a missing event or an unknown type fails with nothing changed; otherwise the path is deleted from the registries the event concerns; nobody to notify gives no event; with someone to notify, the outcome is that of `Event.create` (its type check, then a non-empty first name), success with the four event types, and the event carries the type, the path and the first name holding the type |
| `Watchers.WatcherManager.TakeAll` | src/lib/WatcherManager.ts:50-81 | the switch deletes the path from exactly the event's registries and collects their listeners in order |
| `ZkClient.StateCodesDistinct` | src/lib/State.ts:22-27 | each client state has its own code |
| `ZkClient.ClientState` | src/lib/client.ts:120-144 | the five connection manager states map to client states, any other value to none, and none maps to SASL_AUTHENTICATED |
| `ZkClient.ClientStateInjective` | src/lib/client.ts:120-144 | different manager states never land on the same client state |
| `ZkClient.Client.constructor` | src/lib/client.ts:27 | a new client is DISCONNECTED and has emitted nothing |
| `ZkClient.Client.OnConnectionManagerState` | src/lib/client.ts:120-149 | an ignored state changes nothing; a new state is taken and emitted once; the same state again emits nothing |
| `ZkClient.Backoff` | src/lib/client.ts:921 | the wait is min(1000 * 2^i, sessionTimeout) |
| `ZkClient.BackoffGrows` | src/lib/client.ts:912-923 | the waits never shrink from one attempt to the next |
| `ZkClient.BackoffDoubles` | src/lib/client.ts:912-923 | each wait doubles the one before until the session timeout caps it |
| `ZkClient.Attempt` | src/lib/client.ts:868-936 | `fn` is called at most retries + 1 times with indices 0, 1, 2, ...; another call follows only a connection loss; the wait after call i is the back-off of i and there is none after the last; the callback gets the last answer; a negative `retries` is rejected |
| `ZkClient.ClientVersion` | src/lib/client.ts:304-311 | an omitted version is -1, a number is kept, anything else fails the number check |
| `ZkClient.ZeroVersionKept` | src/lib/client.ts:305 | the client keeps the version 0, while the builder turns it into -1 |
| `ZkClient.CheckedData` | src/lib/client.ts:247-257 | data passes when it is null, undefined or a buffer of at most 1048576 bytes; a larger buffer fails with the size message |
| `ZkClient.CreateRequestOf` | src/lib/client.ts:232-276 | the path, data and acl checks of `create` in order; on success the payload carries the path, the data, the acls or their default, and the mode or its default |
| `ZkClient.CreateAgreesWithBuilder` | src/lib/client.ts:244-269 | arguments given in their own places give the client's `create` and the builder's `create` the same acls, mode and data |
| `ZkClient.RemoveRequestOf` | src/lib/client.ts:304-321 | an invalid path fails first, then a version that is not a number; the request exists exactly when both pass, and carries the path and the checked version |
| `ZkClient.RemoveAgreesWithBuilder` | src/lib/client.ts:304-311 | for an omitted version or a number other than 0, the client's `remove` sends the version the builder's `remove` would |
| `ZkClient.SetDataAsWritten` | src/lib/client.ts:385-416 | `setData` as written: every value that passes the checks but is not a buffer fails on `data.length` |
| `ZkClient.SetDataNullFails` | src/lib/client.ts:394-413 | `setData(path, null)` passes every check and then fails |
| `ZkClient.SetDataRequestOf` | src/lib/client.ts:385-416 | whatever passes the checks gives a request, with no data for null or undefined |
| `ZkClient.SetDataAgrees` | src/lib/client.ts:398-414 | for a buffer the corrected and the as-written `setData` agree |
| `ZkClient.SetAclRequestOf` | src/lib/client.ts:507-531 | the path check, a non-empty acl array, the version check; on success the request |
| `ZkClient.ExistsStep` | src/lib/client.ts:632-662 | NO_NODE counts as success with a null stat; other errors pass through with no watcher; with a watcher, a data watcher when the node exists and an existence watcher otherwise |
| `ZkClient.ExistsWatcherFires` | src/lib/client.ts:640-654 | the watcher `exists` leaves is one the right events reach: for an existing node a data change or its deletion, for a missing node its creation |
| `ZkClient.SplitJoin` | src/lib/client.ts:809 | joining the pieces of `split('/')` with '/' gives the string back |
| `ZkClient.JoinSplit` | src/lib/client.ts:809 | splitting a join of slash-free pieces gives the pieces back |
| `ZkClient.MkdirpReachesPath` | src/lib/client.ts:809-824 | for an absolute path, the last prefix `mkdirp` reaches is the path itself |
| `ZkClient.CreatePrefixes` | src/lib/client.ts:811-824 | the cumulative prefixes are created in order; NODE_EXISTS is skipped, any other error stops the walk, and the last prefix reached is reported |
| `ZkClient.Mkdirp` | src/lib/client.ts:771-825 | the checks of `create`, then the prefix walk; with no error the reported path is the path |
| `ZkClient.PushChildren` | src/lib/client.ts:747-753 | each child's path (`item + '/' + child`, or `'/' + child` under the root) is appended in order |
| `ZkClient.WalkProperties` | src/lib/client.ts:731-757 | a finished walk is the path followed by the children of every listed node in turn, each entry after the first comes after its parent, and every node was listed successfully; an unfinished walk has the same shape up to the fuel bound; a failed walk stopped at a node whose listing failed |
| `ZkClient.ListSubTree` | src/lib/client.ts:731-757 | the path check, then the breadth-first walk |
| `ZkClient.ReversedChildrenFirst` | src/lib/client.ts:358 | reversing a list whose parents come first puts every child before its parent |
| `ZkClient.RemoveInOrder` | src/lib/client.ts:358-368 | the entries are removed in order, each with the same version; NO_NODE is skipped and any other error stops the removal |
| `ZkClient.RemoveRecursive` | src/lib/client.ts:344-370 | the path and version checks, the listing, then removal of the listing reversed, children before parents, each removal sending the checked version; a listing error removes nothing |

## Left out

- The ConnectionManager, sockets, the handshake, reconnection and sessions are not part of this model. Each server answer is a function parameter of the operation that asks for it: `fn` of `Attempt`, `create` of `Mkdirp`, `getChildren` and `remove` of `RemoveRecursive`, `reply` of `Commit`, the reply of `ExistsStep`.
- `setTimeout` and the `async` helpers (`whilst`, `eachSeries`, `reduce`) are sequential loops. `Attempt` returns the waits it would schedule instead of waiting.
- The session timeout is a parameter of `Attempt` that stays the same across attempts.
- The EventEmitter plumbing of client.ts (`on`, `once`, `addListener`, the default state listener) is left out. `Client.emitted` records the 'state' emissions, and `PacketQueue.readable` counts the 'readable' emissions.
- Listeners in the watcher registry are identities (`nat`). Node's `once` wrapper and the `notification` emission are not modelled; `Emit` returns the listeners it would notify. The order of keys in a registry is the order in which paths were first added.
- `Path.validate` (Path.js) is not part of this model. Its verdict is the `pathValid` parameter, and an invalid path fails with `BadArgument("path")`.
- UTF-8 is not modelled. A ustring is the sequence of its encoded bytes, so `Buffer.byteLength` and `toString('utf8')` are identities.
- JavaScript numbers are `int32` where they are written as int32. A value outside that range cannot be passed, so `writeInt32BE`'s range error is not modelled for field values. The frame's size overflow is modelled.
- The runtime type checks in front of typed parameters are left out: `Buffer.isBuffer(buffer)`, `typeof callback === 'function'`, `typeof fn === 'function'`, `Array.isArray(ops)` and the `instanceof` self-construction guards.
- `Error.captureStackTrace` in the Exception constructor is left out.
- src/lib/jute/jute.ts, the `./specification` tables, src/lib/jute/index.ts, src/index.ts and src/lib/jute/response.ts are not part of this model. The record shapes the transaction code needs (MultiHeader, the four request records, CreateResponse, SetDataResponse, ErrorResponse, Stat, ACL, Id) are defined in `Protocol` from their use.
- ACL.ts, Id.ts and State.ts are value tuples and constants. `OPEN_ACL_UNSAFE` (all permissions for 'world'/'anyone'), `CreateMode.PERSISTENT`, the state codes, `DATA_SIZE_LIMIT` and the operation codes are constants of the model.
- `Exception.ts` and `Event.ts` ship empty `EXCEPTION_CODES` and `TYPES` tables, and the Event "constants" are type annotations without values. The model takes the table as a parameter, and fills it from the declared codes (`ExceptionCodes`) and from the event types 1-4 (`EventTypes`) where client code uses it.
- `Transaction.ts` uses `TransactionImport`, which is undefined, and `TransactionRequest` never assigns `this.ops`. The model does what the code evidently means: the builder functions act on the transaction, and the request is built from its ops argument.
- `removeRecursive` asserts that `optionalCallback` is a function, so its two-argument form always fails. The model takes the intended reading and checks the callback at its place.
- Whether `async.reduce` sees the entries pushed onto `tree` during the walk depends on the library version. The model walks the growing list, which is what lists the whole subtree.
- `ZkClient.ListSubTree`: the walk takes a `fuel` bound on the number of entries listed. Beyond it the result is `Unfinished`, and `RemoveRecursive` then removes nothing.
- `ZkClient.Client.GetState`, the getters of `Exception` and `Event`, and `Event.ToString` read fields or format them; their properties are stated on `EventString` and `Message`.
- Event.js and Exception.js export the classes and tables, not the constants. So as written, `ZkEventImport.NODE_*` in `emit`, and `ExceptionImport.OK` in `commit`, are undefined, and `ZkEventImport.create` and `ExceptionImport.create` are not functions. `Watchers.WatcherManager.Emit`, `Watchers.WatcherManager.TakeAll`, `Watchers.Dispatch` and `Transactions.Transaction.Commit` read these imports as the Event and Exception classes, which is what the code evidently means. As written, `commit` throws a TypeError at the first ERROR result; `emit` is listed under Findings.
- `JuteRecord.WriteField`, `JuteRecord.WriteVector`, `JuteRecord.WriteItems`, `JuteRecord.WriteRecord`, `JuteRecord.Record.Serialize`: require that every nested `data.X` record type has at least one field (`WfTag`). A nested record without fields writes nothing, or fails the offset check of its own `serialize` at the end of the buffer (src/lib/jute/record.ts:140-142, 343); the model does not cover it. Every record type in `Protocol` has fields.
- `Exceptions.NewException`: requires that a function passed as the fourth argument not be paired with a function as the third. The JavaScript constructor accepts that pairing.
- `TxnResponse.DecodeBody`: states the unknown-type failure in one direction only, for types outside the five handled ones.
- `getData`, `getACL` and `getChildren` are request-and-callback wrappers around `attempt`. Their argument handling is that of `exists`. They are left out, except that `getChildren` is the `getChildren` answer function of `ListSubTree`.
- `addAuthInfo`, `connect`, `close`, `transaction()`, `getSessionId`, `getSessionPassword` and `getSessionTimeout` are left out. They forward to the connection manager, which is not part of this model.
- The `MULTI` request built by `commit` is modelled as its header type and op list, not as bytes.

## Findings

| source | as written | input that shows it | evidently intended | confidence | as-written member | corrected member |
|---|---|---|---|---|---|---|
| src/lib/jute/record.ts:387-401 | a ustring length other than -1 is added to `bytesRead` even when it is negative | the length prefix -13 (bytes ff ff ff f3): `bytesRead` becomes -9 | a negative length other than -1 is rejected, so that every read moves forward | not executed | `JuteCodec.UStringNegativeLength` | `JuteCodec.DecodeAdvances` |
| src/lib/jute/transaction-response.ts:42-57 | the header loop adds the CreateResponse's byte count, which can be negative | a CREATE header followed by a path of length -13 and nothing else: the pass advances by 0 bytes and the loop re-reads the same header forever | the response is rejected | not executed | `TxnResponse.CreateStallsAsWritten` | `TxnResponse.StallInputRejected` |
| src/lib/WatcherManager.ts:50-70 | `ZkEventImport` (line 11) is the module object of Event.js, so every `case ZkEventImport.NODE_*` label is undefined | `emit` of a NODE_DATA_CHANGED event (type 3) for a watched path throws 'Unknown event type: 3' and notifies nobody | the four event types reach their registries | not executed | `Watchers.EveryTypeUnknownAsWritten` | `Watchers.Dispatch` |
| src/lib/client.ts:394-413 | `setData` lets null and undefined data through its check, then reads `data.length` | `setData(path, null, callback)` throws a TypeError | null or undefined data sends the request without data, as `create` does | not executed | `ZkClient.SetDataNullFails` | `ZkClient.SetDataAgrees` |
