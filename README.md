# Clusterpoint Node.js client: connection, wire format and request XML

This project models the core of the Clusterpoint 2 Node.js client API in Dafny. That core is:

- **Message framing** in `lib/protobuf.js`: base-128 varints and length-delimited string fields.
- **The connection** in `lib/connection.js`:
  - endpoint selection from the connection string;
  - the raw frame (an 8-byte header with the magic `09 09 00 00`, followed by a two-field protobuf message);
  - the HTTP/1.0 request text;
  - the pool of free and busy sockets;
  - the begin-transaction guard and the transaction id;
  - the `data`, `end`, `error` and `close` handlers that reassemble a reply from chunks.
- **Request building** in `lib/request.js`:
  - `Term` and `QueryTerm`;
  - the `Request` object and its parameter lists;
  - `setParam`, `setDocs` and `setOffset`;
  - the JSON-to-XML conversion: `GetValueType`, `ValueToXml` and `ObjectToXml`;
  - the string branch of `getRequestXml`.

The modules follow the source:

- `Bytes` holds the JavaScript semantics the source relies on:
  - `ToInt32` for bitwise operators;
  - an index past a buffer reading as 0;
  - `Buffer.slice` clamping;
  - UTF-8 encoding against UTF-16 `length`;
  - decimal text.
- `Js` holds JavaScript values and lodash helpers:
  - truthiness and `String(v)`;
  - `_.escape` together with its inverse;
  - `split`;
  - objects as insertion-ordered key/value lists.
- `Protobuf` models `lib/protobuf.js`.
- `Wire` models the bytes written on a socket and the header read back.
- `Endpoint` models the constructor's choice of endpoint.
- `Pool` models the free and busy socket lists as values.
- `Assembler` models the reply reassembly across `data` events as values.
- `Connection` holds two classes:
  - `Connection`: the socket lists, the guard and the transaction id, updated in place;
  - `Exchange`: the per-request closure state `reply`, `content_len` and `received`, plus its handlers.
- `Terms` models `Term` and `QueryTerm`.
- `ObjectXml` models the document conversion.
- `Requests` holds the `Request` class, with its setters and `getRequestXml`.

Each loop of the source is a method with its invariants. Each method is proved against a specification function, and the properties of the system are lemmas about those functions. Those properties include:

- varint and field round trips;
- a frame declares exactly its own length;
- reassembly does not depend on how the reply is chunked;
- pool validity is preserved by every handler;
- `_.escape` loses nothing and leaves no markup;
- the request XML fails exactly on values the conversion refuses.

The model follows the code in these behaviours:

- **Fields of another wire type.** The offset moves past the tag in every round (`lib/protobuf.js:43`), so a field of a wire type other than 2 contributes nothing and the loop goes on at the byte after its tag (`Protobuf.OtherWireTypeSkipsTag`).
- **The transaction guard** is the property `self.beginTransactionInProgress`, which starts out undefined (falsy). The closure variable declared at `lib/connection.js:43` is never read.
- **The default unix socket path** reads `this.storageName` at `lib/connection.js:57`, before line 96 defines it. The path therefore always names the storage `undefined` (`Endpoint.DefaultSocketIgnoresStorage`).
- **The begin-transaction guard** is lifted only by a completed reply (lines 299-303) or by an invalid raw header (line 262-263). An `end` or `error` event leaves it set, and later requests then throw.
- **The transaction id never reaches the request.** `lib/connection.js:156` passes `self.transactionId` as a fifth argument to `getRequestXml`, which takes four parameters (`lib/request.js:184`). The id is dropped, so the bytes written never depend on it; the model keeps it only as connection state that `begin-transaction` replies set and commit or rollback clear.
- **A socket released twice** (a second completion on one request) is pushed onto the free list a second time (`Pool.SecondReleaseDuplicates`).
- **Xpaths and the XML builder.** `sendRequest` always passes the connection's xpaths to `getRequestXml`, and the connection always uses the XML builder (`createXML` is true at `lib/connection.js:49`). What `getRequestXml` returns, the request XML or the error it throws, is therefore an input of `Connection.Connection.SendRequest`, and the string branch of `getRequestXml` is modelled on its own in `Requests`.

- **The parameter name lists** are the fields `validTextParamNames` and `validRawParamNames` that the constructor installs (`lib/request.js:138-148`); `setParam` and the constructor's loop read those fields. `setDocs` and `setOffset` call `setParam`, so they assume the installed lists (`Requests.Request.Standard`), which name `docs` and `offset`.

## Model

| member | source | states |
|---|---|---|
| Bytes.ToInt32 | lib/protobuf.js:21 | the operand of a bitwise operator is a signed 32-bit value, and the number itself when it is in range |
| Bytes.ToInt32OfResidue | lib/protobuf.js:21 | that signed value depends on the number modulo 2^32 only |
| Bytes.ByteAt | lib/connection.js:266 | a byte index inside the buffer reads that byte; outside it reads 0, as `undefined` does under a bitwise operator |
| Bytes.SliceFrom | lib/connection.js:267 | `data.slice(8)` is the bytes from 8 on, and empty for a chunk of at most 8 bytes |
| Bytes.Slice | lib/protobuf.js:49 | `toString('utf8', start, end)` is the exact byte range when it lies inside the buffer, and never longer than the buffer |
| Bytes.EncodeChar | lib/protobuf.js:30 | one character is 1 to 4 UTF-8 bytes, exactly 1 for ASCII, and that byte is the code |
| Bytes.Encode | lib/protobuf.js:30 | `new Buffer(s)` has at least as many bytes as characters |
| Bytes.Utf16Length | lib/connection.js:213 | a string's `length` is at least its number of characters |
| Bytes.EncodeAppend | lib/protobuf.js:30 | UTF-8 encoding distributes over concatenation |
| Bytes.EncodeAscii | lib/connection.js:213 | an ASCII string encodes byte for byte |
| Bytes.ByteCountIsLengthIffAscii | lib/connection.js:213 | a string's byte count equals its JavaScript `length` if and only if it is ASCII |
| Bytes.EncodeLengthAtLeast | lib/connection.js:213 | the byte count is never below the UTF-16 length |
| Bytes.Utf16AtMost | lib/connection.js:213 | the UTF-16 length is at most twice the number of characters |
| Bytes.NatToString | lib/connection.js:213 | `String(n)` is a non-empty run of ASCII digits |
| Bytes.DecimalRoundTrip | lib/connection.js:274 | reading back the decimal text of n gives n |
| Protobuf.Varint | lib/protobuf.js:1-15 | the base-128 encoding, least significant group first with the continuation bit on all but the last byte; its properties are the lemmas below |
| Protobuf.VarintShape | lib/protobuf.js:1-15 | the encoding is empty exactly for 0, has the continuation bit on every byte but the last, ends in a non-zero byte, and its groups add up to the value |
| Protobuf.VarintLength | lib/protobuf.js:1-15 | n < 128^k exactly when the encoding of n takes at most k bytes |
| Protobuf.VarintToBytes | lib/protobuf.js:1-15 | the loop emits exactly the base-128 encoding of the value, below 2^31 where `>>` is exact |
| Protobuf.ReadVarint | lib/protobuf.js:17-27 | the decoded pair consumes no more than the bytes left, and nothing at or past the end |
| Protobuf.ReadVarintCons | lib/protobuf.js:17-27 | below a continuation byte the rest of the varint weighs 128 times as much |
| Protobuf.BytesToVarint | lib/protobuf.js:17-27 | the loop returns the value of the 7-bit groups up to the first byte without the continuation bit, and the number of bytes read |
| Protobuf.ReadVarintOfVarint | lib/protobuf.js:17-27 | a varint inside any buffer decodes to its value and consumes exactly its bytes |
| Protobuf.VarintRoundTrip | lib/protobuf.js:1-27 | bytesToVarint(varintToBytes(n), 0) is (n, the encoding's length), zero included |
| Protobuf.Tag | lib/protobuf.js:33 | the tag byte has wire type 2, and for field numbers below 16 it is the field number times 8 plus 2 |
| Protobuf.SerializeString | lib/protobuf.js:29-34 | the field is the tag, the length varint and the data, and it ends with the data |
| Protobuf.ParseRound | lib/protobuf.js:39-51 | one round inside the buffer either stops the loop or moves the offset strictly forward; a tag of wire type 2 hands the round to `LengthField` |
| Protobuf.LengthField | lib/protobuf.js:47-50 | with exact weights: after a wire-type-2 tag, a missing length varint stops the loop; otherwise the value is stored under the field number and the offset moves strictly past the tag |
| Protobuf.Parse | lib/protobuf.js:36-54 | `parseString(data)` from offset 0 with exact weights, round by round; `ParseString` computes it and the round-trip lemmas read fields back with it |
| Protobuf.ReadField | lib/protobuf.js:40-51 | one pass of the loop body is the round the specification describes: the tag, then for wire type 2 the length and the value cut at the buffer's end, or a stop when a varint is missing |
| Protobuf.ParseString | lib/protobuf.js:36-54 | the loop computes the fields the round-by-round specification gives |
| Protobuf.ParseFieldRound | lib/protobuf.js:39-52 | one round of the loop at a serialised field reads its tag, its length and exactly its value, and moves right after it |
| Protobuf.ParseField | lib/protobuf.js:36-54 | one serialised field in a buffer is read back as exactly that field, and the loop goes on right after it |
| Protobuf.FieldRoundTrip | lib/protobuf.js:29-54 | parsing a serialised non-empty field gives exactly that field |
| Protobuf.EmptyFieldDropped | lib/protobuf.js:42-48 | an empty value serialised last leaves no field, because its length varint reads as missing |
| Protobuf.FrameFieldsRoundTrip | lib/connection.js:202 | a request frame parses back to the message as field 1 and the storage name as field 2, which is absent when the name is empty |
| Protobuf.SecondField | lib/protobuf.js:36-54 | a second field after the first adds its value and keeps the first |
| Protobuf.LastValueWins | lib/protobuf.js:49 | a repeated field number keeps the value that comes last |
| Protobuf.OtherWireTypeSkipsTag | lib/protobuf.js:43-46 | a tag of another wire type consumes only its own bytes, at least one, and the loop goes on right after them with the fields unchanged (with exact weights) |
| Protobuf.OverrunTakesRest | lib/protobuf.js:49-50 | with exact weights, a length running past the end stores the rest of the buffer and ends the loop |
| Protobuf.ReadVarintAsWritten | lib/protobuf.js:17-27 | the loop of bytesToVarint as written: each group goes through the 32-bit `<<` before it is added, and an index outside the buffer reads as 0 |
| Protobuf.BytesToVarintAsWritten | lib/protobuf.js:17-27 | bytesToVarint(data, offset) as written, with `result`, `parsed` and `shift` starting at 0 |
| Protobuf.ShlExact | lib/protobuf.js:21 | `x << 7p` is exactly x times 128^p whenever that product is below 2^31 |
| Protobuf.ReadVarintAsWrittenFrom | lib/protobuf.js:20-26 | from any point of the loop, while the exact total stays below 2^31, the loop as written returns the sum so far plus the exact weight of the remaining groups, and the same byte count |
| Protobuf.ReadVarintAgrees | lib/protobuf.js:17-27 | bytesToVarint as written returns the exact-weight value and byte count whenever that value is below 2^31 |
| Protobuf.VarintRoundTripAsWritten | lib/protobuf.js:1-27 | as written, bytesToVarint(varintToBytes(n), 0) is (n, the encoding's length) for every n below 2^31 |
| Protobuf.ParseRoundAsWritten | lib/protobuf.js:39-52 | one round of the parseString loop as written, over an offset that may be negative; `ParseRoundAgrees` relates it to `ParseRound` |
| Protobuf.LengthFieldAsWritten | lib/protobuf.js:47-50 | the length part of a round as written; `LengthFieldAgrees` relates it to `LengthField` |
| Protobuf.RunAsWritten | lib/protobuf.js:39-52 | k rounds of the loop as written; a returned loop stays returned |
| Protobuf.AsLoopState | lib/protobuf.js:39-53 | an exact-weight round read as a state of the loop as written keeps its fields, and has returned exactly when the round stopped |
| Protobuf.TagOnlyRound | lib/protobuf.js:40-45 | a round whose tag is below 2^31 and not of wire type 2 moves past the tag in both loops and stores nothing |
| Protobuf.RoundReadsField | lib/protobuf.js:40-50 | a round with a wire-type-2 tag is the tag read followed by the length field at the next offset |
| Protobuf.RoundAsWrittenReadsField | lib/protobuf.js:40-50 | the same split holds for the round as written once its tag is read |
| Protobuf.LengthFieldAgrees | lib/protobuf.js:47-50 | where the length varint reads the same both ways, both loops store the same value and move to the same offset |
| Protobuf.LengthRoundAgrees | lib/protobuf.js:40-50 | a wire-type-2 round whose tag and length read the same both ways is the same round in both loops |
| Protobuf.ParseRoundAgrees | lib/protobuf.js:39-52 | where the tag and length of a round are below 2^31, the round as written is the exact-weight round |
| Protobuf.RoundsToReturn | lib/protobuf.js:39-53 | the number of rounds until the exact-weight loop ends, at least one |
| Protobuf.ParseAgrees | lib/protobuf.js:36-54 | where every varint the loop reads is below 2^31, the loop as written returns, after `RoundsToReturn` rounds, exactly the fields of the exact-weight parse |
| Protobuf.FieldRoundBelow31 | lib/protobuf.js:29-34 | the tag and length of a serialised field with a number below 16 and a non-empty value under 2^31 bytes are below 2^31 |
| Protobuf.FrameVarintsBelow31 | lib/connection.js:202 | every varint the loop reads in a request frame's body is below 2^31 |
| Protobuf.FrameParsedAsWritten | lib/connection.js:202 | as written, parseString returns on a request frame's body, with the message as field 1 and the storage name as field 2, absent when the name is empty |
| Protobuf.WrappingLengthIsNegative | lib/protobuf.js:21 | as written, the five-byte length 80 80 80 80 08 decodes to -2^31 |
| Protobuf.NegativeOffsetSteps | lib/protobuf.js:39-45 | left of the buffer each round reads a zero tag and steps forward by one |
| Protobuf.FirstRoundJumpsBack | lib/protobuf.js:47-50 | as written, the first round on the wrapping input sends the offset back to 6 - 2^31 |
| Protobuf.LoopingFromBehind | lib/protobuf.js:39-52 | as written, from any offset up to 2^31 - 6 left of the buffer the loop is still running after any number of rounds |
| Protobuf.ParseStringAsWrittenLoopsForever | lib/protobuf.js:17-54 | as written, parseString never returns on the wrapping input |
| Protobuf.WrappingLengthParsed | lib/protobuf.js:17-54 | with exact weights, the same input parses to field 1 = empty and stops |
| Wire.Header | lib/connection.js:192-199 | the header is 8 bytes and starts with the magic 09 09 00 00 |
| Wire.DeclaredLength | lib/connection.js:266 | the declared length is a signed 32-bit value |
| Wire.HeaderReadBack | lib/connection.js:192-199 | reading a header back gives the signed 32-bit value of its length, which is the length itself below 2^31 |
| Wire.Frame | lib/connection.js:202-203 | the header of the body's length followed by field 1 (the message) and field 2 (the storage name); `FrameReadBack` reads it back |
| Wire.FrameReadBack | lib/connection.js:202-203 | a frame starts with the magic and declares exactly the bytes after the header; those bytes parse back to the message and the storage name, and the parse loop as written returns the same fields |
| Wire.ContentLengthText | lib/connection.js:213 | the Content-Length value is written in decimal digits that read back as the count |
| Wire.HttpHeadAsWritten | lib/connection.js:210-215 | the POST head as written, its Content-Length being `message.length`, the UTF-16 length |
| Wire.HttpRequestAsWritten | lib/connection.js:210-221 | the head as written followed by the message, both written as UTF-8; this is what the connection sends |
| Wire.HttpHead | lib/connection.js:210-215 | the corrected head, its Content-Length being the message's byte count |
| Wire.HttpRequest | lib/connection.js:210-221 | the corrected head followed by the message |
| Wire.HttpDeclaresBody | lib/connection.js:210-221 | the corrected head is the fixed-form POST head whose Content-Length is the number of bytes written after it |
| Wire.HttpAsWrittenDeclaresBodyIffAscii | lib/connection.js:210-221 | as written, the bytes after the head are the message's UTF-8 bytes, and the declared Content-Length equals their count if and only if the message is ASCII |
| Wire.HttpAsWrittenUndercounts | lib/connection.js:213 | as written, "é" is declared as 1 byte and sent as 2 |
| Endpoint.OrDefault | lib/connection.js:38-39 | a logical-or default: the value when it is a non-empty string, the default otherwise |
| Endpoint.TooFewArgumentsThrow | lib/connection.js:32 | fewer than four arguments throw "Missing required arguments" whatever the connection string |
| Endpoint.Resolve | lib/connection.js:31-89 | an error is "Missing required arguments" below four arguments and "Invalid connection string" otherwise; a chosen endpoint is TLS exactly for tcps:, and then it has the given port and does not verify the peer |
| Endpoint.ResolveFailsExactly | lib/connection.js:52-89 | the constructor throws exactly for too few arguments, an unknown scheme, or tcps: without a port; every error but the first is "Invalid connection string" |
| Endpoint.TcpPortDefaults | lib/connection.js:64-69 | tcp: connects to the host at the given port, or at 5550 without one |
| Endpoint.HttpPortAndUrl | lib/connection.js:79-85 | http: uses the given port or 80, posts to the path, and speaks HTTP exactly when that path is not empty |
| Endpoint.TlsSkipsVerification | lib/connection.js:70-78 | tcps: with a port opens TLS without verifying the peer |
| Endpoint.DefaultSocketIgnoresStorage | lib/connection.js:53-58 | without a scheme, the socket path is the same whatever the storage name, and it names the storage "undefined" |
| Pool.IndexOf | lib/connection.js:111 | `indexOf` is -1 exactly when the socket is absent, and otherwise the position of its first occurrence |
| Pool.NoDuplicatesSplit | lib/connection.js:118 | a list with one element taken out has no duplicates iff the whole list has none and that element occurs nowhere else |
| Pool.NoDuplicatesPush | lib/connection.js:119 | pushing keeps a list duplicate-free iff the socket was not in it |
| Pool.RemoveFirstSpec | lib/connection.js:118 | `splice(indexOf(x), 1)` removes one copy of x, keeps the others in order, and removes x altogether from a duplicate-free list |
| Pool.Acquire | lib/connection.js:226-251 | pops a free socket, or connects a new one, and pushes it on the busy list; `AcquireKeepsValid` states it |
| Pool.Release | lib/connection.js:110-121 | `_PutClientSocketForReuse`: splices the socket out of the busy list and pushes it on the free list; `ReleaseKeepsValid` states it |
| Pool.Close | lib/connection.js:240-249 | the close handler's splice out of both lists; `CloseKeepsValid` states it |
| Pool.Ended | lib/connection.js:318-321 | the end handler's splice out of the free list; `EndedKeepsValid` states it |
| Pool.AcquireKeepsValid | lib/connection.js:226-251 | acquisition keeps the pool valid and makes the socket busy; it connects a new socket exactly when none is free, and otherwise reuses a free one |
| Pool.ReleaseKeepsValid | lib/connection.js:110-121 | releasing a busy socket keeps the pool valid, moves that socket to the end of the free list, and leaves every other socket where it was |
| Pool.SecondReleaseDuplicates | lib/connection.js:110-121 | releasing the same socket twice leaves it on the free list twice |
| Pool.CloseKeepsValid | lib/connection.js:240-249 | the close handler keeps the pool valid and removes the socket from both lists, touching no other socket |
| Pool.EndedKeepsValid | lib/connection.js:318-321 | the end handler keeps the pool valid and leaves the socket out of the free list, with the busy list unchanged |
| Pool.SequentialRequestsReuse | lib/connection.js:226-230 | a request after a completed one reuses its socket without connecting |
| Pool.ConcurrentRequestsConnect | lib/connection.js:231-251 | n requests in flight at once open n distinct sockets, all busy |
| Pool.ReleaseFirstOfOrder | lib/connection.js:110-121 | releasing the first socket of an ordering of the busy list leaves the rest of that ordering busy |
| Pool.CompletingAllFreesAll | lib/connection.js:110-121 | completing every busy request, in any order, leaves nothing busy and appends those sockets to the free list in that order |
| Assembler.Latin | lib/connection.js:271 | a reply decoded and re-encoded byte for byte keeps its length |
| Assembler.AsText | lib/connection.js:271 | the text of a chunk has one character per byte |
| Assembler.Find | lib/connection.js:275 | `indexOf` finds the first occurrence at or after the start, and None means there is none |
| Assembler.DigitRun | lib/connection.js:273 | `\d+` matches the maximal run of digits |
| Assembler.FirstMatch | lib/connection.js:273 | the regular expression matches at its leftmost position, and None means nowhere |
| Assembler.Clamp | lib/connection.js:289-293 | `received` never exceeds `content_len`, and it is either unchanged or `content_len` |
| Assembler.Receive | lib/connection.js:255-293 | a chunk is rejected exactly when it starts a raw reply without the magic, and then nothing changes; otherwise `received` stays at most `content_len`, the reply grows by the chunk once started, and completion is reported exactly when `received` is non-zero and equals `content_len` |
| Assembler.Feed | lib/connection.js:255-313 | a run of data events causes one event per chunk |
| Assembler.ClampAdd | lib/connection.js:286-293 | clamping after each chunk equals clamping once at the end |
| Assembler.AccumulateAll | lib/connection.js:285-293 | after the first accepted chunk, the reply is every later byte in order, and `received` is its size clamped to `content_len` |
| Assembler.SplitIrrelevant | lib/connection.js:285-293 | two splittings of the same bytes into chunks end in the same state |
| Assembler.RawReplyAssembled | lib/connection.js:257-268 | a raw reply is every byte after the 8-byte header, with `content_len` read from that header |
| Assembler.HttpReplyAssembled | lib/connection.js:270-284 | an HTTP reply is every byte after the first blank line, with `content_len` from the first `Content-Length` match, or 0 without one |
| Assembler.CompletedWhenReached | lib/connection.js:294 | completion is reported at a chunk iff `content_len` is not 0 and the bytes so far reach it |
| Assembler.FlattenPrefixGrows | lib/connection.js:286-287 | with non-empty chunks, a longer prefix of the chunks holds strictly more bytes |
| Assembler.FlattenAppend | lib/connection.js:286 | concatenating chunk runs concatenates their bytes |
| Assembler.CompletesOnceAtEnd | lib/connection.js:294 | when exactly the missing bytes arrive in non-empty chunks, completion is reported once, at the last chunk |
| Assembler.MatchHasSeparator | lib/connection.js:273-275 | a Content-Length match implies the blank line is present |
| Assembler.HttpHeadChunkDiscarded | lib/connection.js:280-283 | an HTTP chunk without a blank line is dropped, and the next chunk is again read as the start |
| Connection.Written | lib/connection.js:186-221 | the bytes sendDataFn writes: the raw frame, or with a URL the HTTP request as written, whose Content-Length is `message.length` |
| Connection.Payload | lib/connection.js:304-310 | a completed reply is handed on as field 1 of its parsed frame, missing when absent, or as the HTTP body itself |
| Connection.Connection.constructor | lib/connection.js:42-49 | a new connection has an empty pool, no guard and no transaction id |
| Connection.Connection.Create | lib/connection.js:31-104 | it throws exactly what endpoint selection throws, and otherwise starts with the chosen endpoint, an empty pool and the xpaths defaulted to "document" and "document/id" |
| Connection.Connection.PutClientSocketForReuse | lib/connection.js:110-121 | the socket lists become the released pool; the guard and the transaction id are unchanged |
| Connection.Connection.AcquireSocket | lib/connection.js:225-251 | the socket lists, the socket and whether one was connected follow pool acquisition |
| Connection.Connection.OnSocketClose | lib/connection.js:240-249 | the socket lists become the pool with that socket retired |
| Connection.Connection.SendRequest | lib/connection.js:135-251 | While a begin-transaction is pending, it throws and changes nothing. A null request throws a TypeError. A request whose `getRequestXml` throws passes that error on and changes nothing. A string, the empty one included, is sent as it is; another non-request value is refused through the callback. Otherwise it sets the guard exactly for begin-transaction, clears the id on commit or rollback, acquires a socket (TLS only on a new socket of a tcps: endpoint), writes the frame or the HTTP request as written, and awaits the reply in a fresh exchange |
| Connection.Exchange.constructor | lib/connection.js:173-175 | an exchange starts with no reply and no actions |
| Connection.Exchange.OnData | lib/connection.js:255-313 | The state follows the assembler. A bad raw header ends the socket, fails the callback and lifts a begin-transaction guard. A complete reply releases the socket and is handed on decoded. The transaction id is never touched |
| Connection.Exchange.RejectHeader | lib/connection.js:259-264 | a rejected header ends the socket, fails the callback with "Invalid header received" and lifts the guard of a begin-transaction request; the reply variables and the pool stay as they were |
| Connection.Exchange.Accumulate | lib/connection.js:256-293 | past the header check the reply variables take the step `Assembler.Receive` describes, and the reply is complete exactly when received is non-zero and equals content_len |
| Connection.Exchange.Deliver | lib/connection.js:294-311 | a completed reply puts the socket back on the free list and is handed on as its decoded payload, the guard and the transaction id untouched |
| Connection.Exchange.OnEnd | lib/connection.js:315-322 | it reports "Could not read message" unless `received` reached `content_len`, then "No data received" if nothing came, then ends the socket and drops it from the free list |
| Connection.Exchange.OnError | lib/connection.js:324-326 | the error goes to the callback and nothing else changes |
| Connection.Exchange.OnReply | lib/connection.js:299-303 | for a begin-transaction, the guard is lifted and the reply's transaction id stored, or a null reply throws after the guard is lifted; other commands pass the callback arguments through |
| Js.Keys | lib/request.js:191 | `for in` visits one key per member, in insertion order |
| Js.Member | lib/request.js:157-160 | `o[key]` is the stored value, or undefined when the key is missing |
| Js.LookupFindsKeys | lib/request.js:273 | a key is found exactly when it is one of the keys |
| Js.LookupStore | lib/request.js:273-275 | after `obj[key] = v`, key reads v and every other key reads as before |
| Js.KeysStore | lib/request.js:273 | storing keeps the key order and adds a new key at the end |
| Js.StoreKeepsDistinct | lib/request.js:165 | storing never duplicates a key |
| Js.StoreTwice | lib/request.js:273 | a second assignment to a key overrides the first |
| Js.EntityOfEscape | lib/request.js:211 | each escaped special character reads back as its entity |
| Js.UnescapeStep | lib/request.js:211 | unescaping proceeds one escaped character at a time |
| Js.EscapeRoundTrip | lib/request.js:211 | `_.escape` loses nothing: unescaping gives the text back |
| Js.EscapeIsInert | lib/request.js:211 | escaped text holds none of < > " ' and the backtick |
| Js.EscapePlain | lib/request.js:39 | text without special characters is left unchanged |
| Js.Split | lib/request.js:33 | `split` gives at least one piece, and no piece contains the separator |
| Js.SplitPrefix | lib/request.js:234-235 | the text before the first separator is the first piece |
| Js.SplitTwo | lib/request.js:234-235 | two separator-free pieces joined by the separator split back into them |
| Js.SplitJoin | lib/request.js:33 | joining the pieces gives the text back |
| Terms.Tags | lib/request.js:32-33 | no tags exactly when the xpath is missing or empty, and no tag contains '/' |
| Terms.Nest | lib/request.js:33-37 | the body inside the tags, outermost first; `NestTags` proves the loop builds it |
| Terms.NestAppend | lib/request.js:34-37 | nesting in one more tag puts that tag innermost |
| Terms.WrapIsNesting | lib/request.js:34-37 | the prefix and postfix the loop builds close the tags they open, in reverse order |
| Terms.NestTags | lib/request.js:33-37 | the loop nests the body in the tags, outermost first |
| Terms.Term | lib/request.js:29-40 | the term, escaped unless `escape` is given and falsy, nested in the steps of the xpath |
| Terms.Invalid | lib/request.js:52 | the operators left to escape are the query operators that are not allowed, in order |
| Terms.QueryTerm | lib/request.js:51-55 | the term with each non-allowed operator backslashed, then escaped and nested as Term does |
| Terms.Backslashed | lib/request.js:53 | `replace(/[invalid]/g, "\\$&")`: a backslash before every invalid character; `BackslashedMarksEvery` and `BackslashRoundTrip` state it |
| Terms.BackslashedMarksEvery | lib/request.js:53 | every escaped operator is preceded by a backslash, and only backslashes are added |
| Terms.BackslashRoundTrip | lib/request.js:53 | a term without backslashes is read back unchanged |
| Terms.AllAllowedChangesNothing | lib/request.js:52-53 | allowing every operator leaves the term unchanged |
| Terms.TwoStepExample | lib/request.js:32-39 | "a/b" wraps the term as `<a><b>term</b></a>` |
| ObjectXml.GetValueType | lib/request.js:379-418 | it throws a TypeError naming the key exactly for undefined, NaN and the infinities; the mark is empty exactly for a non-empty string, array or object |
| ObjectXml.ValueToXml | lib/request.js:365-371 | an array throws, an object is converted, a boolean is spelled out, anything else is its escaped text; `ValueToXmlOk` states when it succeeds |
| ObjectXml.MemberXml | lib/request.js:431-455 | one key's elements: the tag check, then the array, empty-object or plain branch; `MemberXmlOk` states when it succeeds |
| ObjectXml.ObjectXml | lib/request.js:425-458 | the member-by-member rendering of ObjectToXml; `ObjectXmlOk` states when it succeeds |
| ObjectXml.ItemsToXml | lib/request.js:441-445 | the inner loop over an array member's items computes their elements, or the first item's error |
| ObjectXml.MembersFailureSticks | lib/request.js:427-456 | once a member fails, every longer prefix fails with the same error |
| ObjectXml.ItemsFailureSticks | lib/request.js:441-445 | once an item fails, every longer prefix fails with the same error |
| ObjectXml.ObjectToXml | lib/request.js:425-458 | the nested loops compute the member-by-member rendering; a non-empty string or array at the top throws SyntaxError "Invalid characters in tag name: 0", and any other non-object gives the empty text |
| ObjectXml.MembersXmlOk | lib/request.js:427-456 | a prefix of the members renders iff each of those members is convertible |
| ObjectXml.MemberXmlOk | lib/request.js:431-455 | one member renders iff its key is a tag name and its value is convertible |
| ObjectXml.ItemsXmlOk | lib/request.js:441-445 | the items of an array render iff none is an array and each is convertible |
| ObjectXml.ValueToXmlOk | lib/request.js:365-371 | a non-array value renders iff it is convertible |
| ObjectXml.ObjectXmlOk | lib/request.js:425-458 | ObjectToXml succeeds on an object exactly when every key is a tag name and no value is undefined, non-finite or a nested array |
| ObjectXml.NonObjectXml | lib/request.js:425-458 | for a value that is not an object, ObjectToXml gives the empty text, or throws SyntaxError "Invalid characters in tag name: 0" exactly for a non-empty string or array, whose first key is "0" |
| ObjectXml.MembersXmlPrefix | lib/request.js:427 | the rendering of the first n members depends on those members only |
| ObjectXml.ObjectXmlConcat | lib/request.js:427-456 | an object made of two runs of members renders as the first run followed by the second |
| ObjectXml.EmptyArrayMember | lib/request.js:438-439 | an empty array is one self-closing element marked as an array |
| ObjectXml.EmptyObjectMember | lib/request.js:448-449 | an empty object is one self-closing element marked as an object |
| ObjectXml.BooleanMember | lib/request.js:392-394 | a boolean is spelled out and marked as a boolean |
| ObjectXml.StringMember | lib/request.js:451-453 | a non-empty string is one element around escaped text, which holds no markup and unescapes to the string |
| ObjectXml.ArrayMemberItems | lib/request.js:440-446 | a non-empty array is one element per item, in order, each with its own type mark |
| Requests.NewValues | lib/request.js:271-276 | the parameter's new list: its old values unless replacing or unset, then the new values; `AddValues` and `ReplaceForgets` state it |
| Requests.Collected | lib/request.js:159-166 | the three lists the constructor's loop builds from the first n members, or its error; `CollectedPartitionsKeys` states it |
| Requests.ItemXml | lib/request.js:231-256 | the document of one value and the root it leaves; `ItemXmlOk` states when it succeeds |
| Requests.UnknownXml | lib/request.js:224-259 | the documents of the first n unknown parameters; `UnknownXmlOk` states when they render |
| Requests.RequestXml | lib/request.js:184-265 | the text of the string branch; `RequestFailsExactly` states when it fails |
| Requests.Wrapped | lib/request.js:272 | `_.isArray(v) ? v : [v]` is the array's items, or the value alone |
| Requests.CollectedFailureSticks | lib/request.js:159-166 | once an object-valued known parameter throws, the constructor's loop fails with that error |
| Requests.CollectedPartitionsKeys | lib/request.js:159-166 | every member of the command object lands in exactly one list: text names, XML names or unknown, each key once |
| Requests.CollectStepPartitions | lib/request.js:160-166 | one more member keeps the three lists partitioned by name, its key added to exactly one of them |
| Requests.ItemsFailureSticks | lib/request.js:230-258 | once a document value fails, the rest of the parameter fails with that error |
| Requests.UnknownFailureSticks | lib/request.js:224-259 | once an unknown parameter fails, the rendering of every longer prefix fails with that error |
| Requests.RenderingIsStable | lib/request.js:192-229 | a second getRequestXml, over the lists the first one wrapped in place, renders the same request |
| Requests.EnvelopeWrapStable | lib/request.js:192 | the envelope XML is the same before and after wrapping |
| Requests.UnknownWrapStable | lib/request.js:229 | the document XML is the same before and after wrapping |
| Requests.UnknownPrefix | lib/request.js:224 | the rendering of the first n unknown parameters depends on those n only |
| Requests.SkippedAddNothing | lib/request.js:226 | skipped parameters add nothing: the documents are those of the kept parameters, rendered as if all were allowed |
| Requests.OnlyIdsMoveTheRoot | lib/request.js:228-235 | only a string id changes the root tag |
| Requests.DocumentGoesUnderRoot | lib/request.js:228-256 | an object under "_document" is rendered inside the connection's root tag |
| Requests.IdUnderIdXpath | lib/request.js:233-256 | a string id with the xpath "a/b" becomes `<a xmlns:js=...><b>id</b></a>` whatever the root was |
| Requests.ItemXmlOk | lib/request.js:231-256 | one value renders iff it is renderable |
| Requests.ItemsRunOk | lib/request.js:230-258 | a parameter's values render iff each is renderable |
| Requests.UnknownXmlOk | lib/request.js:224-259 | the documents render iff every entry is skipped or renderable |
| Requests.RequestFailsExactly | lib/request.js:184-265 | getRequestXml fails exactly when a parameter it renders holds a value the conversion refuses; the envelope and the text and XML parameters never make it fail |
| Requests.ParamValueText | lib/request.js:211-220 | a text value holds no markup and unescapes to the value's string; an XML value goes in as its string |
| Requests.SetParamAccumulates | lib/request.js:273-276 | two setParam calls without replace leave the values of both, in order |
| Requests.ReplaceForgets | lib/request.js:271-273 | setParam with replace leaves exactly the new values, in the place the parameter had |
| Requests.AppendValues | lib/request.js:207-213 | the inner loop appends one element per value of the parameter |
| Requests.AppendParams | lib/request.js:206-223 | the outer loop appends the elements of every parameter, in key order |
| Requests.WrapPrefixAt | lib/request.js:192 | wrapping the first n entries leaves later entries as they were |
| Requests.WrapPrefixStep | lib/request.js:192 | wrapping one more entry extends the wrapped prefix |
| Requests.WrapPrefixAll | lib/request.js:192 | wrapping every entry gives the wrapped envelope |
| Requests.EnvelopeStep | lib/request.js:191-200 | the envelope XML of one more entry appends that entry's elements |
| Requests.WrappingKeepsDistinct | lib/request.js:229 | making entries lists in place keeps their keys, so a duplicate-free list stays duplicate-free |
| Requests.WrapInPlace | lib/request.js:192 | an entry that is not an array becomes a one-item array in place, and no other entry changes |
| Requests.AppendEnvelopeEntry | lib/request.js:192-199 | one round wraps entry i in place and appends its `cps:`-prefixed elements, leaving later entries as they were |
| Requests.AppendEnvelope | lib/request.js:191-200 | the envelope becomes wrapped in place, and one `cps:`-prefixed element is appended per item |
| Requests.AppendItems | lib/request.js:230-258 | the loop over one parameter's values computes their documents, carrying the root tag from value to value |
| Requests.Request.Empty | lib/request.js:137-153 | a request has its command and id, no parameters, and unknown parameters refused |
| Requests.Request.New | lib/request.js:137-173 | A non-object command gives an empty request. An object command gives its own command and requestId, with its members partitioned into text, XML and unknown parameters. It throws exactly when a known parameter holds an object |
| Requests.Request.AbsorbAll | lib/request.js:160-166 | the loop over the command's members fills the three lists as the specification `Collected` does, and throws the ReferenceError exactly when `Collected` does |
| Requests.Request.Absorb | lib/request.js:159-166 | one member goes to the text or XML list through setParam, or among the unknown parameters; an object under a known name throws and changes no list; validity is kept |
| Requests.AddValues | lib/request.js:271-276 | the parameter's list becomes its old values, or none when replacing or unset, followed by the new values; other parameters keep their places |
| Requests.Extend | lib/request.js:274-276 | pushing the values one by one leaves the list followed by all the values, in order |
| Requests.Request.SetParam | lib/request.js:268-277 | A known name gets the values added to its list, or replacing it; nothing else changes. An unknown name throws "Invalid param name" and changes nothing. Validity is kept |
| Requests.Request.SetDocs | lib/request.js:280-283 | `docs` is set only for a number at least zero, and the request itself is returned |
| Requests.Request.SetOffset | lib/request.js:284-287 | `offset` is set only for a number at least zero, and the request itself is returned |
| Requests.Request.SetUnknownParam | lib/commands.js:44 | storing a document or id as an unknown parameter keeps each key once |
| Requests.RenderUnknown | lib/request.js:224-259 | the loop yields the documents of the specification or its first conversion error; on success every rendered parameter has become a list and skipped ones are untouched, and in any case each entry is either untouched or made a list |
| Requests.RenderEntry | lib/request.js:226-258 | one pass extends the documents by those of the i-th parameter and makes that parameter a list unless it is skipped; a conversion error there is the error of the whole loop |
| Requests.Request.AppendUnknown | lib/request.js:224-259 | the documents are those of the specification; rendered parameters become arrays in place, and skipped ones are untouched; validity is kept |
| Requests.Request.GetRequestXml | lib/request.js:184-265 | the request text is the envelope, the escaped text parameters, the XML parameters and the documents inside the request and content elements, or the conversion's error; the envelope and the documents are wrapped in place, and validity is kept |

## Left out

- Sockets, TLS and HTTP transport, timers and `console.log` debugging are left out. `net.connect`/`tls.connect` become a counter of opened sockets, and `client.write` and `client.end` become recorded bytes and actions.
- `url.parse` is not modelled; its result is an input (`Endpoint.ParsedUrl`).
- The XML builder branch of `getRequestXml` (`createXML === true`) is not modelled. It belongs to the `xmlbuilder` library, which is not part of this model; the string branch is modelled instead.
- `Reply` and its `xml2js`/JSON decoding (lib/reply.js) are not part of this model. `Connection.Exchange.OnReply` takes the decoded error and transaction id as inputs.
- The envelope `sendRequest` builds (lib/connection.js:141-151: storage, user, password, command, response_format, application) is not modelled. The message is the request's XML, given to `SendRequest` as the result of `getRequestXml`.
- `label` and `requestType` (lib/request.js:171-172) are not modelled, because nothing in the core reads them.
- Date values are not modelled; numbers are integers or NaN/±Infinity, and fractional numbers are left out.
- `convertToXml` is undefined in the source. It is modelled only as the ReferenceError it throws.
- The remaining setters (`setQuery`, `setFacet`, `setGroup` and the others), the ordering helpers and the command constructors of lib/commands.js are not modelled; `setGroup` would throw on the undefined `value`.
- JavaScript enumerates integer-like keys before the other keys of an object. The model visits keys in insertion order.
- `allowed_symbols` is placed inside a regular-expression character class. The model reads it as a plain set of characters, so ranges and escapes written in it are not interpreted.
- The model does not reproduce the engine's exact wording of the TypeError for reading `command` of null. It states only that the error is a TypeError.
- The runtime is taken to be lodash 3.x and a current Node.js `Buffer`. Under lodash 3, `_.escape` escapes the backtick and `_.isFinite` accepts numbers only; lodash 2 leaves the backtick alone and accepts numeric strings in `setDocs` and `setOffset`. `Buffer.toString('utf8', start, end)` clamps its range as current Node.js does (`Bytes.Slice`); older versions coerce or reject an `end` below `start`.
- Decoding invalid UTF-8 with `toString()` is not modelled byte for byte. HTTP replies are read as one character per byte (`Assembler.AsText`).
- Event interleaving between several requests is modelled only as sequences of handler calls. Concurrency inside the JavaScript event loop is not modelled.
- Protobuf.VarintToBytes: requires a value below 2^31, because `>>` is a signed 32-bit shift. Every length the client serialises is below that.
- Requests.Request.GetRequestXml: on a conversion error it states only that each unknown parameter is either unchanged or wrapped, not how far the wrapping got.
- Protobuf.ReadVarintCons, Protobuf.ReadVarintOfVarint and Protobuf.VarintRoundTrip: state the exact weights 128^k of the groups. bytesToVarint as written shifts with the 32-bit `<<`, so it agrees with them only below 2^31 (`Protobuf.ReadVarintAgrees`, `Protobuf.VarintRoundTripAsWritten`); above that it wraps (see Findings).
- Protobuf.ParseString, Protobuf.BytesToVarint, Protobuf.ReadField and Protobuf.ParseRound: decode with exact weights. The loop as written returns the same fields whenever every varint it reads is below 2^31 (`Protobuf.ParseAgrees`), and every request frame is such a body (`Protobuf.FrameParsedAsWritten`); on other replies the two differ (see Findings).
- Protobuf.Parse: is the exact-weight parse. It is `parseString(data)` whenever every varint the loop reads is below 2^31 (`Protobuf.ParseAgrees`); a length of 2^31 or more wraps negative in the code instead (see Findings).
- Protobuf.LengthField: moves the offset strictly past the tag only with exact weights; as written, a length of 2^31 or more wraps negative and moves the offset back (`Protobuf.FirstRoundJumpsBack`).
- Protobuf.OverrunTakesRest: holds with exact weights. As written, a length of 2^31 or more wraps negative instead of running past the end.
- Protobuf.OtherWireTypeSkipsTag: relates the exact-weight parses before and after the tag. The step past the tag's bytes (line 43) is the same as written.
- Connection.Exchange.Deliver, Connection.Exchange.OnData and Connection.Payload: decode a raw reply with the exact-weight `Protobuf.Parse`, which is what the code computes whenever the reply's varints are below 2^31 (`Protobuf.ParseAgrees`).
- Requests.Request.SetUnknownParam: models only the plain assignment that lib/commands.js performs, not the command constructors around it.

## Findings

| source | as written | input that shows it | evidently intended | confidence | as-written member | corrected member |
|---|---|---|---|---|---|---|
| lib/protobuf.js:21 | `(byte & 0x7F) << shift` is a 32-bit shift: the fifth group of a length wraps to a negative number, the parse offset then moves backwards and parseString never returns (the first round's `toString` with an end below its start is read with current Node.js `Buffer` clamping) | a reply frame body of bytes 0A 80 80 80 80 08 | each 7-bit group weighted by 128^k, so the length is 2^31 and the loop ends | not executed | Protobuf.ParseStringAsWrittenLoopsForever | Protobuf.WrappingLengthParsed |
| lib/connection.js:213 | `Content-Length` is `message.length`, a count of UTF-16 code units, while the body is written as UTF-8 | a request whose XML contains "é" | Content-Length equal to the body's byte count | not executed | Wire.HttpAsWrittenUndercounts | Wire.HttpDeclaresBody |
