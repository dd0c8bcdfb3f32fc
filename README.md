# Source server query client, modelled in Dafny

The repository is a Node.js client for Valve's Source "server queries" protocol. The client
sends A2S_INFO, A2S_PLAYER and A2S_RULES requests over UDP and decodes the replies. It also
ships two small containers, a singly linked `List` and a `Queue` built on it. This project
models the deterministic core of both.

- **Requests.** `pack` builds a request from a kind byte, an optional payload and an optional
  challenge token (`Query.Pack`, and `LegacyQuery.Pack` for the older JavaScript client).
- **Handshake.** `solicit` (TypeScript) and `challenge` (JavaScript) decide, from the first reply,
  whether to re-send the request with a challenge token. Here that decision is a function of
  the replies the server sends.
- **Peer filter.** `validate`, the TypeScript peer filter, and the JavaScript peer test decide
  whether a datagram is the target's reply.
- **Decoders.** The `info`, `players` and `rules` decoders are each written twice:
  - once as a specification function over the reply bytes (`ParseInfo`, `ParsePlayers`, `ParseRules`);
  - once as the method the source is, with a mutable `offset` cursor, a record filled field by
    field and `for` loops that push records (`DecodeInfo`, `DecodePlayers`, `DecodeRules`).

  Each method is proved equal to its function. An encoder for each reply kind serves as the
  reference, and round-trip lemmas tie it to the decoder.
- **Node's `Buffer`.** `slice` (with its clamping of negative and out-of-range indices),
  `indexOf(0, offset)` (with its -1 when there is no NUL) and the little-endian `read*`
  methods (which throw a RangeError past the end) are modelled exactly, in module `NodeBuffer`.
  A thrown RangeError is an `Err(RangeError)` result.
- **`List` and `Queue`.** `List` is a class with real `head`, `tail` and `size` fields and
  `Node` objects linked by `next`. A ghost spine `Nodes` and ghost `Contents` are tied to
  them by `Valid()`. `Queue` holds such a list and updates the same fields, as the subclass does.

The modules are:

- `Wrappers`: Option, Result and the two error kinds;
- `Bytes`: byte strings and two's complement little-endian integers;
- `NodeBuffer`: the Buffer operations above;
- `Query`: index.ts requests, the handshake, the peer filter and the socket state;
- `LegacyQuery`: index.js requests, the handshake and the peer test;
- `InfoResponse`, `PlayerResponse` and `RuleResponse`: the three decoders, which both clients share;
- `RecordLoop`: the trip count of the record loops in the player and rule decoders;
- `Lists` and `Queues`: the containers.

Three behaviours of the code are easy to overlook:

- The code reads signed integers, so the player count is a signed byte and the rule count a
  signed 16-bit integer. A negative count gives no records.
- A truncated fixed-width field throws a RangeError. A truncated string does not: it decodes
  as a shortened or empty string without an error. So everything the rules decoder reads after
  its count never throws. A rules reply with fewer pairs than its count decodes, with empty
  pairs at the end (`RuleResponse.RuleAfterEnd`). An info reply cut off inside `version` also
  decodes, with no optional field (`NodeBuffer.ReadCStringUnterminated`, `InfoResponse.ExtraOf`).
- A string without a terminating NUL becomes `slice(offset, -1)`. It loses the buffer's last
  byte, and the cursor may then run past the end (`NodeBuffer.ReadCStringUnterminated`).
  The model keeps that behaviour.

## Model

| member | source | states |
|---|---|---|
| Query.Pack | index.ts:107-122 | no contract of its own: `Query.PackLayout`, `Query.PackPayload` and `Query.PackChallengeReadsBack` specify it |
| Query.Data | index.ts:113 | no contract of its own: `Query.PackPayload` and `Query.PackLayout` specify it (payload plus NUL when non-empty, nothing otherwise) |
| Query.Preamble | index.ts:108-109 | `writeInt32LE(-1, 0)` into four bytes gives `FF FF FF FF` |
| Query.PackLayout | index.ts:107-122 | a request starts and ends with `FF FF FF FF`; byte 4 is the kind byte; the payload plus NUL sits at offset 5, only when the payload is non-empty; the length is 4 + 1 + (\|payload\| + 1 or 0) + (4 if a challenge) + 4 |
| Query.PackPayload | index.ts:113 | a non-empty payload is copied verbatim after the kind byte and followed by a NUL |
| Query.PackChallengeReadsBack | index.ts:115-121 | for every int32 token, `readInt32LE` right after the payload of the packed request returns that token |
| Query.IsChallenge | index.ts:132-134 | no contract of its own: `Query.IsChallengeByte` specifies it |
| Query.IsChallengeByte | index.ts:132-134 | `slice(4, 5).toString() === 'A'` holds exactly when byte 4 exists and is 0x41 |
| Query.Solicit | index.ts:124-142 | no contract of its own: `Query.SolicitChallenged`, `Query.SolicitDirect`, `Query.SolicitTruncatedChallenge` and `Query.SolicitSendsTwice` specify it |
| Query.SolicitChallenged | index.ts:130-138 | a challenge reply with a full token sends the first request and then `pack(h, p, token)`, where the token is `readInt32LE(first, 5)`; the result is the reply to the second request |
| Query.SolicitDirect | index.ts:130-141 | any reply whose byte 4 is not 'A' is returned unchanged after exactly one request |
| Query.SolicitTruncatedChallenge | index.ts:134-135 | a challenge reply shorter than 9 bytes makes `readInt32LE(5)` throw after one request |
| Query.SolicitSendsTwice | index.ts:130-141 | a second request is sent if and only if the first reply is a complete challenge |
| Query.Validate | index.ts:70-75 | true if and only if the sender's port and address equal the target's |
| Query.ValidateIgnoresPayload | index.ts:70-75 | the verdict does not depend on the request, the response or the target's address family |
| Query.Accept | index.ts:90-98 | the listener resolves with the first arriving datagram that passes `validate`, having rejected all before it; it resolves with none if and only if every datagram fails |
| Query.SourceQuerySocket.constructor | index.ts:15-20 | each bind option is copied; no socket exists yet |
| Query.SourceQuerySocket.Close | index.ts:65-68 | closing forgets the socket and leaves the bind options as they are |
| LegacyQuery.Pack | index.js:25-38 | no contract of its own: `LegacyQuery.PackAgainstQuery` specifies it against `Query.Pack` |
| LegacyQuery.Challenge | index.js:40-54 | no contract of its own: `LegacyQuery.ChallengeAgainstSolicit` specifies it against `Query.Solicit` |
| LegacyQuery.Ignores | index.js:13 | no contract of its own: `LegacyQuery.IgnoresIffNotValidate` specifies it |
| LegacyQuery.PackAgainstQuery | index.js:25-38 | with `if (challenge)`, every token other than 0 gives the TypeScript request; a token of 0 gives the request without a token, which differs from the TypeScript one |
| LegacyQuery.ChallengeAgainstSolicit | index.js:40-54 | both handshakes resolve with the same response; they send the same requests unless the token is 0, in which case the JavaScript client re-sends its first request unchanged |
| LegacyQuery.IgnoresIffNotValidate | index.js:12-13 | the JavaScript peer test ignores a datagram if and only if the TypeScript `validate` rejects it, that is, unless both address and port match |
| Bytes.IntLERoundTrip | index.ts:116-119 | the n-byte two's complement encoding of any value the width holds decodes back to it |
| Bytes.UIntLEBytesOfUIntLE | index.ts:292 | a byte string is the little-endian encoding of its own unsigned value |
| NodeBuffer.AdjustOffset | index.ts:162 | a `slice` index lands in [0, length]; an in-range index is kept; a negative one counts from the end |
| NodeBuffer.Slice | index.ts:155 | `slice` never throws; on in-range indices it is the sub-sequence; it is never longer than the buffer |
| NodeBuffer.SliceFrom | index.ts:206 | `slice(offset)` is the rest of the buffer, and empty once the offset is past the end |
| NodeBuffer.IndexOfNul | index.ts:162 | `indexOf(0, o)` returns -1 or a position at or after o, inside the buffer, that holds a NUL |
| NodeBuffer.IndexOfNulFirst | index.ts:162 | `indexOf(0, o)` finds the first NUL at or after o, and returns -1 exactly when there is none |
| NodeBuffer.ReadCString | index.ts:162-163 | the string read returns NUL-free bytes and advances the cursor by their length plus one |
| NodeBuffer.ReadCStringTerminated | index.ts:162-163 | with a NUL at k and none before it, the string is the bytes before k and the cursor moves to k + 1 |
| NodeBuffer.ReadCStringUnterminated | index.ts:162-163 | without a NUL, `slice(o, -1)` drops the buffer's last byte and the cursor lands on the end, or one past the offset when it was already at the end |
| NodeBuffer.ReadCStringWritten | index.ts:202-204 | decoding an encoded NUL-free string gives the string and the cursor past its terminator |
| NodeBuffer.ReadInt8 | index.ts:159 | `readInt8` succeeds exactly when the byte exists, and otherwise throws a RangeError |
| NodeBuffer.ReadInt16LE | index.ts:178 | `readInt16LE` succeeds exactly when both bytes exist, and otherwise throws a RangeError |
| NodeBuffer.ReadInt32LE | index.ts:271 | `readInt32LE` succeeds exactly when all four bytes exist, and otherwise throws a RangeError |
| NodeBuffer.ReadBigUInt64LE | index.ts:220 | `readBigUInt64LE` succeeds exactly when all eight bytes exist, and otherwise throws a RangeError |
| NodeBuffer.ReadFloatLE | index.ts:274 | `readFloatLE` needs four bytes and here yields exactly those four raw bytes |
| NodeBuffer.ReadInt32LEWritten | index.ts:118 | an int32 written little-endian reads back unchanged whatever surrounds it |
| InfoResponse.BitSet | index.ts:214 | no contract of its own: `InfoResponse.BitSetOfInt8` specifies `edf & mask` |
| InfoResponse.BitSetOfInt8 | index.ts:211-214 | `edf & mask` on the signed `readInt8` value tests the same bit of the raw byte |
| InfoResponse.InfoHead | index.ts:152-176 | the header through `game` needs 6 bytes or throws; the cursor after it is 6 plus the four string lengths plus their four NULs |
| InfoResponse.InfoFixed | index.ts:178-204 | `id` through `version` need 9 bytes from the cursor or throw; only those fields change; the two type bytes are one byte each; the cursor ends past the version's NUL |
| InfoResponse.OptionalInt16 | index.ts:214-217 | the port is read only when its bit is set; it throws only then and when short of 2 bytes; the cursor advances by 2 or 0 |
| InfoResponse.OptionalUInt64 | index.ts:219-222 | the same for the steam id and game id, with 8 bytes |
| InfoResponse.OptionalSourceTv | index.ts:224-231 | the SourceTV port and name are read only when 0x40 is set; the cursor advances by 2 + \|name\| + 1 |
| InfoResponse.OptionalCString | index.ts:233-238 | the keywords are read only when 0x20 is set, never throw, and advance the cursor by \|keywords\| + 1 |
| InfoResponse.ParseExtra | index.ts:206-245 | an empty trailer sets no optional field; otherwise the cursor ends after the EDF byte and the present fields |
| InfoResponse.ExtraOf | index.ts:206-209 | an empty trailer decodes to no optional fields |
| InfoResponse.ParseInfo | index.ts:152-245 | a reply under 6 bytes throws; the only error is a RangeError; the header and the two type fields are one byte each |
| InfoResponse.ExtraGating | index.js:113-150 | each of port, steam id, SourceTV, keywords and game id is present if and only if bit 0x80, 0x10, 0x40, 0x20 or 0x01 of the EDF byte is set; an empty trailer has none |
| InfoResponse.DecodeHead | index.ts:152-176 | the cursor-and-record code for the header through `game` computes `InfoHead` |
| InfoResponse.DecodeFixed | index.ts:178-204 | the code for `id` through `version` computes `InfoFixed` |
| InfoResponse.DecodeOptionalInt16 | index.ts:214-217 | the `if (edf & 0x80)` block computes `OptionalInt16` |
| InfoResponse.DecodeOptionalUInt64 | index.ts:219-222 | the `readBigUInt64LE` blocks compute `OptionalUInt64` |
| InfoResponse.DecodeOptionalSourceTv | index.ts:224-231 | the SourceTV block computes `OptionalSourceTv` |
| InfoResponse.DecodeExtra | index.ts:206-245 | the trailer code, with its cursor reset to 0, computes `ExtraOf` |
| InfoResponse.DecodeInfo | index.ts:152-246 | the whole `info` decoder computes `ParseInfo` |
| InfoResponse.EdfByteFlags | index.ts:214-240 | the encoder's EDF byte has exactly the bits of the fields that are present |
| InfoResponse.EncodeExtra | index.ts:206-245 | an encoded trailer is as long as the EDF byte plus the present fields |
| InfoResponse.ExtraRoundTrip | index.ts:206-245 | every combination of optional fields survives encoding and decoding, and the decoder consumes the whole trailer |
| InfoResponse.InfoRoundTrip | index.js:59-152 | every well-formed A2S_INFO reply that carries a trailer decodes to the record it was built from |
| InfoResponse.BareInfoRoundTrip | index.ts:152-209 | a well-formed reply that ends right after `version` decodes to the record with no optional field |
| PlayerResponse.ReadPlayer | index.ts:262-275 | one record consumes 1 + \|name\| + 1 + 4 + 4 bytes, ends inside the buffer, has a NUL-free name and four duration bytes, or throws a RangeError |
| PlayerResponse.PlayerRecords | index.ts:261-278 | n records in wire order, or a RangeError |
| PlayerResponse.ParsePlayers | index.ts:256-280 | a reply under 6 bytes throws; otherwise the result holds exactly max(count, 0) records for the signed count byte at offset 5 |
| PlayerResponse.NoPlayers | index.js:158-163 | a zero or negative count gives no records, whatever follows |
| PlayerResponse.PlayerRecordsFail | index.ts:261-278 | once a record throws, every longer run of records throws |
| PlayerResponse.DecodePlayer | index.ts:264-275 | the loop body computes `ReadPlayer` |
| PlayerResponse.DecodePlayers | index.ts:256-281 | the `for` loop that pushes records computes `ParsePlayers` |
| PlayerResponse.PlayersRoundTrip | index.js:158-182 | up to 127 well-formed records, encoded as a reply, decode to the same records in the same order |
| RuleResponse.ReadRule | index.ts:303-313 | one pair is two NUL-free strings consuming \|name\| + 1 + \|value\| + 1 bytes |
| RuleResponse.RuleRecords | index.ts:302-314 | n pairs, in wire order, at least two bytes each |
| RuleResponse.ParseRules | index.ts:291-317 | a reply under 4 bytes throws a RangeError; the "unsupported response" error comes exactly when the leading int32 is -2; success comes exactly when the header is not -2 and the count field exists; the result then holds max(count, 0) pairs for the signed 16-bit count at offset 5 |
| RuleResponse.SplitHeader | index.ts:292-293 | the leading int32 is -2 exactly when the reply starts `FE FF FF FF` |
| RuleResponse.RuleAfterEnd | index.ts:305-311 | past the end of the buffer a pair reads as two empty strings and the cursor still moves 2 bytes |
| RuleResponse.DecodeRule | index.ts:303-313 | the loop body computes `ReadRule` |
| RuleResponse.DecodeRules | index.ts:291-317 | the `for` loop that pushes pairs computes `ParseRules` |
| RuleResponse.RulesRoundTrip | index.js:188-213 | up to 32767 well-formed pairs, encoded as a reply, decode to the same pairs in the same order |
| Lists.Node.constructor | lib/List.ts:1-4 | a node holds the value and the next node it is built with |
| Lists.List.constructor | lib/List.ts:9-21 | a new list is valid and empty |
| Lists.List.Size | lib/List.ts:15-17 | `size` is the number of values reachable from `head` |
| Lists.List.Add | lib/List.ts:57-66 | prepends: the contents become [v] + contents with a fresh head node; `tail` moves only when the list was empty; the invariant is kept |
| Lists.List.Delete | lib/List.ts:68-89 | returns true if and only if the value is present; removes only its first occurrence from the head and keeps the rest in order; `head`, `tail` and the nodes are untouched when the value is absent; the invariant is kept, so `tail` is the last node and `size` the count |
| Lists.List.Unlink | lib/List.ts:73-81 | bypassing the i-th node drops exactly the i-th node and value and keeps the invariant |
| Lists.List.Clear | lib/List.ts:91-95 | no head, no tail, size 0, no contents |
| Lists.List.Has | lib/List.ts:97-107 | true if and only if the value is in the contents |
| Lists.List.Values | lib/List.ts:23-31 | iteration, `keys` and `values` yield the contents from head to tail |
| Lists.List.Entries | lib/List.ts:33-41 | `entries` yields each value paired with itself, in the same order |
| Lists.List.ForEach | lib/List.ts:47-55 | the callback sees (value, value) for each node, from head to tail |
| Lists.VisitRecords | test/List.spec.ts:345-380 | a callback that records its arguments sees exactly the pairs `entries` yields |
| Lists.RemoveFirstAt | lib/List.ts:72-86 | removing the first match at index i keeps everything before and after it, in order |
| Lists.RemoveFirstAbsent | lib/List.ts:88 | an absent value leaves the contents as they are |
| Lists.RemoveFirstMultiset | lib/List.ts:68-89 | exactly one copy of a present value goes, and the other values, duplicates included, remain |
| Lists.AddEach | test/List.spec.ts:286-312 | adding values one by one keeps all of them, duplicates included, and iteration yields them in reverse order of insertion |
| Queues.Queue.constructor | lib/Queue.ts:3 | a new queue is valid and empty |
| Queues.Queue.Front | lib/Queue.ts:6-8 | the first value, or none on an empty queue |
| Queues.Queue.Back | lib/Queue.ts:10-12 | the last value, or none on an empty queue |
| Queues.Queue.Enqueue | lib/Queue.ts:14-25 | appends: the contents become contents + [v] with a fresh tail node; the earlier nodes stay in place; the invariant is kept |
| Queues.Queue.Dequeue | lib/Queue.ts:27-38 | on an empty queue it returns none and changes nothing; otherwise it returns the first value and leaves the rest; taking the last value clears `head` and `tail` and sets size 0 |
| Queues.Queue.Add | lib/Queue.ts:3 | the inherited `add` prepends |
| Queues.EnqueueEach | test/Queue.spec.ts:90-99 | enqueuing values one by one keeps every one of them, in the order they came, front to back |
| Queues.AddThenDequeue | test/Queue.spec.ts:126-137 | mixing `add` with `dequeue` is last in, first out: the value just added comes out and the rest is as before |
| Queues.DequeueAll | lib/Queue.ts:27-38 | dequeuing until the queue is empty yields its values front to back and leaves it empty |
| Queues.EnqueueThenDrain | lib/Queue.ts:14-38 | any values enqueued on an empty queue leave in the order they came, and the queue is empty again |

## Left out

- The UDP socket: `bind`, `assert` and `send`, event listeners, time-outs, and closing the socket
  once no listener is left. This is I/O with event-driven concurrency. The replies are parameters
  of the handshake, and the listener is modelled as `Query.Accept` over a sequence of arrivals.
- Query.SourceQuerySocket.Close: closing the operating-system socket is I/O. Only the reset of
  the `socket` field is modelled.
- index.js's `close` (index.js:216) only closes the module-level socket. That is I/O with no field to reset, so nothing is modelled.
- The Promise helper `CircularPromise` and the type declarations in `index.d.ts` hold no logic to model.
- PlayerResponse.ReadPlayer: `readFloatLE` is floating point. The duration stays as its four raw bytes.
- `Buffer.toString()` is UTF-8 decoding. Every string stays a byte string. The header and the two
  one-byte type fields are one-byte strings.
- `parseInt` of the port argument is JavaScript string parsing. Ports are integers here.
- The kind byte is one byte. The source passes a one-character ASCII string, which `Buffer.from` turns into that byte.
- The challenge token is an int32, the only thing `readInt32LE` can return.
- The decoders of index.js are the same code as index.ts. The one difference is the text of
  the "unsupported response" error, and both texts are the one error `UnsupportedResponse`.
- The result records: the source fills them field by field through untyped objects. Here
  they are datatypes filled in the same order, starting from a placeholder with every field
  unset. An absent optional field is `None` rather than a missing property.
- Lists.List.Add and Queues.Queue.Enqueue: they return nothing; the source returns `this` for chaining.
- Lists.List.Delete: `Object.is` is modelled as Dafny equality, which has no NaN or signed-zero cases.
- Lists.List.Delete: the multiset of the remaining contents is proved about `RemoveFirst`
  (`Lists.RemoveFirstMultiset`), not in the method's own contract.
- Lists.List.ForEach: the callback's `this` binding (`scope`) and the list argument it is passed
  are left out. The callback's effect is threaded as an accumulator value.
- `Symbol.toStringTag` and the `Set<T>` interface declaration are not modelled.
- Queues.Queue: the subclass becomes a queue that holds its list (Dafny classes do not inherit
  without traits). It updates the list's `head`, `tail` and size exactly as the subclass does.
- Aliasing between distinct lists is not modelled. Every list owns its nodes.
