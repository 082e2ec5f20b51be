# gedis in Dafny

gedis is a small Redis-like key–value server with a client library. The
server holds string keys and values, and some keys carry a deadline.
Clients speak a subset of RESP, the Redis serialisation protocol:
- a request is an array frame `*<n>\r\n` followed by `n` bulk strings
  `$<len>\r\n<bytes>\r\n`;
- a reply is a simple string `+…`, an error `-…`, an integer `:…`, a bulk
  string `$…`, or the null `$-1`.

This project models the core of gedis and proves properties of the
model:

| file | module | models |
|---|---|---|
| `wire.dfy` | `Wire` | octets and byte strings; Go's 64-bit integer range; wrap-around, saturation, truncating division |
| `strconv.dfy` | `Strconv` | `strconv.Atoi`; `Atoi` with its error ignored; `Itoa`/`FormatInt` |
| `bufio.dfy` | `Bufio` | the three `bufio.Reader` calls and the `io.ReadFull` call the codecs make |
| `resp.dfy` | `Resp` | `readArray`, `readBulkString`, the five reply writers, and the request frame the client writes |
| `storage.dfy` | `Storage` | the `Store` with its two maps, its operations and one tick of the reaper |
| `server.dfy` | `Server` | `handleConnection`: the command switch and the frame loop |
| `client.dfy` | `GedisClient` | `doCommand` and the client calls built on it |

How the model is built:
- **Bytes.** A Go string is a sequence of `Byte`, a `char` below 256.
- **Readers.** A `bufio.Reader` is the input it has not yet delivered.
  Every read returns its result together with the input that is left.
- **Time.** Instants are integers of nanoseconds. The store's operations
  take the current instant `now` as a parameter. `HandleConnection` takes
  a clock `clock(i)`, the instant at which its `i`-th frame is carried out.
- **Store.** `Store` is a class whose two map fields its methods update in
  place.
- **Loops.** `readArray`, `Del`, `Keys`, the reaper tick, the connection
  loop, `doCommand`'s write loop and `Keys`' formatting loop are methods
  with loops, each proved against a function or stated outright.
- **The command switch** is split in two. `Parse` recognises the command
  from the frame alone. `Execute` carries the command out against the
  store. The predicate `Effect` states, over two `Snapshot`s of the
  store's maps, what each command does to them and what it replies.
  `HandleConnection` is proved to take the store through one such step
  per frame.

The code has several quirks, and the model keeps each of them:
- The `TTL` reply is `int64(ttl.Seconds())`. The "no deadline" (-1 ns) and
  "expired" (-2 ns) results of `Store.TTL` therefore both go out as `:0`,
  not as -1 and -2.
- `KEYS` and `FLUSHDB` are not in the server's switch. Both are rejected with
  `ERR unknown command`.
- `EXPIRE` only checks that the key still has a value. A key whose deadline
  has passed, but which no read or reaper tick has removed yet, gets a new
  deadline and comes back.
- The empty value is written as the null `$-1`. `GET` of a key holding ""
  therefore reads as not found.
- `SETEX` with ttl 0 would use a fallback of 3600 as a `time.Duration`,
  which is 3600 ns, not an hour. The server never passes 0 from a decimal
  ttl, but a ttl of 2^55 seconds wraps to 0 in the 64-bit multiplication.
- An error message is written as is, newline included. A frame whose `*`
  or `$` prefix byte is a '\n' is answered with `-ERR expected '*', got '`,
  a newline, then `'\r\n`. The client stops that reply at the newline and
  reads the leftover `'\r\n` as the start of its next reply.
- A positive ttl can make a key dead on arrival. `EXPIRE k 9223372037`
  wraps to a negative duration: the reply is `:1`, the deadline has
  already passed, and `TTL` at once replies `:0`. `SETEX` wraps the same
  way.
- The client's `SetEx` sends `SET key value EX secs`. The server's `SET`
  ignores everything after the value, so no deadline is recorded.

## Model

| member | source | states |
|---|---|---|
| Wire.WrapInt64 | gedis-server/main.go:72 | `time.Duration(secs)*time.Second` wraps: the result is an int64 congruent to the product modulo 2^64, and equal to it when it fits |
| Wire.Saturate | gedis-server/store.go:142 | `time.Until` saturates: in-range differences are exact, others clamp to the nearest int64 bound |
| Wire.TruncDiv | gedis-server/main.go:102 | whole seconds truncated toward zero: the quotient `q` has `q*b <= a < (q+1)*b` for `a >= 0` and `(q-1)*b < a <= q*b` for `a <= 0`, so 2.5 s gives 2 and -2.5 s gives -2 |
| Strconv.Atoi | gedis-server/resp.go:35 | a string is accepted exactly when it is an optional sign and at least one digit (leading zeros and '+' allowed) whose signed value is an int64, and that value is the result |
| Strconv.AtoiIgnoringError | gedis-client/client.go:82 | the integer `Atoi` yields when its error is dropped: the parsed value on success; the int64 bound of the sign after a range error (a well-formed number out of range, or digits exceeding 64 bits before any bad byte); 0 after a syntax error |
| Strconv.FormatInt | gedis-server/resp.go:96 | decimal text: only digits after an optional leading '-', which appears exactly for negative numbers |
| Strconv.AtoiFormatInt | gedis-server/resp.go:96 | round trip: `Atoi` (with or without its error) of `FormatInt(n)` is `n` for every int64 |
| Strconv.FormatIntHasNoLineBreak | gedis-server/resp.go:96 | a formatted integer contains neither '\n' nor '\r', so it never ends a line early |
| Strconv.DigitsValueFormatNat | gedis-server/resp.go:104 | the value of the digits of `n` is `n` |
| Bufio.ReadByte | gedis-server/resp.go:21 | it yields the first byte and the rest; on empty input it fails with EOF |
| Bufio.ReadLine | gedis-server/resp.go:29 | `ReadString('\n')`: the line ends with its first newline and the input is line + rest; without a newline it is EOF and all input is consumed |
| Bufio.ReadFull | gedis-server/resp.go:76 | exactly `n` bytes when available; otherwise EOF if nothing is left, UnexpectedEOF if something short is |
| Bufio.Discard | gedis-server/resp.go:81 | skips `n` bytes, or fails with EOF when fewer remain |
| Bufio.ReadLineUntilNewline | gedis-server/resp.go:29 | a line without a newline followed by '\n' is read exactly up to that newline |
| Resp.FormatByte | gedis-server/resp.go:26 | `%c` of a byte: the byte itself below 0x80, otherwise a UTF-8 lead byte `110xxxxx` and a continuation byte `10xxxxxx` whose payload bits together are the byte's value |
| Resp.TrimCRLF | gedis-server/resp.go:33 | a line ending in CRLF loses exactly those two bytes; any other line is unchanged |
| Resp.ReadBulkString | gedis-server/resp.go:52-85 | never consumes more than its input; a non-protocol failure consumes all of it |
| Resp.ReadBulkStringPayload | gedis-server/resp.go:75-84 | length `L`: exactly `L` bytes are returned and the two bytes after them are skipped whatever they are |
| Resp.ReadBulkStringNegativeLength | gedis-server/resp.go:71-73 | a negative length is the empty string and consumes nothing after its line |
| Resp.ReadBulkStringInvalidLength | gedis-server/resp.go:67-70 | an unparsable length is "invalid bulk string length" after consuming its line |
| Resp.ReadBulkStringWrongPrefix | gedis-server/resp.go:57-59 | any first byte other than '$' is "expected '$', got 'c'" after consuming that byte |
| Resp.ReadBulkStringRoundTrip | gedis-server/resp.go:99-105 | what `writeBulkString` writes, `readBulkString` reads back, consuming exactly it; "" comes back from its null as "" |
| Resp.WriteSimpleString | gedis-server/resp.go:87-89 | one `+` line holding the text when it has no newline; `GedisClient.ReadReplyOfEncode` reads it back as that text |
| Resp.WriteError | gedis-server/resp.go:91-93 | one `-` line holding the message when it has no newline; the client reads it back as a server error with that text |
| Resp.WriteInteger | gedis-server/resp.go:95-97 | one `:` line whose text `Atoi` parses back to the int64 written |
| Resp.WriteNull | gedis-server/resp.go:107-109 | one `$` line whose length field parses as -1; `GedisClient.NullRead` reads it back as nil |
| Resp.WriteBulkString | gedis-server/resp.go:99-105 | the empty string goes out as the null, everything else as a length-prefixed bulk string |
| Resp.Elements | gedis-server/resp.go:41-47 | `n` elements read in turn: on success exactly `n` strings, and the first failure ends the frame |
| Resp.ArrayFrame | gedis-server/resp.go:20-49 | empty input gives EOF without consuming anything, and every non-empty input consumes at least one byte, so EOF without consuming anything comes only from empty input (a header followed by the end of the stream is also EOF, since `readArray` passes on `readBulkString`'s EOF) |
| Resp.ReadArray | gedis-server/resp.go:20-49 | the loop that appends one bulk string per step returns exactly `ArrayFrame`'s result and leaves the reader where it says |
| Resp.ReadArrayWrongPrefix | gedis-server/resp.go:25-27 | any first byte other than '*' is "expected '*', got 'c'" after consuming that byte |
| Resp.ReadArrayInvalidLength | gedis-server/resp.go:35-38 | an unparsable or negative count is "invalid array length" after consuming its line |
| Resp.LengthLine | gedis-server/resp.go:29-35 | a decimal line `L\r\n` reads back as `L` and leaves the reader right after it |
| Resp.ElementsOfFrames | gedis-server/resp.go:41-47 | `n` well-formed bulk strings read back as exactly those strings, in order |
| Resp.ReadArrayOfRequestFrame | gedis-client/client.go:42-47 | the frame the client writes for representable arguments is decoded by `readArray` into the same arguments, consuming exactly the frame |
| Storage.Store.constructor | gedis-server/store.go:26-36 | a new store has no keys and no deadlines |
| Storage.Store.Set | gedis-server/store.go:67-72 | the value is stored and any deadline dropped; the key then exists at every instant with TTL -1 |
| Storage.Store.SetEx | gedis-server/store.go:74-82 | the value is stored with deadline now + ttl, where a zero ttl becomes 3600 ns; a positive ttl leaves the key alive with exactly that TTL |
| Storage.Store.Get | gedis-server/store.go:84-100 | a value is returned exactly when the key is live; an expired key is deleted on the spot, otherwise nothing changes; the live keys stay the same |
| Storage.Store.Del | gedis-server/store.go:102-117 | the listed keys are removed from both maps, and the count is the number of distinct listed keys that had a value (at most the number listed) |
| Storage.Store.Expire | gedis-server/store.go:119-129 | a key with a value gets deadline now + ttl and `true`; any other key changes nothing and gives `false` |
| Storage.Store.Ttl | gedis-server/store.go:131-143 | -1 exactly when there is no deadline, -2 exactly when the deadline has passed, otherwise the non-negative time left (exact when it fits) |
| Storage.Store.Keys | gedis-server/store.go:145-156 | the live keys, each exactly once |
| Storage.Store.FlushDB | gedis-server/store.go:158-164 | both maps become empty, so no key exists at any instant |
| Storage.Store.Tick | gedis-server/store.go:44-52 | every overdue key is removed from both maps; the live keys are unchanged and no overdue key is left |
| Storage.Sweep | gedis-server/store.go:47-52 | removing the overdue keys keeps deadlines within values, keeps the live keys, and leaves nothing overdue |
| Storage.CountBound | gedis-server/store.go:106-116 | no more keys are found than are listed |
| Server.UpperName | gedis-server/main.go:38 | the upper-cased name is ASCII with no lower-case letter, never longer than the name, and defined for every ASCII name |
| Server.UpperNameOfAscii | gedis-server/main.go:38 | on ASCII text upper-casing is byte by byte |
| Server.UpperNameOfUpper | gedis-server/main.go:38 | a name already in upper case is unchanged |
| Server.CaseInsensitive | gedis-server/main.go:38 | two ASCII names equal up to letter case select the same command |
| Server.ExpireTime | gedis-server/main.go:67-72 | a ttl argument is accepted exactly when it parses as a positive integer, and becomes an int64 duration congruent to that many seconds modulo 2^64, equal to it when it fits |
| Server.LookupNames | gedis-server/main.go:41-104 | each of the seven command names selects its own case |
| Server.Parse | gedis-server/main.go:34-105 | an empty frame is skipped; every rejection is one of the three messages; "wrong number of arguments" exactly when the case's arity rule fails (SET at least 2, DEL at least 1, GET and TTL exactly 1, EXPIRE exactly 2, SETEX exactly 3, PING any); "invalid expire time" only for SETEX/EXPIRE; "unknown command" exactly for unknown names; ttls are int64 |
| Server.KeysUnknown | gedis-server/main.go:103-104 | KEYS, with any arguments, is rejected as an unknown command |
| Server.FlushDbUnknown | gedis-server/main.go:103-104 | FLUSHDB, with any arguments, is rejected as an unknown command |
| Server.ParsePingAndSet | gedis-server/main.go:42-50 | PING is answered whatever follows; SET needs two arguments and ignores any beyond them |
| Server.ParseKeyCommands | gedis-server/main.go:51-100 | GET and TTL with exactly one argument become that key's command, DEL with at least one becomes a delete of all of them; any other count is "wrong number of arguments" |
| Server.ParseExpire | gedis-server/main.go:81-90 | EXPIRE with a decimal ttl is accepted exactly when it is positive, as that many seconds in nanoseconds wrapped to 64 bits |
| Server.ParseSetEx | gedis-server/main.go:62-73 | SETEX with a decimal ttl is accepted exactly when it is positive, as that many seconds in nanoseconds wrapped to 64 bits |
| Server.ExpireTimeOfFormat | gedis-server/main.go:67-72 | a ttl written in decimal is accepted exactly when positive |
| Server.WrappedTtl | gedis-server/main.go:72 | 2^55 seconds is accepted and wraps to a zero duration |
| Server.Execute | gedis-server/main.go:41-105 | the store calls and reply meet `Effect`: each command's exact new pair of maps and its exact reply (GET's value or null with lazy deletion, DEL's count, EXPIRE's 1 or 0, TTL in whole seconds) |
| Server.EffectResponds | gedis-server/main.go:41-105 | every command replies in its case's shape (one reply unless the frame is empty; DEL's count at most the keys listed) and keeps every deadline on a key with a value |
| Server.TtlSentinels | gedis-server/main.go:96-102 | TTL of a key without a live deadline replies 0 and changes nothing, since -1 ns and -2 ns truncate to 0 seconds |
| Server.SetThenGet | gedis-server/main.go:44-61 | SET k v replies OK, and a following GET k replies v and changes nothing |
| Server.DelThenGet | gedis-server/main.go:51-80 | DEL k replies 1 exactly when k had a value, and a following GET k replies null |
| Server.ExpireThenTtl | gedis-server/main.go:81-102 | EXPIRE on a key with a value replies 1, and a TTL at the same instant reports the new ttl in whole seconds, or 0 when the (wrapped) duration is negative; on any other key it replies 0 and creates nothing |
| Server.ExpireWrapsNegative | gedis-server/main.go:86-91 | a positive ttl of 9223372037 seconds is accepted and wraps to the negative duration -9223372036709551616 ns |
| Server.Answer | gedis-server/main.go:24-105 | a decoding error is answered with "ERR " and its message and changes nothing; a decoded frame's store change and reply are those `Effect` gives for its parsed command |
| Server.Frames | gedis-server/main.go:23-32 | the frames of a connection, up to and excluding the first EOF |
| Server.HandleConnection | gedis-server/main.go:18-110 | the loop takes the store through one `Step` per frame before the first EOF, from its initial maps to its final ones, each at its frame's instant, and writes exactly the replies of those steps, in order |
| Server.FramesOfRequest | gedis-server/main.go:24 | a well-formed request is delivered as one frame, and the reader goes on after it |
| Server.FramesOfRequests | gedis-server/main.go:23-24 | back-to-back well-formed requests arrive as exactly those frames, in order |
| GedisClient.ReadReply | gedis-client/client.go:53-98 | it never consumes more than its input; on empty input it reports EOF |
| GedisClient.Client.constructor | gedis-client/client.go:24-35 | `NewClient` on an open connection: nothing written yet, and the reader holds what the server will send |
| GedisClient.Client.DoCommand | gedis-client/client.go:41-99 | writes exactly the request frame of `args` after what was written before, and returns the reply `ReadReply` reads, leaving the reader after it |
| GedisClient.ElementFramesAppend | gedis-client/client.go:44-47 | the frames of two argument lists are the frames of each, concatenated |
| GedisClient.Found | gedis-client/client.go:125-127 | a nil reply becomes "key not found"; every other reply and every error passes through unchanged |
| GedisClient.Client.Get | gedis-client/client.go:120-129 | sends GET key and returns the reply with nil turned into "key not found" |
| GedisClient.AsString | gedis-client/client.go:136-139 | succeeds exactly for a string value, returning it; any other value is "invalid type"; errors pass through |
| GedisClient.Client.GetString | gedis-client/client.go:131-141 | sends GET key and returns the string, or the failure of `Get`, or "invalid type" |
| GedisClient.ErrorOf | gedis-client/client.go:116-117 | the call fails exactly when the reply is an error, with that error |
| GedisClient.SetExArgs | gedis-client/client.go:115-116 | the arguments are SET, key, value, EX and a decimal that parses back to the ttl's whole seconds, truncated toward zero |
| GedisClient.Client.SetEx | gedis-client/client.go:114-118 | sends those arguments and reports only the reply's error |
| GedisClient.Flushed | gedis-client/client.go:207-213 | "OK" exactly when the call did not fail, whatever the reply; otherwise its error |
| GedisClient.Client.FlushDB | gedis-client/client.go:207-213 | sends FLUSHDB and returns "OK" or the call's error |
| GedisClient.FormatKeys | gedis-client/client.go:200-203 | one line per key, in order, the i-th being `<i+1>) "<key>"` |
| GedisClient.ReplyLine | gedis-client/client.go:59-76 | '+' gives the line without its last two bytes, '-' a server error with that text, ':' its int64 value or a parse error; exactly the line is consumed |
| GedisClient.ReplyBareNewline | gedis-client/client.go:64 | a line that is only "\n" makes `line[:len(line)-2]` panic, for each of the four prefixes |
| GedisClient.ReplyNegativeBulk | gedis-client/client.go:82-85 | a bulk reply whose length (error ignored) is negative is nil, consuming only its line |
| GedisClient.ReplyBulkPayload | gedis-client/client.go:86-95 | a bulk reply of length `L` is exactly the next `L` bytes; the two after them are skipped whatever they are |
| GedisClient.ReplyUnexpectedPrefix | gedis-client/client.go:96-97 | any other first byte is "unexpected response prefix: c", consuming only that byte |
| GedisClient.ReadReplyOfEncode | gedis-client/client.go:53-98 | every transmissible reply (text without newline, int64, representable string) is read back as the matching value, consuming exactly its encoding; the server can also write an error reply that is not transmissible (next row) |
| GedisClient.NewlineInErrorReply | gedis-client/client.go:65-70 | when a frame's `*` or `$` prefix byte is a newline (a frame starting with '\n', as `Resp.ReadArrayWrongPrefix` shows), the server's error reply holds that newline; the client reads the error `ERR expected 'c', got ` and leaves `'\r\n` in the stream as the start of the next reply |
| GedisClient.NullRead | gedis-client/client.go:83-85 | the null `$-1` reads back as nil |
| GedisClient.EmptyValueNotFound | gedis-client/client.go:125-127 | a stored empty string, sent as the null, surfaces from `Get` as "key not found" |
| GedisClient.SetExIsPlainSet | gedis-client/client.go:116 | the server recognises what `SetEx` sends as a plain SET of key and value, so no deadline is recorded |
| GedisClient.FlushDbRejected | gedis-client/client.go:207-212 | the server rejects FLUSHDB, and the client reports that error reply as the failure of `FlushDB` |

## Left out

- Networking is left out: `net.Listen`, `Accept`, `Dial`, `Close`, the root `main.go`, and server shutdown on signals. A connection is the bytes its peer sends before closing it.
- Concurrency is left out: goroutines, the `RWMutex`, and the races it permits. These include `Get`'s `RUnlock`/`Lock` upgrade window and `FlushDB` swapping the maps under a read lock. Every operation runs alone.
- The reaper's ticker, `stopCh` and `Close` are left out. Only one tick is modelled (`Storage.Store.Tick`).
- Write and flush errors are left out. `writer.Write` and `Flush` are taken to succeed, so the error return at client.go:49-51 is not modelled.
- Allocation is left out. `make([]byte, length)` (resp.go:75) for a length beyond memory would panic, and so would `make([]string, 0, numElems)` (resp.go:40) for a huge element count such as `*9223372036854775807\r\n`; either panic ends the server. On the client, `make([]byte, length)` (client.go:86) panics the same way, for instance on `$99999999999999999999\r\n`, whose length `Atoi`'s range error clamps to 2^63-1. The model reads as if the buffer existed, so it reads elements, or the payload, until the stream ends and reports that end instead (`Resp.ReadBulkString`, `Resp.Elements`, `GedisClient.ReplyBulkPayload`).
- The clock is left out and becomes the parameter `now`. `SetEx` and each reaper tick read the clock once, `Get` and `Expire` at most once (`Get` only for a key with a deadline, `Expire` only for a key that has a value); `Keys` reads it once per key that has a deadline, and the model uses one instant for all of them; `TTL` reads it at most twice: not at all for a key with no deadline (store.go:136-137), once for a key past its deadline (store.go:139), and twice otherwise (next line). `Set`, `Del` and `FlushDB` never read it. `Time.Add` overflow near the end of the time range is not modelled.
- Storage.Store.Ttl: `TTL` reads the clock twice, once in `After` (store.go:139) and again inside `time.Until` (store.go:142). The model reads it once. If the deadline passes between the two reads, the source returns a small negative duration, which the model's `d >= 0` rules out.
- Server.UpperName: models `strings.ToUpper` only as far as it decides the command. ASCII letters, U+0131 and U+017F are mapped. Any other non-ASCII name gives `None`, because it can equal no command name.
- Server.Execute: the TTL reply `int64(ttl.Seconds())` is modelled as integer division of nanoseconds, truncated toward zero. The float64 rounding of durations beyond 2^53 ns is not modelled.
- GedisClient.SetExArgs: `int(ttl.Seconds())` is modelled as truncating integer division, as above.
- The client's `Ping`, `Set`, `GetInt`, `GetFloat`, `Del`, `Expire` and `TTL` are left out. They are further wrappers over `doCommand`, and most of them assert a type that can panic. `GetFloat` needs floating point.
- The client's `Keys` is left out except for its formatting loop (`GedisClient.FormatKeys`). `doCommand` never returns a `[]string`, so `Keys` panics on every successful reply. Its error path returns `[""]`.
- GedisClient.Decide: a `:` reply is parsed with the same syntax as `Atoi`, which is what `ParseInt(s, 10, 64)` accepts. The text of the parse error is not modelled.
- Panics are not modelled as stopping the program. The one in `line[:len(line)-2]` is the failure `LineTooShort`.
- The server's unused `ServerError` values `ErrInvalidType` and `ErrKeyNotFound` (store.go:166-169) are left out.
