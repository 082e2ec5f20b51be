/** The client library: the request frame it writes for a command, the
    reply it reads back by the reply's first byte, and the thin wrappers
    that turn that reply into the result of `Get`, `GetString`, `SetEx`,
    `FlushDB` and the display lines of `Keys`. */
module GedisClient {
  import opened Wire
  import opened Strconv
  import opened Bufio
  import opened Resp
  import opened Server
  import Storage

  /** What a successful `doCommand` returns: a string, an `int64`, or
      nil. */
  datatype Value = Str(text: Bytes) | Int(number: int) | Nil

  /** Why a client call fails. */
  datatype Failure =
    | Io(cause: ReadError)          // the reader's own error
    | ServerError(message: Bytes)   // an error reply, `errors.New(text)`
    | BadInteger(text: Bytes)       // an integer reply `ParseInt` refuses
    | UnexpectedPrefix(message: Bytes)
    | LineTooShort                  // `line[:len(line)-2]` on a bare "\n" panics
    | KeyNotFound                   // `ErrKeyNotFound`, "key not found"
    | InvalidType                   // `ErrInvalidType`, "invalid type"

  /** One reply read from the connection, and the bytes after it. */
  datatype Decoded = Decoded(result: Result<Value, Failure>, rest: Bytes)

  /** A reader error as the client reports it. */
  function Lift(p: Parsed<Bytes>): (d: Decoded)
    ensures d.rest == p.rest
    ensures p.result.Ok? <==> d.result.Ok?
    ensures p.result.Ok? ==> d.result.value == Str(p.result.value)
    ensures p.result.Err? ==> d.result.error == Io(p.result.error)
  {
    match p.result
    case Ok(s) => Decoded(Ok(Str(s)), p.rest)
    case Err(e) => Decoded(Err(Io(e)), p.rest)
  }

  /** The prefixes the reply switch handles, each followed by a line. */
  predicate LinePrefix(c: Byte) {
    c == '+' || c == '-' || c == ':' || c == '$'
  }

  /** The reply switch once the prefix byte and its line, minus the line's
      last two bytes, are read; `rest` follows the line. */
  function Decide(c: Byte, text: Bytes, rest: Bytes): (d: Decoded)
    requires LinePrefix(c)
    ensures c == '+' ==> d == Decoded(Ok(Str(text)), rest)
    ensures c == '-' ==> d == Decoded(Err(ServerError(text)), rest)
    ensures c == ':' ==> d == match Atoi(text)
                             case None => Decoded(Err(BadInteger(text)), rest)
                             case Some(n) => Decoded(Ok(Int(n)), rest)
    ensures c == '$' && AtoiIgnoringError(text) < 0 ==> d == Decoded(Ok(Nil), rest)
    ensures c == '$' && AtoiIgnoringError(text) >= 0 ==> d == Lift(Payload(rest, AtoiIgnoringError(text)))
    ensures c == '$' ==> |d.rest| <= |rest|
  {
    if c == '+' then Decoded(Ok(Str(text)), rest)
    else if c == '-' then Decoded(Err(ServerError(text)), rest)
    else if c == ':' then
      match Atoi(text)
      case None => Decoded(Err(BadInteger(text)), rest)
      case Some(n) => Decoded(Ok(Int(n)), rest)
    else
      var length := AtoiIgnoringError(text);
      if length < 0 then Decoded(Ok(Nil), rest)
      else Lift(Payload(rest, length))
  }

  /** The reading half of `doCommand`: the prefix byte, then for the four
      known prefixes a line whose last two bytes are dropped, and for `$`
      with a length `L >= 0` exactly `L` bytes and two more skipped. */
  function ReadReply(input: Bytes): (d: Decoded)
    ensures |d.rest| <= |input|
    ensures input == [] ==> d == Decoded(Err(Io(EOF)), [])
  {
    var b := ReadByte(input);
    if b.result.Err? then Decoded(Err(Io(b.result.error)), b.rest)
    else
      var c := b.result.value;
      if !LinePrefix(c) then
        Decoded(Err(UnexpectedPrefix("unexpected response prefix: " + FormatByte(c))), b.rest)
      else
        var l := ReadLine(b.rest);
        if l.result.Err? then Decoded(Err(Io(l.result.error)), l.rest)
        else
          var line := l.result.value;
          if |line| < 2 then Decoded(Err(LineTooShort), l.rest)
          else Decide(c, line[..|line| - 2], l.rest)
  }

  /** The connection as the client sees it: the bytes it has flushed to
      the server so far, and the bytes the server has sent that it has
      not read yet. */
  class Client {
    var written: Bytes
    var incoming: Bytes

    /** `NewClient` on a connection whose server will send `replies`. */
    constructor (replies: Bytes)
      ensures written == [] && incoming == replies
    {
      written := [];
      incoming := replies;
    }

    /** `doCommand`: writes the request frame for `args`, one bulk string
        per argument, and reads one reply. */
    method DoCommand(args: seq<Bytes>) returns (r: Result<Value, Failure>)
      modifies this
      ensures written == old(written) + RequestFrame(args)
      ensures r == ReadReply(old(incoming)).result
      ensures incoming == ReadReply(old(incoming)).rest
    {
      var header := "*" + FormatInt(|args|) + CRLF;
      written := written + header;
      var i := 0;
      while i < |args|
        invariant 0 <= i <= |args|
        invariant written == old(written) + header + ElementFrames(args[..i])
        invariant incoming == old(incoming)
      {
        ghost var before := written;
        written := written + ("$" + FormatInt(|args[i]|) + CRLF);
        written := written + (args[i] + CRLF);
        ghost var previous := i;
        i := i + 1;
        WrittenStep(args, previous, i, old(written) + header, before, written);
      }
      assert args[..|args|] == args;
      assert old(written) + header + ElementFrames(args) == old(written) + RequestFrame(args);
      var d := ReadReply(incoming);
      incoming := d.rest;
      r := d.result;
    }

    /** `Get`. */
    method Get(key: Bytes) returns (r: Result<Value, Failure>)
      modifies this
      ensures written == old(written) + RequestFrame(["GET", key])
      ensures r == Found(ReadReply(old(incoming)).result)
      ensures incoming == ReadReply(old(incoming)).rest
    {
      var v := DoCommand(["GET", key]);
      r := Found(v);
    }

    /** `GetString`. */
    method GetString(key: Bytes) returns (r: Result<Bytes, Failure>)
      modifies this
      ensures written == old(written) + RequestFrame(["GET", key])
      ensures r == AsString(Found(ReadReply(old(incoming)).result))
      ensures incoming == ReadReply(old(incoming)).rest
    {
      var v := Get(key);
      r := AsString(v);
    }

    /** `SetEx`: only the error of the reply matters. */
    method SetEx(key: Bytes, value: Bytes, ttl: int) returns (r: Option<Failure>)
      modifies this
      ensures written == old(written) + RequestFrame(SetExArgs(key, value, ttl))
      ensures r == ErrorOf(ReadReply(old(incoming)).result)
      ensures incoming == ReadReply(old(incoming)).rest
    {
      var v := DoCommand(SetExArgs(key, value, ttl));
      r := ErrorOf(v);
    }

    /** `FlushDB`. */
    method FlushDB() returns (r: Result<Bytes, Failure>)
      modifies this
      ensures written == old(written) + RequestFrame(["FLUSHDB"])
      ensures r == Flushed(ReadReply(old(incoming)).result)
      ensures incoming == ReadReply(old(incoming)).rest
    {
      var v := DoCommand(["FLUSHDB"]);
      r := Flushed(v);
    }
  }

  /** Appending one more argument's two writes extends the frames
      written so far by that argument's bulk string. */
  lemma WrittenStep(args: seq<Bytes>, i: nat, j: nat, base: Bytes, before: Bytes, after: Bytes)
    requires i < |args| && j == i + 1
    requires before == base + ElementFrames(args[..i])
    requires after == before + ("$" + FormatInt(|args[i]|) + CRLF) + (args[i] + CRLF)
    ensures after == base + ElementFrames(args[..j])
  {
    var x := args[i];
    var head := "$" + FormatInt(|x|) + CRLF;
    assert args[..j] == args[..i] + [x];
    ElementFramesAppend(args[..i], [x]);
    OneFrame(x);
    Reassociate3(head, x, CRLF);
    Reassociate3(before, head, x + CRLF);
    Reassociate3(base, ElementFrames(args[..i]), BulkFrame(x));
  }

  lemma {:induction false} ElementFramesAppend(a: seq<Bytes>, b: seq<Bytes>)
    ensures ElementFrames(a + b) == ElementFrames(a) + ElementFrames(b)
  {
    if a == [] {
      assert a + b == b;
    } else {
      var ab := a + b;
      assert ab[1..] == a[1..] + b;
      ElementFramesAppend(a[1..], b);
      Reassociate3(BulkFrame(a[0]), ElementFrames(a[1..]), ElementFrames(b));
    }
  }

  lemma OneFrame(x: Bytes)
    ensures ElementFrames([x]) == BulkFrame(x)
  {
    assert [x][1..] == [];
  }

  lemma Reassociate3<T>(x: seq<T>, y: seq<T>, z: seq<T>)
    ensures x + (y + z) == (x + y) + z
  {
  }

  // ----- The wrappers -----

  /** `Get`: a nil reply means the key was not found. */
  function Found(r: Result<Value, Failure>): (g: Result<Value, Failure>)
    ensures g.Ok? ==> g.value != Nil && r == g
    ensures r == Ok(Nil) ==> g == Err(KeyNotFound)
    ensures r.Err? ==> g == r
    ensures r.Ok? && r.value != Nil ==> g == r
  {
    if r == Ok(Nil) then Err(KeyNotFound) else r
  }

  /** `GetString`: a value that is not a string is the wrong type. */
  function AsString(r: Result<Value, Failure>): (s: Result<Bytes, Failure>)
    ensures s.Ok? <==> r.Ok? && r.value.Str?
    ensures s.Ok? ==> s.value == r.value.text
    ensures r.Ok? && !r.value.Str? ==> s == Err(InvalidType)
    ensures r.Err? ==> s == Err(r.error)
  {
    match r
    case Err(e) => Err(e)
    case Ok(Str(text)) => Ok(text)
    case Ok(_) => Err(InvalidType)
  }

  /** The error of a call whose value is thrown away. */
  function ErrorOf(r: Result<Value, Failure>): (e: Option<Failure>)
    ensures e.None? <==> r.Ok?
    ensures r.Err? ==> e == Some(r.error)
  {
    if r.Ok? then None else Some(r.error)
  }

  /** `FlushDB`: "OK" whenever the call did not fail, whatever the
      reply. */
  function Flushed(r: Result<Value, Failure>): (f: Result<Bytes, Failure>)
    ensures f.Ok? <==> r.Ok?
    ensures f.Ok? ==> f.value == "OK"
    ensures r.Err? ==> f == Err(r.error)
  {
    if r.Ok? then Ok("OK") else Err(r.error)
  }

  /** What `SetEx` sends: `SET key value EX <secs>`, with the whole
      seconds of `ttl` (nanoseconds), truncated toward zero. */
  function SetExArgs(key: Bytes, value: Bytes, ttl: int): (args: seq<Bytes>)
    ensures |args| == 5 && args[0] == "SET" && args[1] == key && args[2] == value && args[3] == "EX"
    ensures IsInt64(ttl) ==> Atoi(args[4]) == Some(TruncDiv(ttl, Second))
  {
    var secs := TruncDiv(ttl, Second);
    var args := ["SET", key, value, "EX", FormatInt(secs)];
    if IsInt64(ttl) then TruncDivBound(ttl); AtoiFormatInt(secs); args else args
  }

  lemma TruncDivBound(ttl: int)
    requires IsInt64(ttl)
    ensures IsInt64(TruncDiv(ttl, Second))
  {
    if ttl >= 0 {
      assert NatDiv(ttl, Second) <= ttl;
    } else {
      assert NatDiv(-ttl, Second) <= -ttl;
    }
  }

  /** The display line of the key at index `i` of `Keys`:
      `<i+1>) "<key>"`. */
  function KeyLine(i: nat, key: Bytes): Bytes {
    FormatInt(i + 1) + ") \"" + key + "\""
  }

  /** The loop of `Keys` over the keys it was given: one numbered,
      quoted line per key, in order. */
  method FormatKeys(keys: seq<Bytes>) returns (result: array<Bytes>)
    ensures fresh(result)
    ensures result.Length == |keys|
    ensures forall i :: 0 <= i < |keys| ==> result[i] == KeyLine(i, keys[i])
  {
    result := new Bytes[|keys|];
    for i := 0 to |keys|
      invariant forall k :: 0 <= k < i ==> result[k] == KeyLine(k, keys[k])
    {
      result[i] := KeyLine(i, keys[i]);
    }
  }

  // ----- Properties of the reply reader -----

  /** The value the client reads for each reply the server can write. */
  function Seen(r: Reply): Result<Value, Failure> {
    match r
    case SimpleReply(s) => Ok(Str(s))
    case ErrorReply(m) => Err(ServerError(m))
    case IntegerReply(n) => Ok(Int(n))
    case BulkReply(s) => if s == [] then Ok(Nil) else Ok(Str(s))
    case NullReply => Ok(Nil)
  }

  /** The replies whose encoding the client can read back: text without
      a newline, an `int64`, and a string whose length is an `int`. */
  predicate Transmissible(r: Reply) {
    match r
    case SimpleReply(s) => '\n' !in s
    case ErrorReply(m) => '\n' !in m
    case IntegerReply(n) => IsInt64(n)
    case BulkReply(s) => |s| <= MaxInt64
    case NullReply => true
  }

  /** Once the prefix and its line are read, the line minus its last two
      bytes decides the reply. */
  lemma ReplyAfterLine(input: Bytes, line: Bytes, rest: Bytes)
    requires input != [] && LinePrefix(input[0])
    requires ReadLine(input[1..]) == Parsed(Ok(line), rest)
    ensures |line| < 2 ==> ReadReply(input) == Decoded(Err(LineTooShort), rest)
    ensures |line| >= 2 ==> ReadReply(input) == Decide(input[0], line[..|line| - 2], rest)
  {
  }

  /** A simple, error or integer reply is its line without the last two
      bytes, whatever they are. */
  lemma ReplyLine(c: Byte, text: Bytes, rest: Bytes)
    requires c == '+' || c == '-' || c == ':'
    requires |text| >= 1 && '\n' !in text
    ensures var d := ReadReply([c] + text + "\n" + rest);
            var value := text[..|text| - 1];
            && (c == '+' ==> d == Decoded(Ok(Str(value)), rest))
            && (c == '-' ==> d == Decoded(Err(ServerError(value)), rest))
            && (c == ':' ==> d == match Atoi(value)
                                  case None => Decoded(Err(BadInteger(value)), rest)
                                  case Some(n) => Decoded(Ok(Int(n)), rest))
  {
    LineReply([c] + text + "\n" + rest, c, text, rest);
  }

  /** A line prefix, a line `text` and its newline: the switch sees
      `text` without its last byte. */
  lemma LineReply(input: Bytes, c: Byte, text: Bytes, rest: Bytes)
    requires input == [c] + text + "\n" + rest
    requires LinePrefix(c) && |text| >= 1 && '\n' !in text
    ensures ReadReply(input) == Decide(c, text[..|text| - 1], rest)
  {
    HeaderLine(c, text, rest);
    var line := text + "\n";
    ReplyAfterLine(input, line, rest);
    assert line[..|line| - 2] == text[..|text| - 1];
  }

  /** A line that is only "\n" makes the slicing in `doCommand` panic. */
  lemma ReplyBareNewline(c: Byte, rest: Bytes)
    requires LinePrefix(c)
    ensures ReadReply([c] + "\n" + rest) == Decoded(Err(LineTooShort), rest)
  {
    HeaderLine(c, [], rest);
    assert [c] + [] + "\n" + rest == [c] + "\n" + rest;
    ReplyAfterLine([c] + "\n" + rest, "\n", rest);
  }

  /** A bulk reply with a negative length is nil; nothing after its line
      is consumed. */
  lemma ReplyNegativeBulk(text: Bytes, rest: Bytes)
    requires |text| >= 1 && '\n' !in text
    requires AtoiIgnoringError(text[..|text| - 1]) < 0
    ensures ReadReply("$" + text + "\n" + rest) == Decoded(Ok(Nil), rest)
  {
    LineReply("$" + text + "\n" + rest, '$', text, rest);
  }

  /** A bulk reply of length `L` is exactly the `L` bytes after its line;
      the two bytes after them are skipped whatever they are. */
  lemma ReplyBulkPayload(s: Bytes, trailer: Bytes, rest: Bytes)
    requires |s| <= MaxInt64 && |trailer| == 2
    ensures ReadReply("$" + FormatInt(|s|) + CRLF + s + trailer + rest) == Decoded(Ok(Str(s)), rest)
  {
    var body := s + trailer + rest;
    var input := "$" + FormatInt(|s|) + CRLF + s + trailer + rest;
    assert input[0] == '$';
    assert input[1..] == FormatInt(|s|) + CRLF + body;
    LengthLine(|s|, body);
    var line := ReadLine(input[1..]).result.value;
    ReplyAfterLine(input, line, body);
    assert line[..|line| - 2] == TrimCRLF(line);
    AtoiFormatInt(|s|);
    assert ReadReply(input) == Decide('$', TrimCRLF(line), body);
    PayloadExact(s, trailer, rest);
  }

  /** `L` payload bytes and a two-byte trailer leave exactly what
      follows. */
  lemma PayloadExact(s: Bytes, trailer: Bytes, rest: Bytes)
    requires |trailer| == 2
    ensures Payload(s + trailer + rest, |s|) == Parsed(Ok(s), rest)
  {
    var body := s + trailer + rest;
    assert body[..|s|] == s && body[|s|..] == trailer + rest;
    assert (trailer + rest)[2..] == rest;
  }

  /** Any other first byte is reported, and only that byte is
      consumed. */
  lemma ReplyUnexpectedPrefix(c: Byte, rest: Bytes)
    requires !LinePrefix(c)
    ensures ReadReply([c] + rest) ==
              Decoded(Err(UnexpectedPrefix("unexpected response prefix: " + FormatByte(c))), rest)
  {
    assert ([c] + rest)[1..] == rest;
  }

  /** Round trip: every reply the server can write is read back by the
      client as the matching value, consuming exactly its encoding. */
  lemma ReadReplyOfEncode(r: Reply, rest: Bytes)
    requires Transmissible(r)
    ensures ReadReply(Encode(r) + rest) == Decoded(Seen(r), rest)
  {
    match r
    case SimpleReply(s) =>
      LineOfWrite(r, '+', s, rest);
      TextLine('+', s, rest);
    case ErrorReply(m) =>
      LineOfWrite(r, '-', m, rest);
      TextLine('-', m, rest);
    case IntegerReply(n) =>
      FormatIntHasNoLineBreak(n);
      LineOfWrite(r, ':', FormatInt(n), rest);
      TextLine(':', FormatInt(n), rest);
      AtoiFormatInt(n);
    case BulkReply(s) =>
      if s == [] {
        NullRead(rest);
      } else {
        assert Encode(r) + rest == "$" + FormatInt(|s|) + CRLF + s + CRLF + rest;
        ReplyBulkPayload(s, CRLF, rest);
      }
    case NullReply =>
      NullRead(rest);
  }

  /** The encoding of a one-line reply, split where `TextLine` reads it. */
  lemma LineOfWrite(r: Reply, c: Byte, text: Bytes, rest: Bytes)
    requires r.SimpleReply? || r.ErrorReply? || r.IntegerReply?
    requires c == (if r.SimpleReply? then '+' else if r.ErrorReply? then '-' else ':')
    requires text == (if r.SimpleReply? then r.text else if r.ErrorReply? then r.message else FormatInt(r.number))
    ensures Encode(r) + rest == [c] + (text + "\r") + "\n" + rest
  {
    assert Encode(r) == [c] + text + CRLF;
  }

  /** A line `text\r\n` after one of the line prefixes loses exactly its
      CRLF. */
  lemma TextLine(c: Byte, text: Bytes, rest: Bytes)
    requires c == '+' || c == '-' || c == ':'
    requires '\n' !in text
    ensures var d := ReadReply([c] + (text + "\r") + "\n" + rest);
            && (c == '+' ==> d == Decoded(Ok(Str(text)), rest))
            && (c == '-' ==> d == Decoded(Err(ServerError(text)), rest))
            && (c == ':' ==> d == match Atoi(text)
                                  case None => Decoded(Err(BadInteger(text)), rest)
                                  case Some(n) => Decoded(Ok(Int(n)), rest))
  {
    ReplyLine(c, text + "\r", rest);
    assert (text + "\r")[..|text|] == text;
  }

  /** The null `$-1\r\n` reads back as nil. */
  lemma NullRead(rest: Bytes)
    ensures ReadReply(WriteNull() + rest) == Decoded(Ok(Nil), rest)
  {
    assert WriteNull() + rest == "$" + "-1\r" + "\n" + rest;
    assert "-1\r"[..2] == "-1";
    AtoiFormatInt(-1);
    assert FormatInt(-1) == "-1";
    ReplyNegativeBulk("-1\r", rest);
  }

  // ----- The client against this server -----

  /** A frame whose header (`*`) or element prefix (`$`) is a '\n' is
      refused with a message that carries the newline itself, since `%c`
      prints it as is; `ReadArrayWrongPrefix('\n', rest)` gives that
      error for a frame starting with '\n'. The client stops that reply's
      line at the newline: it reports a shortened message and leaves
      "'\r\n" to be read as the start of the next reply. */
  lemma NewlineInErrorReply(e: Byte, frame: Result<seq<Bytes>, ReadError>, now: int,
                            s: Storage.Snapshot, t: Storage.Snapshot, out: Outcome, later: Bytes, head: Bytes)
    requires e == '*' || e == '$'
    requires frame == Err(Malformed(Unexpected(e, '\n')))
    requires Step(frame, now, s, t, out)
    requires head == "ERR expected '" + [e] + "', got "
    ensures out.Replied?
    ensures ReadReply(Encode(out.reply) + later)
            == Decoded(Err(ServerError(head)), "'" + CRLF + later)
  {
    assert out == Replied(ErrorReply("ERR " + Message(frame.error)));
    var pre := head + "'";
    assert FormatByte('\n') == "\n";
    assert "ERR " + "expected '" == "ERR expected '";
    assert "', got '" == "', got " + "'";
    assert "ERR " + Unexpected(e, '\n') == pre + "\n" + "'";
    assert '\n' !in pre;
    ErrorWithNewline(pre, "'", later);
    assert pre[..|pre| - 1] == head;
  }

  /** An error reply whose message holds a newline: the client's line
      ends at that newline. */
  lemma ErrorWithNewline(pre: Bytes, post: Bytes, later: Bytes)
    requires |pre| >= 1 && '\n' !in pre
    ensures ReadReply(Encode(ErrorReply(pre + "\n" + post)) + later)
            == Decoded(Err(ServerError(pre[..|pre| - 1])), post + CRLF + later)
  {
    var input := Encode(ErrorReply(pre + "\n" + post)) + later;
    assert input == ['-'] + pre + "\n" + (post + CRLF + later);
    LineReply(input, '-', pre, post + CRLF + later);
  }

  /** A key stored with the empty value is sent as a null and so reads
      as not found. */
  lemma EmptyValueNotFound(rest: Bytes)
    ensures Found(ReadReply(Encode(BulkReply([])) + rest).result) == Err(KeyNotFound)
  {
    ReadReplyOfEncode(BulkReply([]), rest);
  }

  /** What `SetEx` sends is an ordinary SET to this server: the ttl is
      ignored, so the key is stored without a deadline. */
  lemma SetExIsPlainSet(key: Bytes, value: Bytes, ttl: int)
    ensures Parse(SetExArgs(key, value, ttl)) == Set(key, value)
  {
    var args := SetExArgs(key, value, ttl);
    UpperNameOfUpper("SET");
    assert args == ["SET"] + args[1..];
    ParsePingAndSet("SET", args[1..]);
  }

  /** The server rejects FLUSHDB, and the client reports that error
      reply as the failure of `FlushDB`. */
  lemma FlushDbRejected(rest: Bytes)
    ensures Parse(["FLUSHDB"]) == Reject(UnknownCommand)
    ensures Flushed(ReadReply(Encode(ErrorReply(UnknownCommand)) + rest).result) == Err(ServerError(UnknownCommand))
  {
    FlushDbUnknown([]);
    assert ["FLUSHDB"] + [] == ["FLUSHDB"];
    assert '\n' !in UnknownCommand;
    ReadReplyOfEncode(ErrorReply(UnknownCommand), rest);
  }
}
