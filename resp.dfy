/** The server's wire codec: decoding a request frame
    `*<n>\r\n` followed by `n` bulk strings `$<len>\r\n<bytes>\r\n`, and
    encoding the five kinds of reply. */
module Resp {
  import opened Wire
  import opened Strconv
  import opened Bufio

  /** How `fmt`'s `%c` prints a byte: as the UTF-8 encoding of the code
      point with that value, so bytes from 0x80 up take two bytes. */
  function FormatByte(b: Byte): (r: Bytes)
    ensures b as int < 0x80 ==> r == [b]
    ensures b as int >= 0x80 ==> |r| == 2 && r[0] as int / 32 == 6 && r[1] as int / 64 == 2
    ensures b as int >= 0x80 ==> (r[0] as int % 32) * 64 + r[1] as int % 64 == b as int
  {
    if b as int < 0x80 then [b]
    else [(0xC0 + b as int / 64) as char, (0x80 + b as int % 64) as char]
  }

  /** The message of a wrong prefix byte: "expected 'X', got 'Y'". */
  function Unexpected(expected: Byte, got: Byte): Bytes {
    "expected '" + [expected] + "', got '" + FormatByte(got) + "'"
  }

  const InvalidArrayLength: Bytes := "invalid array length"
  const InvalidBulkLength: Bytes := "invalid bulk string length"

  /** `strings.TrimSuffix(line, "\r\n")`. */
  function TrimCRLF(line: Bytes): (r: Bytes)
    ensures r <= line
    ensures r == line <==> !(|line| >= 2 && line[|line| - 2..] == CRLF)
    ensures |line| >= 2 && line[|line| - 2..] == CRLF ==> r == line[..|line| - 2]
  {
    if |line| >= 2 && line[|line| - 2..] == CRLF then line[..|line| - 2] else line
  }

  /** `readBulkString`: a `$`, a length line, and then for a length
      `L >= 0` exactly `L` payload bytes followed by two bytes that are
      skipped whatever they are; a negative length is an empty string
      with no payload. */
  function ReadBulkString(input: Bytes): (p: Parsed<Bytes>)
    ensures |p.rest| <= |input|
    ensures p.result.Err? && !p.result.error.Malformed? ==> p.rest == []
  {
    var b := ReadByte(input);
    if b.result.Err? then Parsed(Err(b.result.error), b.rest)
    else if b.result.value != '$' then Parsed(Err(Malformed(Unexpected('$', b.result.value))), b.rest)
    else
      var l := ReadLine(b.rest);
      if l.result.Err? then Parsed(Err(l.result.error), l.rest)
      else
        match Atoi(TrimCRLF(l.result.value))
        case None => Parsed(Err(Malformed(InvalidBulkLength)), l.rest)
        case Some(length) =>
          if length < 0 then Parsed(Ok([]), l.rest) else Payload(l.rest, length)
  }

  /** The payload of a bulk string of length `L >= 0`: `L` bytes, then two
      more that are skipped. */
  function Payload(input: Bytes, length: nat): (p: Parsed<Bytes>)
    ensures |p.rest| <= |input|
  {
    var f := ReadFull(input, length);
    if f.result.Err? then Parsed(Err(f.result.error), f.rest)
    else
      var d := Discard(f.rest, 2);
      if d.result.Err? then Parsed(Err(d.result.error), d.rest)
      else Parsed(Ok(f.result.value), d.rest)
  }

  /** The next `n` elements of an array frame, read one after another;
      the first failure ends the frame. */
  function Elements(input: Bytes, n: nat): (p: Parsed<seq<Bytes>>)
    decreases n
    ensures |p.rest| <= |input|
    ensures p.result.Ok? ==> |p.result.value| == n
    ensures p.result.Err? && !p.result.error.Malformed? ==> p.rest == []
  {
    if n == 0 then Parsed(Ok([]), input)
    else
      var e := ReadBulkString(input);
      if e.result.Err? then Parsed(Err(e.result.error), e.rest)
      else Prepend([e.result.value], Elements(e.rest, n - 1))
  }

  /** Elements already read, put in front of the ones still to come. */
  function Prepend(args: seq<Bytes>, p: Parsed<seq<Bytes>>): (r: Parsed<seq<Bytes>>)
    ensures r.rest == p.rest
    ensures p.result.Ok? ==> r == Parsed(Ok(args + p.result.value), p.rest)
    ensures p.result.Err? ==> r == p
  {
    if p.result.Ok? then Parsed(Ok(args + p.result.value), p.rest) else p
  }

  /** What `readArray` returns and where it leaves the reader. Only the
      end of the input can produce EOF without consuming anything, so
      every other outcome moves the reader forward. */
  function ArrayFrame(input: Bytes): (p: Parsed<seq<Bytes>>)
    ensures |p.rest| <= |input|
    ensures p.result.Err? && !p.result.error.Malformed? ==> p.rest == []
    ensures input != [] ==> |p.rest| < |input|
    ensures input == [] ==> p == Parsed(Err(EOF), [])
  {
    var b := ReadByte(input);
    if b.result.Err? then Parsed(Err(b.result.error), b.rest)
    else if b.result.value != '*' then Parsed(Err(Malformed(Unexpected('*', b.result.value))), b.rest)
    else
      var l := ReadLine(b.rest);
      if l.result.Err? then Parsed(Err(l.result.error), l.rest)
      else
        match Atoi(TrimCRLF(l.result.value))
        case None => Parsed(Err(Malformed(InvalidArrayLength)), l.rest)
        case Some(count) =>
          if count < 0 then Parsed(Err(Malformed(InvalidArrayLength)), l.rest)
          else Elements(l.rest, count)
  }

  /** `readArray`: reads the header, then the elements one at a time,
      appending each to the argument list. */
  method ReadArray(input: Bytes) returns (result: Result<seq<Bytes>, ReadError>, rest: Bytes)
    ensures Parsed(result, rest) == ArrayFrame(input)
  {
    var b := ReadByte(input);
    if b.result.Err? {
      return Err(b.result.error), b.rest;
    }
    if b.result.value != '*' {
      return Err(Malformed(Unexpected('*', b.result.value))), b.rest;
    }
    var l := ReadLine(b.rest);
    if l.result.Err? {
      return Err(l.result.error), l.rest;
    }
    var count := Atoi(TrimCRLF(l.result.value));
    if count.None? || count.value < 0 {
      return Err(Malformed(InvalidArrayLength)), l.rest;
    }
    var args: seq<Bytes> := [];
    rest := l.rest;
    var left: nat := count.value;
    assert ArrayFrame(input) == Elements(rest, left);
    PrependNothing(Elements(rest, left));
    while left > 0
      invariant ArrayFrame(input) == Prepend(args, Elements(rest, left))
    {
      var e := ReadBulkString(rest);
      if e.result.Err? {
        ElementsStep(rest, left, left - 1);
        return Err(e.result.error), e.rest;
      }
      ghost var (before, n) := (rest, left);
      rest, left := e.rest, left - 1;
      ElementsStep(before, n, left);
      PrependTwice(args, [e.result.value], Elements(rest, left));
      args := args + [e.result.value];
    }
    PrependAll(args, rest);
    result := Ok(args);
  }

  /** One more element read from the front of a frame. */
  lemma ElementsStep(input: Bytes, n: nat, m: nat)
    requires n == m + 1
    ensures var e := ReadBulkString(input);
            Elements(input, n) == if e.result.Err? then Parsed(Err(e.result.error), e.rest)
                                  else Prepend([e.result.value], Elements(e.rest, m))
  {
    ElementsUnfold(input, m);
  }

  lemma ElementsUnfold(input: Bytes, m: nat)
    ensures var e := ReadBulkString(input);
            Elements(input, m + 1) == if e.result.Err? then Parsed(Err(e.result.error), e.rest)
                                      else Prepend([e.result.value], Elements(e.rest, m))
  {
  }

  lemma PrependNothing(p: Parsed<seq<Bytes>>)
    ensures Prepend([], p) == p
  {
    if p.result.Ok? {
      assert [] + p.result.value == p.result.value;
    }
  }

  lemma PrependAll(args: seq<Bytes>, rest: Bytes)
    ensures Prepend(args, Elements(rest, 0)) == Parsed(Ok(args), rest)
  {
    assert args + [] == args;
  }

  lemma PrependTwice(a: seq<Bytes>, b: seq<Bytes>, p: Parsed<seq<Bytes>>)
    ensures Prepend(a, Prepend(b, p)) == Prepend(a + b, p)
  {
    if p.result.Ok? {
      assert a + (b + p.result.value) == (a + b) + p.result.value;
    }
  }

  // ----- Replies -----

  /** The values the protocol can carry back to a client. */
  datatype Reply =
    | SimpleReply(text: Bytes)
    | ErrorReply(message: Bytes)
    | IntegerReply(number: int)
    | BulkReply(data: Bytes)
    | NullReply

  /** A reply line: a type byte, then a body free of '\n', then CRLF. */
  predicate OneLine(r: Bytes, prefix: Byte, body: Bytes) {
    && |r| >= 3 && r[0] == prefix && r[1..|r| - 2] == body && r[|r| - 2..] == CRLF
    && '\n' !in body
  }

  /** `writeSimpleString`: one `+` line, as long as the text holds no
      newline (nothing stops a caller from passing one). */
  function WriteSimpleString(s: Bytes): (r: Bytes)
    ensures '\n' !in s ==> OneLine(r, '+', s)
  {
    var r := "+" + s + CRLF;
    assert r[1..|r| - 2] == s;
    r
  }

  /** `writeError`: one `-` line, under the same proviso. */
  function WriteError(msg: Bytes): (r: Bytes)
    ensures '\n' !in msg ==> OneLine(r, '-', msg)
  {
    var r := "-" + msg + CRLF;
    assert r[1..|r| - 2] == msg;
    r
  }

  /** `writeInteger`: one `:` line whose text parses back to `n`. */
  function WriteInteger(n: int): (r: Bytes)
    ensures |r| >= 3 && OneLine(r, ':', r[1..|r| - 2])
    ensures IsInt64(n) ==> Atoi(r[1..|r| - 2]) == Some(n)
  {
    var r := ":" + FormatInt(n) + CRLF;
    assert r[1..|r| - 2] == FormatInt(n);
    FormatIntHasNoLineBreak(n);
    if IsInt64(n) then AtoiFormatInt(n); r else r
  }

  /** A length-prefixed bulk string: `$<len>\r\n<bytes>\r\n`. */
  function BulkFrame(s: Bytes): Bytes {
    "$" + FormatInt(|s|) + CRLF + s + CRLF
  }

  /** `writeNull`: a bulk string header whose length is -1. */
  function WriteNull(): (r: Bytes)
    ensures |r| >= 3 && OneLine(r, '$', r[1..|r| - 2]) && Atoi(r[1..|r| - 2]) == Some(-1)
  {
    var r := "$-1\r\n";
    AtoiFormatInt(-1);
    assert FormatInt(-1) == "-1";
    assert r[1..|r| - 2] == "-1";
    r
  }

  /** `writeBulkString`: the empty string goes out as a null. */
  function WriteBulkString(s: Bytes): (r: Bytes)
    ensures s == [] ==> r == WriteNull()
    ensures s != [] ==> r == BulkFrame(s)
  {
    if s == [] then "$-1\r\n" else BulkFrame(s)
  }

  /** The bytes one reply puts on the wire. */
  function Encode(r: Reply): Bytes {
    match r
    case SimpleReply(s) => WriteSimpleString(s)
    case ErrorReply(m) => WriteError(m)
    case IntegerReply(n) => WriteInteger(n)
    case BulkReply(s) => WriteBulkString(s)
    case NullReply => WriteNull()
  }

  // ----- Request frames as a client writes them -----

  /** The elements of a request, each as a bulk string, in order. */
  function ElementFrames(args: seq<Bytes>): Bytes {
    if args == [] then [] else BulkFrame(args[0]) + ElementFrames(args[1..])
  }

  /** A well-formed request frame for `args`. */
  function RequestFrame(args: seq<Bytes>): Bytes {
    "*" + FormatInt(|args|) + CRLF + ElementFrames(args)
  }

  /** Every string a Go program can hold has a length that is an `int`. */
  predicate Representable(args: seq<Bytes>) {
    |args| <= MaxInt64 && forall i :: 0 <= i < |args| ==> |args[i]| <= MaxInt64
  }

  // ----- Properties of the decoder -----

  /** The decimal length line `L\r\n` parses back as `L`, and the
      reader is left right after it. */
  lemma LengthLine(n: int, rest: Bytes)
    requires IsInt64(n)
    ensures var l := ReadLine(FormatInt(n) + CRLF + rest);
            l.result.Ok? && l.rest == rest && Atoi(TrimCRLF(l.result.value)) == Some(n)
  {
    var digits := FormatInt(n);
    FormatIntHasNoLineBreak(n);
    assert '\n' !in digits + "\r";
    assert digits + CRLF + rest == (digits + "\r") + "\n" + rest;
    ReadLineUntilNewline(digits + "\r", rest);
    var line := digits + "\r" + "\n";
    assert line[|line| - 2..] == CRLF;
    assert line[..|line| - 2] == digits;
    AtoiFormatInt(n);
  }

  /** A bulk string of length `L` consumes exactly `L` payload bytes and
      then exactly two more, whatever those two bytes are. */
  lemma ReadBulkStringPayload(s: Bytes, trailer: Bytes, rest: Bytes)
    requires |s| <= MaxInt64 && |trailer| == 2
    ensures ReadBulkString("$" + FormatInt(|s|) + CRLF + s + trailer + rest) == Parsed(Ok(s), rest)
  {
    var body := s + trailer + rest;
    var input := "$" + FormatInt(|s|) + CRLF + s + trailer + rest;
    assert input[0] == '$';
    assert input[1..] == FormatInt(|s|) + CRLF + body;
    LengthLine(|s|, body);
    assert body[..|s|] == s;
    assert body[|s|..] == trailer + rest;
    assert (trailer + rest)[2..] == rest;
  }

  /** Round trip: what `writeBulkString` writes, `readBulkString` reads
      back, consuming exactly that output. This holds for the empty
      string too, because the null it is written as reads back as "". */
  lemma ReadBulkStringRoundTrip(s: Bytes, rest: Bytes)
    requires |s| <= MaxInt64
    ensures ReadBulkString(WriteBulkString(s) + rest) == Parsed(Ok(s), rest)
  {
    if s == [] {
      var input := WriteNull() + rest;
      assert input[0] == '$';
      assert input[1..] == FormatInt(-1) + CRLF + rest;
      LengthLine(-1, rest);
    } else {
      assert BulkFrame(s) + rest == "$" + FormatInt(|s|) + CRLF + s + CRLF + rest;
      ReadBulkStringPayload(s, CRLF, rest);
    }
  }

  /** Once its length line is read, a bulk string is decided by the
      length alone. */
  lemma BulkHeader(input: Bytes, line: Bytes, rest: Bytes)
    requires input != [] && input[0] == '$'
    requires ReadLine(input[1..]) == Parsed(Ok(line), rest)
    ensures ReadBulkString(input) == match Atoi(TrimCRLF(line))
                                     case None => Parsed(Err(Malformed(InvalidBulkLength)), rest)
                                     case Some(length) => if length < 0 then Parsed(Ok([]), rest) else Payload(rest, length)
  {
  }

  /** The length line of any frame element: a length line followed by
      the rest of the input. */
  lemma HeaderLine(prefix: Byte, line: Bytes, rest: Bytes)
    requires '\n' !in line
    ensures var input := [prefix] + line + "\n" + rest;
            input != [] && input[0] == prefix && ReadLine(input[1..]) == Parsed(Ok(line + "\n"), rest)
  {
    var input := [prefix] + line + "\n" + rest;
    assert input[1..] == line + "\n" + rest;
    ReadLineUntilNewline(line, rest);
  }

  /** A negative length is an empty string: no payload and no trailing
      CRLF are consumed. */
  lemma ReadBulkStringNegativeLength(line: Bytes, rest: Bytes)
    requires '\n' !in line
    requires var n := Atoi(TrimCRLF(line + "\n")); n.Some? && n.value < 0
    ensures ReadBulkString("$" + line + "\n" + rest) == Parsed(Ok([]), rest)
  {
    HeaderLine('$', line, rest);
    BulkHeader("$" + line + "\n" + rest, line + "\n", rest);
  }

  /** A length that does not parse fails after consuming its line. */
  lemma ReadBulkStringInvalidLength(line: Bytes, rest: Bytes)
    requires '\n' !in line
    requires Atoi(TrimCRLF(line + "\n")).None?
    ensures ReadBulkString("$" + line + "\n" + rest) == Parsed(Err(Malformed(InvalidBulkLength)), rest)
  {
    HeaderLine('$', line, rest);
    BulkHeader("$" + line + "\n" + rest, line + "\n", rest);
  }

  /** Any element prefix other than `$` fails after consuming that one
      byte. */
  lemma ReadBulkStringWrongPrefix(c: Byte, rest: Bytes)
    requires c != '$'
    ensures ReadBulkString([c] + rest) == Parsed(Err(Malformed(Unexpected('$', c))), rest)
  {
    assert ([c] + rest)[1..] == rest;
  }

  /** Any frame prefix other than `*` fails after consuming that one
      byte. */
  lemma ReadArrayWrongPrefix(c: Byte, rest: Bytes)
    requires c != '*'
    ensures ArrayFrame([c] + rest) == Parsed(Err(Malformed(Unexpected('*', c))), rest)
  {
    assert ([c] + rest)[1..] == rest;
  }

  /** Once its count line is read, a frame is decided by the count. */
  lemma ArrayHeader(input: Bytes, line: Bytes, rest: Bytes)
    requires input != [] && input[0] == '*'
    requires ReadLine(input[1..]) == Parsed(Ok(line), rest)
    ensures ArrayFrame(input) == match Atoi(TrimCRLF(line))
                                 case None => Parsed(Err(Malformed(InvalidArrayLength)), rest)
                                 case Some(count) => if count < 0 then Parsed(Err(Malformed(InvalidArrayLength)), rest) else Elements(rest, count)
  {
  }

  /** A non-numeric or negative element count fails after consuming the
      header line. */
  lemma ReadArrayInvalidLength(line: Bytes, rest: Bytes)
    requires '\n' !in line
    requires var n := Atoi(TrimCRLF(line + "\n")); n.None? || n.value < 0
    ensures ArrayFrame("*" + line + "\n" + rest) == Parsed(Err(Malformed(InvalidArrayLength)), rest)
  {
    HeaderLine('*', line, rest);
    ArrayHeader("*" + line + "\n" + rest, line + "\n", rest);
  }

  /** `n` well-formed bulk strings read back as exactly those strings,
      in order. */
  lemma {:induction false} ElementsOfFrames(args: seq<Bytes>, rest: Bytes)
    requires Representable(args)
    ensures Elements(ElementFrames(args) + rest, |args|) == Parsed(Ok(args), rest)
  {
    if args != [] {
      FirstFrame(args, rest);
      ElementsStep(ElementFrames(args) + rest, |args|, |args[1..]|);
      ElementsOfFrames(args[1..], rest);
      assert [args[0]] + args[1..] == args;
    }
  }

  /** The first of a list of frames reads back as the first string and
      leaves the frames of the others, which are representable too. */
  lemma FirstFrame(args: seq<Bytes>, rest: Bytes)
    requires args != [] && Representable(args)
    ensures Representable(args[1..])
    ensures ReadBulkString(ElementFrames(args) + rest) == Parsed(Ok(args[0]), ElementFrames(args[1..]) + rest)
  {
    var tail := ElementFrames(args[1..]) + rest;
    assert ElementFrames(args) + rest == "$" + FormatInt(|args[0]|) + CRLF + args[0] + CRLF + tail;
    ReadBulkStringPayload(args[0], CRLF, tail);
    forall i | 0 <= i < |args[1..]| ensures |args[1..][i]| <= MaxInt64 {
      assert args[1..][i] == args[i + 1];
    }
  }

  /** A frame `*n\r\n` followed by `n` well-formed bulk strings decodes
      to exactly those strings and consumes exactly the frame. */
  lemma ReadArrayOfRequestFrame(args: seq<Bytes>, rest: Bytes)
    requires Representable(args)
    ensures ArrayFrame(RequestFrame(args) + rest) == Parsed(Ok(args), rest)
  {
    var body := ElementFrames(args) + rest;
    var input := RequestFrame(args) + rest;
    assert input[0] == '*';
    assert input[1..] == FormatInt(|args|) + CRLF + body;
    LengthLine(|args|, body);
    ElementsOfFrames(args, rest);
  }
}
