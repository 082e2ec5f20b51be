/** The three `bufio.Reader` operations and the `io.ReadFull` call the codecs use, over the bytes a
    connection still has to deliver. A reader at that position is just
    the remaining input: every operation returns its result together
    with what is left after it. The input is everything the peer sends
    before it closes the connection, so running out of bytes is the
    stream's end of file. */
module Bufio {
  import opened Wire

  /** What a read can fail with: the end of the stream, the end of the
      stream inside a fixed-size read, or a protocol violation found by
      a decoder. */
  datatype ReadError = EOF | UnexpectedEOF | Malformed(message: Bytes)

  /** `err.Error()` for each condition. */
  function Message(e: ReadError): Bytes {
    match e
    case EOF => "EOF"
    case UnexpectedEOF => "unexpected EOF"
    case Malformed(m) => m
  }

  /** A result and the input that remains after producing it. */
  datatype Parsed<T> = Parsed(result: Result<T, ReadError>, rest: Bytes)

  /** `ReadByte`. */
  function ReadByte(input: Bytes): (p: Parsed<Byte>)
    ensures p.result.Ok? <==> input != []
    ensures p.result.Ok? ==> p.result.value == input[0] && p.rest == input[1..]
    ensures p.result.Err? ==> p.result.error == EOF && p.rest == []
  {
    if input == [] then Parsed(Err(EOF), []) else Parsed(Ok(input[0]), input[1..])
  }

  /** `ReadString('\n')`: everything up to and including the first
      newline; if there is none, all of the input is consumed and the
      read fails with EOF. */
  function ReadLine(input: Bytes): (p: Parsed<Bytes>)
    ensures p.result.Ok? ==>
              var line := p.result.value;
              && input == line + p.rest
              && |line| > 0 && line[|line| - 1] == '\n'
              && '\n' !in line[..|line| - 1]
    ensures p.result.Err? ==> p.result.error == EOF && p.rest == [] && '\n' !in input
  {
    if input == [] then Parsed(Err(EOF), [])
    else if input[0] == '\n' then Parsed(Ok(['\n']), input[1..])
    else
      var p := ReadLine(input[1..]);
      match p.result
      case Ok(line) =>
        assert ([input[0]] + line)[..|line|] == [input[0]] + line[..|line| - 1];
        Parsed(Ok([input[0]] + line), p.rest)
      case Err(e) => Parsed(Err(e), p.rest)
  }

  /** `io.ReadFull` into a buffer of `n` bytes. */
  function ReadFull(input: Bytes, n: nat): (p: Parsed<Bytes>)
    ensures n <= |input| ==> p == Parsed(Ok(input[..n]), input[n..])
    ensures n > |input| ==> p.rest == [] && p.result == Err(if input == [] then EOF else UnexpectedEOF)
  {
    if n <= |input| then Parsed(Ok(input[..n]), input[n..])
    else if input == [] then Parsed(Err(EOF), [])
    else Parsed(Err(UnexpectedEOF), [])
  }

  /** `Discard(n)`: skipping fewer than `n` bytes reports EOF. */
  function Discard(input: Bytes, n: nat): (p: Parsed<()>)
    ensures n <= |input| ==> p == Parsed(Ok(()), input[n..])
    ensures n > |input| ==> p == Parsed(Err(EOF), [])
  {
    if n <= |input| then Parsed(Ok(()), input[n..]) else Parsed(Err(EOF), [])
  }

  /** A line ends at the first newline, whatever follows it. */
  lemma {:induction false} ReadLineUntilNewline(a: Bytes, rest: Bytes)
    requires '\n' !in a
    ensures ReadLine(a + "\n" + rest) == Parsed(Ok(a + "\n"), rest)
  {
    var input := a + "\n" + rest;
    if a != [] {
      assert input[1..] == a[1..] + "\n" + rest;
      ReadLineUntilNewline(a[1..], rest);
      assert [a[0]] + (a[1..] + "\n") == a + "\n";
    }
  }
}
