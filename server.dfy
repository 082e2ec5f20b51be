/** `handleConnection`: the server reads request frames from one
    connection until the stream ends, and answers each frame that names
    a command with exactly one reply. The per-frame work is split into
    recognising the command (`Parse`, which only looks at the frame) and
    carrying it out against the store (`Execute`). */
module Server {
  import opened Wire
  import opened Strconv
  import opened Bufio
  import opened Resp
  import opened Storage

  const WrongArity: Bytes := "ERR wrong number of arguments"
  const InvalidExpire: Bytes := "ERR invalid expire time"
  const UnknownCommand: Bytes := "ERR unknown command"

  /** `time.Second`, in nanoseconds. */
  const Second: int := 1_000_000_000

  // ----- Command names -----

  predicate IsAscii(c: Byte) {
    c as int < 0x80
  }

  function UpperAscii(c: Byte): (u: Byte)
    ensures IsAscii(c) <==> IsAscii(u)
    ensures !('a' <= u <= 'z')
  {
    if 'a' <= c <= 'z' then (c as int - 32) as char else c
  }

  function Cons(c: Byte, r: Option<Bytes>): Option<Bytes> {
    if r.Some? then Some([c] + r.value) else None
  }

  /** `strings.ToUpper` as far as it decides which command a name
      selects. ASCII letters are upper-cased; the two-byte encodings of
      U+0131 (dotless i) and U+017F (long s) upper-case to `I` and `S`.
      Every other non-ASCII byte leaves a non-ASCII rune in the result
      (invalid UTF-8 becomes U+FFFD), and such a result equals no command
      name: it is `None` here. */
  function UpperName(name: Bytes): (r: Option<Bytes>)
    ensures r.Some? ==> |r.value| <= |name|
    ensures r.Some? ==> forall i :: 0 <= i < |r.value| ==> IsAscii(r.value[i]) && !('a' <= r.value[i] <= 'z')
    ensures (forall i :: 0 <= i < |name| ==> IsAscii(name[i])) ==> r.Some? && |r.value| == |name|
  {
    if name == [] then Some([])
    else if IsAscii(name[0]) then Cons(UpperAscii(name[0]), UpperName(name[1..]))
    else if |name| >= 2 && name[0] as int == 0xC4 && name[1] as int == 0xB1 then Cons('I', UpperName(name[2..]))
    else if |name| >= 2 && name[0] as int == 0xC5 && name[1] as int == 0xBF then Cons('S', UpperName(name[2..]))
    else None
  }

  /** On ASCII text the upper-casing is byte by byte. */
  lemma {:induction false} UpperNameOfAscii(name: Bytes)
    requires forall i :: 0 <= i < |name| ==> IsAscii(name[i])
    ensures UpperName(name) == Some(seq(|name|, i requires 0 <= i < |name| => UpperAscii(name[i])))
  {
    if name != [] {
      var tail := name[1..];
      assert forall i :: 0 <= i < |tail| ==> IsAscii(tail[i]) by {
        forall i | 0 <= i < |tail| ensures IsAscii(tail[i]) {
          assert tail[i] == name[i + 1];
        }
      }
      UpperNameOfAscii(tail);
      var up := seq(|tail|, i requires 0 <= i < |tail| => UpperAscii(tail[i]));
      assert UpperName(name) == Some([UpperAscii(name[0])] + up);
      assert [UpperAscii(name[0])] + up == seq(|name|, i requires 0 <= i < |name| => UpperAscii(name[i]));
    } else {
      assert |seq(|name|, i requires 0 <= i < |name| => UpperAscii(name[i]))| == 0;
    }
  }

  /** A name already in upper case is its own upper case. */
  lemma UpperNameOfUpper(name: Bytes)
    requires forall i :: 0 <= i < |name| ==> IsAscii(name[i]) && !('a' <= name[i] <= 'z')
    ensures UpperName(name) == Some(name)
  {
    UpperNameOfAscii(name);
    assert seq(|name|, i requires 0 <= i < |name| => UpperAscii(name[i])) == name;
  }

  /** Two ASCII names that differ only in the case of their letters select
      the same command. */
  lemma CaseInsensitive(a: Bytes, b: Bytes)
    requires |a| == |b|
    requires forall i :: 0 <= i < |a| ==> IsAscii(a[i]) && IsAscii(b[i]) && UpperAscii(a[i]) == UpperAscii(b[i])
    ensures UpperName(a) == UpperName(b)
  {
    UpperNameOfAscii(a);
    UpperNameOfAscii(b);
  }

  // ----- Recognising a command -----

  /** What a frame asks for, with its arguments checked. */
  datatype Command =
    | NoOp
    | Ping
    | Set(key: Bytes, value: Bytes)
    | Get(key: Bytes)
    | SetEx(key: Bytes, ttl: int, value: Bytes)
    | Del(keys: seq<Bytes>)
    | Expire(key: Bytes, ttl: int)
    | Ttl(key: Bytes)
    | Reject(message: Bytes)

  /** The ttl argument of SETEX and EXPIRE: a positive number of seconds,
      converted to a duration with Go's wrapping 64-bit multiplication. */
  function ExpireTime(arg: Bytes): (d: Option<int>)
    ensures d.Some? <==> Atoi(arg).Some? && Atoi(arg).value > 0
    ensures d.Some? ==> IsInt64(d.value) && (IsInt64(Atoi(arg).value * Second) ==> d.value == Atoi(arg).value * Second)
    ensures d.Some? ==> (d.value - Atoi(arg).value * Second) % TwoTo64 == 0
  {
    match Atoi(arg)
    case None => None
    case Some(secs) => if secs <= 0 then None else Some(WrapInt64(secs * Second))
  }

  /** The cases of the command switch. */
  datatype Name = PingName | SetName | GetName | SetExName | DelName | ExpireName | TtlName | OtherName

  /** The case an upper-cased command name selects. */
  function Lookup(name: Option<Bytes>): (n: Name)
    ensures name.None? ==> n == OtherName
  {
    if name == Some("PING") then PingName
    else if name == Some("SET") then SetName
    else if name == Some("GET") then GetName
    else if name == Some("SETEX") then SetExName
    else if name == Some("DEL") then DelName
    else if name == Some("EXPIRE") then ExpireName
    else if name == Some("TTL") then TtlName
    else OtherName
  }

  /** Each command name selects its own case. */
  lemma LookupNames()
    ensures Lookup(Some("PING")) == PingName && Lookup(Some("SET")) == SetName
    ensures Lookup(Some("GET")) == GetName && Lookup(Some("SETEX")) == SetExName
    ensures Lookup(Some("DEL")) == DelName && Lookup(Some("EXPIRE")) == ExpireName
    ensures Lookup(Some("TTL")) == TtlName
  {
    assert "SET" != "PING" && "GET" != "SET";
  }

  /** Whether a command case rejects `count` arguments after the name:
      SET needs at least two, DEL at least one, GET and TTL exactly one,
      EXPIRE exactly two and SETEX exactly three; PING takes any number. */
  predicate BadArity(name: Name, count: nat) {
    match name
    case PingName => false
    case SetName => count < 2
    case GetName => count != 1
    case SetExName => count != 3
    case DelName => count < 1
    case ExpireName => count != 2
    case TtlName => count != 1
    case OtherName => false
  }

  /** The command switch of `handleConnection`, on the decoded frame. */
  function Parse(args: seq<Bytes>): (c: Command)
    ensures c.NoOp? <==> args == []
    ensures c.Reject? ==> c.message in {WrongArity, InvalidExpire, UnknownCommand}
    ensures c.Reject? && c.message == InvalidExpire ==> |args| > 0 && Lookup(UpperName(args[0])) in {SetExName, ExpireName}
    ensures c == Reject(UnknownCommand) <==> |args| > 0 && Lookup(UpperName(args[0])) == OtherName
    ensures c == Reject(WrongArity) <==> |args| > 0 && BadArity(Lookup(UpperName(args[0])), |args| - 1)
    ensures (c.SetEx? ==> IsInt64(c.ttl)) && (c.Expire? ==> IsInt64(c.ttl))
  {
    if args == [] then NoOp
    else
      var rest := args[1..];
      match Lookup(UpperName(args[0]))
      case PingName => Ping
      case SetName =>
        if |rest| < 2 then Reject(WrongArity) else Set(rest[0], rest[1])
      case GetName =>
        if |rest| != 1 then Reject(WrongArity) else Get(rest[0])
      case SetExName =>
        if |rest| != 3 then Reject(WrongArity)
        else (match ExpireTime(rest[1])
          case None => Reject(InvalidExpire)
          case Some(d) => SetEx(rest[0], d, rest[2]))
      case DelName =>
        if |rest| < 1 then Reject(WrongArity) else Del(rest)
      case ExpireName =>
        if |rest| != 2 then Reject(WrongArity)
        else (match ExpireTime(rest[1])
          case None => Reject(InvalidExpire)
          case Some(d) => Expire(rest[0], d))
      case TtlName =>
        if |rest| != 1 then Reject(WrongArity) else Ttl(rest[0])
      case OtherName => Reject(UnknownCommand)
  }

  /** KEYS and FLUSHDB, which the client sends, are not among the names
      the switch knows, so they are rejected whatever their arguments. */
  lemma KeysUnknown(rest: seq<Bytes>)
    ensures Parse(["KEYS"] + rest) == Reject(UnknownCommand)
  {
    var args := ["KEYS"] + rest;
    assert args[0] == "KEYS";
    UpperNameOfUpper("KEYS");
    assert "KEYS"[0] == 'K';
    assert Lookup(Some("KEYS")) == OtherName;
  }

  lemma FlushDbUnknown(rest: seq<Bytes>)
    ensures Parse(["FLUSHDB"] + rest) == Reject(UnknownCommand)
  {
    var args := ["FLUSHDB"] + rest;
    assert args[0] == "FLUSHDB";
    UpperNameOfUpper("FLUSHDB");
    assert |"FLUSHDB"| == 7;
    assert Lookup(Some("FLUSHDB")) == OtherName;
  }

  /** PING answers whatever follows it; SET stores its first two
      arguments and ignores the others. */
  lemma ParsePingAndSet(name: Bytes, rest: seq<Bytes>)
    requires UpperName(name) == Some("PING") || UpperName(name) == Some("SET")
    ensures UpperName(name) == Some("PING") ==> Parse([name] + rest) == Ping
    ensures UpperName(name) == Some("SET") ==>
              Parse([name] + rest) == if |rest| < 2 then Reject(WrongArity) else Set(rest[0], rest[1])
  {
    assert ([name] + rest)[0] == name && ([name] + rest)[1..] == rest;
    LookupNames();
  }

  /** GET and TTL take one key, DEL one or more; with any other count
      they are rejected. */
  lemma ParseKeyCommands(name: Bytes, rest: seq<Bytes>)
    requires UpperName(name) in {Some("GET"), Some("DEL"), Some("TTL")}
    ensures UpperName(name) == Some("GET") ==>
              Parse([name] + rest) == if |rest| != 1 then Reject(WrongArity) else Get(rest[0])
    ensures UpperName(name) == Some("DEL") ==>
              Parse([name] + rest) == if |rest| < 1 then Reject(WrongArity) else Del(rest)
    ensures UpperName(name) == Some("TTL") ==>
              Parse([name] + rest) == if |rest| != 1 then Reject(WrongArity) else Ttl(rest[0])
  {
    assert ([name] + rest)[0] == name && ([name] + rest)[1..] == rest;
    LookupNames();
  }

  /** A ttl written in decimal is accepted exactly when it is positive,
      and becomes that many seconds. */
  lemma ParseExpire(key: Bytes, secs: int)
    requires IsInt64(secs)
    ensures Parse(["EXPIRE", key, FormatInt(secs)]) ==
              if secs > 0 then Expire(key, WrapInt64(secs * Second)) else Reject(InvalidExpire)
  {
    var args: seq<Bytes> := ["EXPIRE", key, FormatInt(secs)];
    UpperNameOfUpper("EXPIRE");
    LookupNames();
    ParseTimed(args);
    ExpireTimeOfFormat(secs);
  }

  /** The same for SETEX. */
  lemma ParseSetEx(key: Bytes, secs: int, value: Bytes)
    requires IsInt64(secs)
    ensures Parse(["SETEX", key, FormatInt(secs), value]) ==
              if secs > 0 then SetEx(key, WrapInt64(secs * Second), value) else Reject(InvalidExpire)
  {
    var args: seq<Bytes> := ["SETEX", key, FormatInt(secs), value];
    UpperNameOfUpper("SETEX");
    LookupNames();
    ParseTimed(args);
    ExpireTimeOfFormat(secs);
  }

  /** SETEX and EXPIRE with the right number of arguments are decided by
      their ttl argument. */
  lemma ParseTimed(args: seq<Bytes>)
    requires args != []
    ensures Lookup(UpperName(args[0])) == SetExName && |args| == 4 ==>
              Parse(args) == match ExpireTime(args[2])
                             case None => Reject(InvalidExpire)
                             case Some(d) => SetEx(args[1], d, args[3])
    ensures Lookup(UpperName(args[0])) == ExpireName && |args| == 3 ==>
              Parse(args) == match ExpireTime(args[2])
                             case None => Reject(InvalidExpire)
                             case Some(d) => Expire(args[1], d)
  {
    var rest := args[1..];
    assert |args| == 4 ==> rest[0] == args[1] && rest[1] == args[2] && rest[2] == args[3];
    assert |args| == 3 ==> rest[0] == args[1] && rest[1] == args[2];
  }

  /** A decimal ttl as the client writes it. */
  lemma ExpireTimeOfFormat(secs: int)
    requires IsInt64(secs)
    ensures ExpireTime(FormatInt(secs)) == if secs > 0 then Some(WrapInt64(secs * Second)) else None
  {
    AtoiFormatInt(secs);
  }

  /** 2^55 seconds is a positive ttl whose duration wraps to zero, so it
      reaches the store's zero-ttl fallback. */
  lemma WrappedTtl(arg: Bytes)
    requires Atoi(arg) == Some(0x80_0000_0000_0000)
    ensures ExpireTime(arg) == Some(0)
  {
    assert 0x80_0000_0000_0000 * Second == TwoTo64 * 1_953_125;
  }

  // ----- Carrying a command out -----

  /** What one frame leaves on the wire: nothing, or one reply. */
  datatype Outcome = Silent | Replied(reply: Reply)

  /** The shape of the answer to each command, independent of the
      store's contents. */
  predicate Responds(cmd: Command, out: Outcome) {
    match cmd
    case NoOp => out == Silent
    case Ping => out == Replied(SimpleReply("PONG"))
    case Set(_, _) => out == Replied(SimpleReply("OK"))
    case SetEx(_, _, _) => out == Replied(SimpleReply("OK"))
    case Get(_) => out.Replied? && (out.reply.BulkReply? || out.reply.NullReply?)
    case Del(keys) => out.Replied? && out.reply.IntegerReply? && 0 <= out.reply.number <= |keys|
    case Expire(_, _) => out == Replied(IntegerReply(0)) || out == Replied(IntegerReply(1))
    case Ttl(_) => out.Replied? && out.reply.IntegerReply? && IsInt64(out.reply.number)
    case Reject(m) => out == Replied(ErrorReply(m))
  }

  /** What carrying out `cmd` at instant `now` does: the store goes from
      `s` to `t`, and `out` goes on the wire. A `GET` value goes out
      through `writeBulkString`, so an empty value is sent as a null. The
      `TTL` reply is the duration truncated to whole seconds, so the
      sentinels -1 ns and -2 ns both go out as 0. */
  predicate Effect(cmd: Command, now: int, s: Snapshot, t: Snapshot, out: Outcome) {
    match cmd
    case NoOp => t == s && out == Silent
    case Ping => t == s && out == Replied(SimpleReply("PONG"))
    case Set(key, value) =>
      && t == Snapshot(s.data[key := value], s.expiry - {key})
      && out == Replied(SimpleReply("OK"))
    case SetEx(key, ttl, value) =>
      && t == Snapshot(s.data[key := value], s.expiry[key := now + (if ttl == 0 then FallbackTtl else ttl)])
      && out == Replied(SimpleReply("OK"))
    case Get(key) =>
      var gone := if key in s.expiry && now > s.expiry[key] then {key} else {};
      && t == Snapshot(s.data - gone, s.expiry - gone)
      && out == Replied(if key in Live(s.data, s.expiry, now) then BulkReply(s.data[key]) else NullReply)
    case Del(keys) =>
      && t == Snapshot(s.data - Elems(keys), s.expiry - Elems(keys))
      && out == Replied(IntegerReply(|s.data.Keys * Elems(keys)|))
    case Expire(key, ttl) =>
      if key in s.data then t == Snapshot(s.data, s.expiry[key := now + ttl]) && out == Replied(IntegerReply(1))
      else t == s && out == Replied(IntegerReply(0))
    case Ttl(key) =>
      t == s && out == Replied(IntegerReply(TruncDiv(Remaining(s.expiry, key, now), Second)))
    case Reject(m) => t == s && out == Replied(ErrorReply(m))
  }

  /** One case of the switch: calls the store and picks the reply, as
      `Effect` says. */
  method Execute(store: Store, now: int, cmd: Command) returns (out: Outcome)
    requires store.Valid()
    modifies store
    ensures store.Valid()
    ensures Effect(cmd, now, old(store.State()), store.State(), out)
  {
    match cmd
    case NoOp =>
      out := Silent;
    case Ping =>
      out := Replied(SimpleReply("PONG"));
    case Set(key, value) =>
      store.Set(key, value);
      out := Replied(SimpleReply("OK"));
    case Get(key) =>
      var r := store.Get(key, now);
      out := Replied(if r.Some? then BulkReply(r.value) else NullReply);
    case SetEx(key, ttl, value) =>
      store.SetEx(key, value, ttl, now);
      out := Replied(SimpleReply("OK"));
    case Del(keys) =>
      var count := store.Del(keys);
      out := Replied(IntegerReply(count));
    case Expire(key, ttl) =>
      var found := store.Expire(key, ttl, now);
      out := Replied(IntegerReply(if found then 1 else 0));
    case Ttl(key) =>
      var d := store.Ttl(key, now);
      out := Replied(IntegerReply(TruncDiv(d, Second)));
    case Reject(message) =>
      out := Replied(ErrorReply(message));
  }

  /** Every command answers in the shape its case promises, and keeps
      every deadline on a key that has a value. */
  lemma EffectResponds(cmd: Command, now: int, s: Snapshot, t: Snapshot, out: Outcome)
    requires Effect(cmd, now, s, t, out)
    requires s.expiry.Keys <= s.data.Keys
    ensures Responds(cmd, out)
    ensures t.expiry.Keys <= t.data.Keys
  {
    match cmd
    case Del(keys) =>
      CountBound(s.data.Keys, keys);
    case Ttl(key) =>
      var d := Remaining(s.expiry, key, now);
      assert IsInt64(d);
      var q := TruncDiv(d, Second);
      assert d >= 0 ==> q <= d;
      assert d < 0 ==> q >= d;
    case _ =>
  }

  /** The TTL reply is 0 for a key without a deadline and for one whose
      deadline has passed: both sentinels are shorter than a second. */
  lemma TtlSentinels(key: Bytes, now: int, s: Snapshot, t: Snapshot, out: Outcome)
    requires Effect(Ttl(key), now, s, t, out)
    requires !(key in s.expiry && now <= s.expiry[key])
    ensures out == Replied(IntegerReply(0)) && t == s
  {
  }

  /** SET k v followed by GET k answers v and leaves the store as SET
      left it. */
  lemma SetThenGet(key: Bytes, value: Bytes, now1: int, now2: int,
                   s0: Snapshot, s1: Snapshot, s2: Snapshot, o1: Outcome, o2: Outcome)
    requires Effect(Set(key, value), now1, s0, s1, o1)
    requires Effect(Get(key), now2, s1, s2, o2)
    ensures o1 == Replied(SimpleReply("OK"))
    ensures o2 == Replied(BulkReply(value)) && s2 == s1
  {
  }

  /** DEL k answers 1 exactly when k had a value; afterwards GET k answers
      null. */
  lemma DelThenGet(key: Bytes, now1: int, now2: int,
                   s0: Snapshot, s1: Snapshot, s2: Snapshot, o1: Outcome, o2: Outcome)
    requires Effect(Del([key]), now1, s0, s1, o1)
    requires Effect(Get(key), now2, s1, s2, o2)
    ensures o1 == Replied(IntegerReply(if key in s0.data then 1 else 0))
    ensures o2 == Replied(NullReply)
  {
    assert Elems([key]) == {key};
    if key in s0.data {
      assert s0.data.Keys * {key} == {key};
    } else {
      assert s0.data.Keys * {key} == {};
    }
  }

  /** EXPIRE on a key with a value answers 1, and a TTL at the same
      instant reports the new ttl in whole seconds, or 0 when the
      duration is negative (the deadline has already passed); on any
      other key it answers 0 and creates nothing. */
  lemma ExpireThenTtl(key: Bytes, ttl: int, now: int,
                      s0: Snapshot, s1: Snapshot, s2: Snapshot, o1: Outcome, o2: Outcome)
    requires IsInt64(ttl)
    requires Effect(Expire(key, ttl), now, s0, s1, o1)
    requires Effect(Ttl(key), now, s1, s2, o2)
    ensures key in s0.data ==>
              && o1 == Replied(IntegerReply(1))
              && o2 == Replied(IntegerReply(if ttl >= 0 then TruncDiv(ttl, Second) else 0))
    ensures key !in s0.data ==> o1 == Replied(IntegerReply(0)) && s1 == s0 && key !in s1.data
  {
  }

  /** A positive ttl whose nanoseconds pass the int64 range wraps to a
      negative duration, which EXPIRE accepts: on a key with a value it
      answers 1 with a deadline already passed (see `ExpireThenTtl`). */
  lemma ExpireWrapsNegative(key: Bytes, arg: Bytes)
    requires Atoi(arg) == Some(9_223_372_037)
    ensures Parse(["EXPIRE", key, arg]) == Expire(key, -9_223_372_036_709_551_616)
  {
    var args: seq<Bytes> := ["EXPIRE", key, arg];
    UpperNameOfUpper("EXPIRE");
    LookupNames();
    ParseTimed(args);
    assert 9_223_372_037 * Second - TwoTo64 == -9_223_372_036_709_551_616;
  }

  // ----- The connection -----

  /** The frames a connection delivers, in order, up to the first EOF. */
  function Frames(input: Bytes): (r: seq<Result<seq<Bytes>, ReadError>>)
    ensures forall i :: 0 <= i < |r| ==> !(r[i].Err? && r[i].error.EOF?)
    decreases |input|
  {
    var p := ArrayFrame(input);
    if p.result.Err? && p.result.error.EOF? then [] else [p.result] + Frames(p.rest)
  }

  /** What `handleConnection` does with one frame at instant `now`: a
      decoding error is reported as `-ERR <message>` and leaves the store
      alone; a decoded frame is carried out as `Effect` says. */
  predicate Step(frame: Result<seq<Bytes>, ReadError>, now: int, s: Snapshot, t: Snapshot, out: Outcome) {
    match frame
    case Err(e) => t == s && out == Replied(ErrorReply("ERR " + Message(e)))
    case Ok(args) => Effect(Parse(args), now, s, t, out)
  }

  /** The bytes written for a sequence of outcomes. */
  function Transcript(outs: seq<Outcome>): Bytes {
    if outs == [] then []
    else
      var last := outs[|outs| - 1];
      Transcript(outs[..|outs| - 1]) + (if last.Replied? then Encode(last.reply) else [])
  }

  /** `handleConnection` on everything the peer sends. `clock(i)` is the
      instant at which the `i`-th frame is carried out. The loop ends at
      the first EOF. It takes the store through `states`, one `Step` per
      frame before that EOF, and writes exactly the answers, in order. */
  method HandleConnection(store: Store, input: Bytes, clock: nat -> int)
    returns (output: Bytes, ghost sent: seq<Outcome>, ghost states: seq<Snapshot>)
    requires store.Valid()
    modifies store
    ensures store.Valid()
    ensures |sent| == |Frames(input)| && |states| == |sent| + 1
    ensures states[0] == old(store.State()) && states[|sent|] == store.State()
    ensures forall i :: 0 <= i < |sent| ==> Step(Frames(input)[i], clock(i), states[i], states[i + 1], sent[i])
    ensures output == Transcript(sent)
  {
    output := [];
    sent := [];
    states := [store.State()];
    ghost var seen: seq<Result<seq<Bytes>, ReadError>> := [];
    var cur := input;
    var index: nat := 0;
    while true
      invariant index == |sent|
      invariant store.Valid()
      invariant Frames(input) == seen + Frames(cur)
      invariant |sent| == |seen| && |states| == |sent| + 1
      invariant states[0] == old(store.State()) && states[|sent|] == store.State()
      invariant forall i :: 0 <= i < |sent| ==> Step(seen[i], clock(i), states[i], states[i + 1], sent[i])
      invariant output == Transcript(sent)
      decreases |cur|
    {
      var frame, rest := ReadArray(cur);
      if frame.Err? && frame.error.EOF? {
        assert seen + [] == seen;
        return;
      }
      var out := Answer(store, clock(index), frame);
      FramesStep(cur, frame, rest);
      Reassociate(Frames(input), seen, Frames(cur), frame, Frames(rest));
      TranscriptSnoc(sent, out);
      StepSnoc(seen, sent, states, clock, frame, out, store.State());
      output := output + (if out.Replied? then Encode(out.reply) else []);
      seen := seen + [frame];
      sent := sent + [out];
      states := states + [store.State()];
      cur := rest;
      index := index + 1;
    }
  }

  /** One iteration of the loop. */
  method Answer(store: Store, now: int, frame: Result<seq<Bytes>, ReadError>) returns (out: Outcome)
    requires store.Valid()
    modifies store
    ensures store.Valid()
    ensures Step(frame, now, old(store.State()), store.State(), out)
  {
    if frame.Err? {
      out := Replied(ErrorReply("ERR " + Message(frame.error)));
    } else {
      out := Execute(store, now, Parse(frame.value));
    }
  }

  lemma Reassociate<T>(whole: seq<T>, done: seq<T>, next: seq<T>, x: T, later: seq<T>)
    requires whole == done + next && next == [x] + later
    ensures whole == (done + [x]) + later
  {
  }

  /** A frame other than EOF is followed by the frames after it. */
  lemma FramesStep(input: Bytes, frame: Result<seq<Bytes>, ReadError>, rest: Bytes)
    requires Parsed(frame, rest) == ArrayFrame(input)
    requires !(frame.Err? && frame.error.EOF?)
    ensures Frames(input) == [frame] + Frames(rest)
  {
  }

  lemma StepSnoc(frames: seq<Result<seq<Bytes>, ReadError>>, outs: seq<Outcome>, states: seq<Snapshot>,
                 clock: nat -> int, frame: Result<seq<Bytes>, ReadError>, out: Outcome, next: Snapshot)
    requires |frames| == |outs| && |states| == |outs| + 1
    requires forall i :: 0 <= i < |outs| ==> Step(frames[i], clock(i), states[i], states[i + 1], outs[i])
    requires Step(frame, clock(|outs|), states[|outs|], next, out)
    ensures forall i :: 0 <= i < |outs + [out]| ==>
              Step((frames + [frame])[i], clock(i), (states + [next])[i], (states + [next])[i + 1], (outs + [out])[i])
  {
    forall i | 0 <= i < |outs + [out]|
      ensures Step((frames + [frame])[i], clock(i), (states + [next])[i], (states + [next])[i + 1], (outs + [out])[i])
    {
      if i < |outs| {
        assert (frames + [frame])[i] == frames[i] && (outs + [out])[i] == outs[i];
        assert (states + [next])[i] == states[i] && (states + [next])[i + 1] == states[i + 1];
      }
    }
  }

  lemma TranscriptSnoc(outs: seq<Outcome>, out: Outcome)
    ensures Transcript(outs + [out]) == Transcript(outs) + (if out.Replied? then Encode(out.reply) else [])
  {
    assert (outs + [out])[..|outs|] == outs;
  }

  // ----- Pipelined requests -----

  /** A well-formed request is delivered as one frame, and the reader
      continues after it. */
  lemma FramesOfRequest(args: seq<Bytes>, rest: Bytes)
    requires Representable(args)
    ensures Frames(RequestFrame(args) + rest) == [Ok(args)] + Frames(rest)
  {
    ReadArrayOfRequestFrame(args, rest);
    FramesStep(RequestFrame(args) + rest, Ok(args), rest);
  }

  lemma Delivered(cmds: seq<seq<Bytes>>)
    requires cmds != []
    ensures var frames: seq<Result<seq<Bytes>, ReadError>> := seq(|cmds|, i requires 0 <= i < |cmds| => Ok(cmds[i]));
            frames == [Ok(cmds[0])] + seq(|cmds| - 1, i requires 0 <= i < |cmds| - 1 => Ok(cmds[1..][i]))
  {
  }

  /** Several request frames sent back to back. */
  function Requests(cmds: seq<seq<Bytes>>): Bytes {
    if cmds == [] then [] else RequestFrame(cmds[0]) + Requests(cmds[1..])
  }

  /** Back-to-back well-formed requests are delivered as exactly those
      frames, in order, so each gets one answer. */
  lemma {:induction false} FramesOfRequests(cmds: seq<seq<Bytes>>)
    requires forall i :: 0 <= i < |cmds| ==> Representable(cmds[i])
    ensures Frames(Requests(cmds)) == seq(|cmds|, i requires 0 <= i < |cmds| => Ok(cmds[i]))
  {
    if cmds != [] {
      FramesOfRequest(cmds[0], Requests(cmds[1..]));
      assert forall i :: 0 <= i < |cmds[1..]| ==> Representable(cmds[1..][i]) by {
        forall i | 0 <= i < |cmds[1..]| ensures Representable(cmds[1..][i]) {
          assert cmds[1..][i] == cmds[i + 1];
        }
      }
      FramesOfRequests(cmds[1..]);
      Delivered(cmds);
    } else {
      assert ArrayFrame([]) == Parsed(Err(EOF), []);
    }
  }
}
