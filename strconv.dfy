/** Decimal conversions the server and the client depend on, as Go's
    `strconv` package performs them on a 64-bit platform: `Atoi` (and
    `ParseInt` in base 10, which accepts the same strings), `Itoa` and
    `FormatInt` in base 10. */
module Strconv {
  import opened Wire

  predicate IsDigit(c: Byte) {
    '0' <= c <= '9'
  }

  predicate AllDigits(s: Bytes) {
    forall i :: 0 <= i < |s| ==> IsDigit(s[i])
  }

  function DigitValue(c: Byte): nat
    requires IsDigit(c)
  {
    c as int - '0' as int
  }

  function Digit(d: nat): (c: Byte)
    requires d < 10
    ensures IsDigit(c) && DigitValue(c) == d
  {
    ('0' as int + d) as char
  }

  /** The value of a run of decimal digits, most significant first. */
  function DigitsValue(s: Bytes): nat
    requires AllDigits(s)
  {
    if s == [] then 0 else DigitsValue(s[..|s| - 1]) * 10 + DigitValue(s[|s| - 1])
  }

  /** The digits after an optional leading sign. */
  function Unsigned(s: Bytes): Bytes {
    if |s| > 0 && (s[0] == '+' || s[0] == '-') then s[1..] else s
  }

  predicate Negative(s: Bytes) {
    |s| > 0 && s[0] == '-'
  }

  /** An optional sign followed by at least one decimal digit. */
  predicate Decimal(s: Bytes) {
    Unsigned(s) != [] && AllDigits(Unsigned(s))
  }

  /** The value a decimal string denotes, sign included. */
  function Signed(s: Bytes): int
    requires AllDigits(Unsigned(s))
  {
    if Negative(s) then -(DigitsValue(Unsigned(s)) as int) else DigitsValue(Unsigned(s))
  }

  /** `strconv.Atoi`: an optional sign followed by at least one decimal
      digit, whose value fits in 64 bits; anything else is an error
      (`None`). Leading zeros and a leading '+' are accepted. */
  function Atoi(s: Bytes): (r: Option<int>)
    ensures r.Some? ==> IsInt64(r.value)
    ensures r.Some? <==> Decimal(s) && IsInt64(Signed(s))
    ensures r.Some? ==> r.value == Signed(s)
  {
    var digits := Unsigned(s);
    if digits == [] || !AllDigits(digits) then None
    else
      var v := Signed(s);
      if IsInt64(v) then Some(v) else None
  }

  /** The longest prefix of `s` made of digits. */
  function DigitPrefix(s: Bytes): (p: Bytes)
    ensures AllDigits(p) && p <= s
    ensures |p| < |s| ==> !IsDigit(s[|p|])
  {
    if s == [] || !IsDigit(s[0]) then [] else [s[0]] + DigitPrefix(s[1..])
  }

  /** A run of digits is its own longest digit prefix. */
  lemma {:induction false} DigitPrefixOfDigits(s: Bytes)
    requires AllDigits(s)
    ensures DigitPrefix(s) == s
  {
    if s != [] {
      assert AllDigits(s[1..]) by {
        forall i | 0 <= i < |s[1..]| ensures IsDigit(s[1..][i]) {
          assert s[1..][i] == s[i + 1];
        }
      }
      DigitPrefixOfDigits(s[1..]);
    }
  }

  const MaxUint64: int := TwoTo64 - 1

  /** The integer `strconv.Atoi` returns when its error is ignored: the
      value itself on success, 0 after a syntax error, and the nearest
      64-bit bound after a range error. `ParseUint` reports a range error
      as soon as the digits read so far exceed 64 bits, even if a
      non-digit follows later. */
  function AtoiIgnoringError(s: Bytes): (n: int)
    ensures IsInt64(n)
    ensures Atoi(s).Some? ==> n == Atoi(s).value
    ensures Decimal(s) && !IsInt64(Signed(s)) ==> n == (if Negative(s) then MinInt64 else MaxInt64)
    ensures DigitsValue(DigitPrefix(Unsigned(s))) > MaxUint64 ==> n == (if Negative(s) then MinInt64 else MaxInt64)
    ensures !Decimal(s) && DigitsValue(DigitPrefix(Unsigned(s))) <= MaxUint64 ==> n == 0
  {
    match Atoi(s)
    case Some(v) => DigitPrefixOfDigits(Unsigned(s)); v
    case None =>
      var digits := Unsigned(s);
      var p := DigitPrefix(digits);
      if DigitsValue(p) > MaxUint64 || (p == digits && p != []) then
        (if Negative(s) then MinInt64 else MaxInt64)
      else 0
  }

  /** Decimal digits of a natural number, without leading zeros. */
  function FormatNat(n: nat): (r: Bytes)
    ensures |r| > 0 && AllDigits(r)
    ensures r[0] != '0' || n == 0
  {
    if n < 10 then [Digit(n)] else FormatNat(n / 10) + [Digit(n % 10)]
  }

  /** `strconv.Itoa` and `strconv.FormatInt(n, 10)`. */
  function FormatInt(n: int): (r: Bytes)
    ensures |r| > 0
    ensures forall i :: 0 <= i < |r| ==> IsDigit(r[i]) || (i == 0 && r[i] == '-')
    ensures r[0] == '-' <==> n < 0
  {
    if n < 0 then "-" + FormatNat(-n) else FormatNat(n)
  }

  lemma {:induction false} DigitsValueFormatNat(n: nat)
    ensures DigitsValue(FormatNat(n)) == n
  {
    if n >= 10 {
      var s := FormatNat(n);
      assert s[..|s| - 1] == FormatNat(n / 10);
      DigitsValueFormatNat(n / 10);
    }
  }

  /** Parsing what `FormatInt` printed gives the number back. */
  lemma AtoiFormatInt(n: int)
    requires IsInt64(n)
    ensures Atoi(FormatInt(n)) == Some(n)
    ensures AtoiIgnoringError(FormatInt(n)) == n
  {
    var m := if n < 0 then -n else n;
    DigitsValueFormatNat(m);
    assert Unsigned(FormatInt(n)) == FormatNat(m);
  }

  /** A formatted integer never contains a line terminator. */
  lemma FormatIntHasNoLineBreak(n: int)
    ensures '\n' !in FormatInt(n) && '\r' !in FormatInt(n)
  {
    var r := FormatInt(n);
    forall i | 0 <= i < |r| ensures r[i] != '\n' && r[i] != '\r' {
    }
  }
}
