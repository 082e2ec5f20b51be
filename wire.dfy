/** Types shared by the server and the client: octets, byte strings,
    optional and fallible results, and the 64-bit integer range of Go's
    `int`, `int64` and `time.Duration`. */
module Wire {

  /** One octet. A Go `string` is a sequence of these; a `char` of this
      model always stands for exactly one byte. */
  type Byte = c: char | c as int < 256

  type Bytes = seq<Byte>

  const CRLF: Bytes := "\r\n"

  datatype Option<T> = None | Some(value: T)

  datatype Result<T, E> = Ok(value: T) | Err(error: E)

  const MinInt64: int := -0x8000_0000_0000_0000
  const MaxInt64: int := 0x7FFF_FFFF_FFFF_FFFF
  const TwoTo64: int := 0x1_0000_0000_0000_0000

  predicate IsInt64(n: int) {
    MinInt64 <= n <= MaxInt64
  }

  /** Two's-complement wrap-around of Go's signed 64-bit arithmetic. */
  function WrapInt64(n: int): (r: int)
    ensures IsInt64(r)
    ensures (r - n) % TwoTo64 == 0
    ensures IsInt64(n) ==> r == n
  {
    (n - MinInt64) % TwoTo64 + MinInt64
  }

  /** Saturation of a difference of instants to a `time.Duration`, as
      Go's `Time.Sub` does. */
  function Saturate(n: int): (r: int)
    ensures IsInt64(r)
    ensures IsInt64(n) ==> r == n
    ensures n > MaxInt64 ==> r == MaxInt64
    ensures n < MinInt64 ==> r == MinInt64
  {
    if n > MaxInt64 then MaxInt64 else if n < MinInt64 then MinInt64 else n
  }

  /** Integer division that truncates toward zero, as Go's `/` and a
      float-to-int conversion do (Dafny's own `/` is Euclidean). */
  function TruncDiv(a: int, b: int): (q: int)
    requires b > 0
    ensures a >= 0 ==> q >= 0 && q * b <= a < (q + 1) * b
    ensures a <= 0 ==> q <= 0 && (q - 1) * b < a <= q * b
    ensures -b < a < b ==> q == 0
  {
    if a >= 0 then NatDiv(a, b) else -(NatDiv(-a, b) as int)
  }

  function NatDiv(a: nat, b: int): (q: nat)
    requires b > 0
    ensures q * b <= a < q * b + b
    ensures a < b ==> q == 0
  {
    a / b
  }

  /** The set of elements of a sequence. */
  function Elems<T>(s: seq<T>): set<T> {
    set x | x in s
  }

  /** No element occurs twice. */
  predicate Distinct<T(==)>(s: seq<T>) {
    forall i, j :: 0 <= i < j < |s| ==> s[i] != s[j]
  }
}
