/** Bytes, fixed-width integers, and the results of reading from a byte stream. */
module Bytes {
  const U64_LIMIT := 0x1_0000_0000_0000_0000

  /** The longest byte string held in memory; lengths up to it are exact in a float64. */
  const MAX_LEN := 0x20_0000_0000_0000

  type byte = x: int | 0 <= x < 256
  type u16 = x: int | 0 <= x < 0x1_0000
  type u32 = x: int | 0 <= x < 0x1_0000_0000
  type u64 = x: int | 0 <= x < U64_LIMIT
  type i64 = x: int | -0x8000_0000_0000_0000 <= x < 0x8000_0000_0000_0000
  type bytes = seq<byte>
  type Blob = s: bytes | |s| <= MAX_LEN

  datatype Option<+T> = None | Some(value: T)

  /** Why a reader or writer gave up. `Break` is the CBOR break code, with what follows it. */
  datatype Error = Break(after: bytes) | Malformed | Panic

  datatype Result<+T> = Ok(value: T) | Err(error: Error) {
    predicate IsFailure() { Err? }
    function PropagateFailure<U>(): (r: Result<U>)
      requires Err?
    { Err(error) }
    function Extract(): T
      requires Ok?
    { value }
  }

  /** A value read from the front of a stream, and the bytes not yet consumed. */
  datatype Parse<+T> = Got(value: T, rest: bytes) | Fail(error: Error) {
    predicate IsFailure() { Fail? }
    function PropagateFailure<U>(): (r: Parse<U>)
      requires Fail?
    { Fail(error) }
    function Extract(): (T, bytes)
      requires Got?
    { (value, rest) }
  }

  function Pow256(k: nat): (p: nat)
    ensures p >= 1
  {
    if k == 0 then 1 else 256 * Pow256(k - 1)
  }

  /** The `k` low bytes of `n`, most significant first. */
  function BigEndian(n: nat, k: nat): (s: bytes)
    ensures |s| == k
  {
    if k == 0 then [] else BigEndian(n / 256, k - 1) + [n % 256]
  }

  function FromBigEndian(s: bytes): (n: nat)
    ensures n < Pow256(|s|)
  {
    if s == [] then 0 else 256 * FromBigEndian(s[..|s| - 1]) + s[|s| - 1]
  }

  lemma LastByte(s: bytes, b: byte)
    ensures FromBigEndian(s + [b]) == 256 * FromBigEndian(s) + b
  {
    assert (s + [b])[..|s|] == s;
  }

  lemma HighFits(n: nat, k: nat)
    requires n < Pow256(k + 1)
    ensures n / 256 < Pow256(k) && n == 256 * (n / 256) + n % 256
  {
  }

  lemma {:induction false} BigEndianRoundTrip(n: nat, k: nat)
    requires n < Pow256(k)
    ensures FromBigEndian(BigEndian(n, k)) == n
  {
    hide Pow256, FromBigEndian;
    if k == 0 {
      NoBytes(n);
    } else {
      HighFits(n, k - 1);
      BigEndianRoundTrip(n / 256, k - 1);
      LastByte(BigEndian(n / 256, k - 1), n % 256);
    }
  }

  lemma NoBytes(n: nat)
    requires n < Pow256(0)
    ensures FromBigEndian([]) == n
  {
  }

  lemma Assoc(a: bytes, b: bytes, c: bytes)
    ensures (a + b) + c == a + (b + c)
  {
  }

  /** A length as an unsigned 64-bit integer. */
  function ToU64(n: nat): (r: u64)
    ensures n < U64_LIMIT ==> r == n
  {
    n % U64_LIMIT
  }

  /** Two's complement reading of the low 64 bits, as Go's `int64` arithmetic gives it. */
  function WrapInt64(n: int): (r: int)
    ensures -0x8000_0000_0000_0000 <= r < 0x8000_0000_0000_0000
    ensures -0x8000_0000_0000_0000 <= n < 0x8000_0000_0000_0000 ==> r == n
  {
    var m := n % U64_LIMIT;
    if m < 0x8000_0000_0000_0000 then m else m - U64_LIMIT
  }
}
