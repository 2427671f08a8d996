/**
  * CBOR item heads and strings (section 3 of RFC 8949) as the package's CBOR library reads and
  * writes them: shortest-form heads are written, and any well-formed head is read.
  */
module Cbor {
  import opened Bytes

  const INDEFINITE_ARRAY: byte := 0x9F
  const BREAK_CODE: byte := 0xFF

  const UINT := 0
  const BYTE_STRING := 2
  const TEXT_STRING := 3
  const ARRAY := 4

  /** The shortest head for a major type and its argument. */
  function Head(major: byte, n: u64): (s: bytes)
    requires major < 7
    ensures |s| == HeadLen(n)
  {
    if n < 24 then [32 * major + n]
    else if n < 0x100 then [32 * major + 24] + BigEndian(n, 1)
    else if n < 0x1_0000 then [32 * major + 25] + BigEndian(n, 2)
    else if n < 0x1_0000_0000 then [32 * major + 26] + BigEndian(n, 4)
    else [32 * major + 27] + BigEndian(n, 8)
  }

  function HeadLen(n: int): (l: nat)
    ensures 1 <= l <= 9
  {
    if n < 24 then 1
    else if n < 0x100 then 2
    else if n < 0x1_0000 then 3
    else if n < 0x1_0000_0000 then 5
    else 9
  }

  /** How many argument bytes follow an initial byte whose low five bits are `info`. */
  function ArgumentLen(info: byte): (k: nat)
    requires 24 <= info <= 27
    ensures k == 1 || k == 2 || k == 4 || k == 8
  {
    if info == 24 then 1 else if info == 25 then 2 else if info == 26 then 4 else 8
  }

  /** Reads one head. The break code is an error of its own, which a caller may test for. */
  function ReadHead(s: bytes): (r: Parse<(byte, u64)>)
    ensures r.Got? ==> |r.rest| < |s|
    ensures r.Fail? && r.error.Break? ==> |r.error.after| < |s|
  {
    if s == [] then Fail(Malformed)
    else if s[0] == BREAK_CODE then Fail(Break(s[1..]))
    else if s[0] % 32 < 24 then Got((s[0] / 32, s[0] % 32), s[1..])
    else if s[0] % 32 > 27 then Fail(Malformed)
    else
      var k := ArgumentLen(s[0] % 32);
      if |s| < 1 + k then Fail(Malformed)
      else
        assert FromBigEndian(s[1..1 + k]) < Pow256(k);
        assert Pow256(1) == 256 && Pow256(2) == 0x1_0000 && Pow256(4) == 0x1_0000_0000 && Pow256(8) == U64_LIMIT;
        Got((s[0] / 32, FromBigEndian(s[1..1 + k])), s[1 + k..])
  }

  lemma LongHeadRoundTrip(major: byte, info: byte, n: u64, rest: bytes)
    requires major < 7 && 24 <= info <= 27 && n < Pow256(ArgumentLen(info))
    ensures ReadHead([32 * major + info] + BigEndian(n, ArgumentLen(info)) + rest) == Got((major, n), rest)
  {
    var k := ArgumentLen(info);
    var arg := BigEndian(n, k);
    var s := [32 * major + info] + arg + rest;
    assert s[0] / 32 == major && s[0] % 32 == info;
    assert s[1..1 + k] == arg && s[1 + k..] == rest;
    BigEndianRoundTrip(n, k);
  }

  lemma HeadRoundTrip(major: byte, n: u64, rest: bytes)
    requires major < 7
    ensures ReadHead(Head(major, n) + rest) == Got((major, n), rest)
  {
    assert Pow256(1) == 256 && Pow256(2) == 0x1_0000 && Pow256(4) == 0x1_0000_0000 && Pow256(8) == U64_LIMIT;
    if n < 24 {
      var s := Head(major, n) + rest;
      assert s[0] / 32 == major && s[0] % 32 == n && s[1..] == rest;
    } else {
      LongHeadRoundTrip(major, if n < 0x100 then 24 else if n < 0x1_0000 then 25 else if n < 0x1_0000_0000 then 26 else 27,
                        n, rest);
    }
  }

  lemma HeadLenMonotone(m: int, n: int)
    requires m <= n
    ensures HeadLen(m) <= HeadLen(n)
  {
  }

  /** Reads a head that must carry the given major type. */
  function ReadTyped(major: byte, s: bytes): (r: Parse<u64>)
    ensures r.Got? ==> |r.rest| < |s|
    ensures r.Fail? && r.error.Break? ==> |r.error.after| < |s|
  {
    var (h, rest) :- ReadHead(s);
    if h.0 == major then Got(h.1, rest) else Fail(Malformed)
  }

  function ReadRaw(n: u64, s: bytes): (r: Parse<Blob>)
    ensures r.Got? ==> |r.rest| == |s| - n
    ensures r.Fail? ==> r.error.Malformed?
  {
    if n <= |s| && n <= MAX_LEN then Got(s[..n], s[n..]) else Fail(Malformed)
  }

  function UInt(n: u64): bytes {
    Head(UINT, n)
  }

  function ReadUInt(s: bytes): (r: Parse<u64>)
    ensures r.Got? ==> |r.rest| < |s|
    ensures r.Fail? && r.error.Break? ==> |r.error.after| < |s|
  {
    ReadTyped(UINT, s)
  }

  lemma UIntRoundTrip(n: u64, rest: bytes)
    ensures ReadUInt(UInt(n) + rest) == Got(n, rest)
  {
    HeadRoundTrip(UINT, n, rest);
  }

  function ByteString(data: Blob): (s: bytes)
    ensures |s| == HeadLen(|data|) + |data|
  {
    Head(BYTE_STRING, |data|) + data
  }

  function ReadByteString(s: bytes): (r: Parse<Blob>)
    ensures r.Got? ==> |r.rest| < |s|
    ensures r.Fail? && r.error.Break? ==> |r.error.after| < |s|
  {
    var (n, rest) :- ReadTyped(BYTE_STRING, s);
    ReadRaw(n, rest)
  }

  lemma ByteStringRoundTrip(data: Blob, rest: bytes)
    ensures ReadByteString(ByteString(data) + rest) == Got(data, rest)
  {
    Assoc(Head(BYTE_STRING, |data|), data, rest);
    HeadRoundTrip(BYTE_STRING, |data|, data + rest);
  }
}
