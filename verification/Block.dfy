/** Canonical blocks: block-type-specific values, control flags, checksums, and their CBOR form. */
module Block {
  import opened Bytes
  import opened Cbor
  import opened Endpoint

  // Block type codes
  const PAYLOAD: u64 := 1
  const PREVIOUS_NODE: u64 := 6
  const BUNDLE_AGE: u64 := 7
  const HOP_COUNT: u64 := 10
  const BINARY_SPRAY: u64 := 192
  const REC_TYPE: u64 := 1000

  /** The codes with a registered block type; every other code is read as a generic block. */
  const REGISTERED: set<u64> := {PAYLOAD, PREVIOUS_NODE, BUNDLE_AGE, HOP_COUNT, REC_TYPE}

  // Block processing control flags
  const REPLICATE_BLOCK := 1
  const STATUS_REPORT_BLOCK := 2

  /** Is the single-bit flag set? */
  predicate Has(flags: u64, bit: int)
    requires bit > 0
  {
    flags / bit % 2 == 1
  }

  datatype Value =
    | Payload(data: Blob)
    | PreviousNode(eid: Eid)
    | BundleAge(age: u64)
    | HopCount(limit: byte, count: byte)
    | RecType(kind: u64)
    | BinarySpray(copies: u64)
    | Generic(code: u64, data: Blob)
  {
    function TypeCode(): u64 {
      match this
      case Payload(_) => PAYLOAD
      case PreviousNode(_) => PREVIOUS_NODE
      case BundleAge(_) => BUNDLE_AGE
      case HopCount(_, _) => HOP_COUNT
      case RecType(_) => REC_TYPE
      case BinarySpray(_) => BINARY_SPRAY
      case Generic(code, _) => code
    }

    predicate Valid() {
      match this
      case PreviousNode(eid) => EidValid(eid)
      case HopCount(limit, count) => count <= limit
      case _ => true
    }

    /** A generic block carries an unregistered code, and a previous node can be parsed back. */
    predicate Wire() {
      match this
      case PreviousNode(eid) => EidWire(eid)
      case Generic(code, _) => code !in REGISTERED
      case _ => true
    }

    /** The contents of the byte string that holds this value. */
    function Content(): (s: Blob) {
      match this
      case Payload(data) => data
      case PreviousNode(eid) => EidBytes(eid)
      case BundleAge(age) => UInt(age)
      case HopCount(limit, count) => Head(ARRAY, 2) + (UInt(limit) + UInt(count))
      case RecType(kind) => Head(ARRAY, 1) + UInt(kind)
      case BinarySpray(copies) => UInt(copies)
      case Generic(_, data) => data
    }

    /** What a reader makes of the written value: an unregistered type comes back generic. */
    function AsRead(): Value {
      if BinarySpray? then Generic(BINARY_SPRAY, Content()) else this
    }
  }

  function ReadHopCount(s: bytes): (r: Parse<Value>)
    ensures r.Got? ==> r.value.HopCount?
  {
    var (n, rest) :- ReadTyped(ARRAY, s);
    if n != 2 then Fail(Malformed)
    else
      var (limit, rest) :- ReadUInt(rest);
      if limit > 255 then Fail(Malformed)
      else
        var (count, rest) :- ReadUInt(rest);
        if count > 255 then Fail(Malformed) else Got(HopCount(limit, count), rest)
  }

  function ReadRecType(s: bytes): (r: Parse<Value>)
    ensures r.Got? ==> r.value.RecType?
  {
    var (n, rest) :- ReadTyped(ARRAY, s);
    if n != 1 then Fail(Malformed)
    else
      var (kind, rest) :- ReadUInt(rest);
      Got(RecType(kind), rest)
  }

  /** Decodes a value by its type code. Bytes left over inside the byte string are ignored. */
  function ReadContent(code: u64, data: Blob): (r: Option<Value>)
    ensures r.Some? ==> r.value.Wire() && !r.value.BinarySpray? && r.value.TypeCode() == code
  {
    if code == PAYLOAD then Some(Payload(data))
    else if code == PREVIOUS_NODE then
      match ReadEid(data)
      case Got(eid, _) => Some(PreviousNode(eid))
      case Fail(_) => None
    else if code == BUNDLE_AGE then
      match ReadUInt(data)
      case Got(age, _) => Some(BundleAge(age))
      case Fail(_) => None
    else if code == HOP_COUNT then
      match ReadHopCount(data)
      case Got(v, _) => Some(v)
      case Fail(_) => None
    else if code == REC_TYPE then
      match ReadRecType(data)
      case Got(v, _) => Some(v)
      case Fail(_) => None
    else Some(Generic(code, data))
  }

  lemma ContentRoundTrip(v: Value)
    requires v.Wire()
    ensures ReadContent(v.TypeCode(), v.Content()) == Some(v.AsRead())
  {
    var data := v.Content();
    assert data + [] == data;
    match v
    case PreviousNode(eid) =>
      EidRoundTrip(eid, []);
    case BundleAge(age) =>
      UIntRoundTrip(age, []);
    case HopCount(limit, count) =>
      assert UInt(count) + [] == UInt(count);
      HeadRoundTrip(ARRAY, 2, UInt(limit) + UInt(count));
      UIntRoundTrip(limit, UInt(count));
      UIntRoundTrip(count, []);
    case RecType(kind) =>
      assert UInt(kind) + [] == UInt(kind);
      HeadRoundTrip(ARRAY, 1, UInt(kind));
      UIntRoundTrip(kind, []);
    case _ =>
  }

  // Checksums

  const CRC_NO: u64 := 0
  const CRC16: u64 := 1
  const CRC32: u64 := 2

  /** The two checksum algorithms; nothing but determinism and width is used of them. */
  datatype Checksums = Checksums(crc16: bytes -> u16, crc32: bytes -> u32)

  /** The checksum of a block: it covers the block's bytes followed by a zeroed checksum field. */
  function CrcField(cs: Checksums, crcType: u64, block: bytes): (crc: Blob)
    requires crcType <= CRC32
    ensures |crc| == 2 * crcType
  {
    if crcType == CRC16 then BigEndian(cs.crc16(block + ByteString([0, 0])), 2)
    else if crcType == CRC32 then BigEndian(cs.crc32(block + ByteString([0, 0, 0, 0])), 4)
    else []
  }

  // Canonical blocks

  datatype Canonical = Canonical(number: u64, flags: u64, crcType: u64, value: Value) {
    function TypeCode(): u64 { value.TypeCode() }

    predicate Valid() {
      value.Valid() && (TypeCode() == PAYLOAD ==> number == 1)
    }

    /** Writing fails on an unknown checksum type or an invalid endpoint, and only then. */
    predicate Writable() {
      crcType <= CRC32 && (value.PreviousNode? ==> value.Valid())
    }

    function AsRead(): Canonical { this.(value := value.AsRead()) }
  }

  function CanonicalBody(cb: Canonical): (s: bytes) {
    Head(ARRAY, if cb.crcType == CRC_NO then 5 else 6)
    + (UInt(cb.TypeCode()) + (UInt(cb.number) + (UInt(cb.flags) + (UInt(cb.crcType) + ByteString(cb.value.Content())))))
  }

  function CrcSuffix(cs: Checksums, crcType: u64, body: bytes): (s: bytes)
    requires crcType <= CRC32
    ensures |s| == if crcType == CRC_NO then 0 else 1 + 2 * crcType
  {
    if crcType == CRC_NO then [] else ByteString(CrcField(cs, crcType, body))
  }

  function CanonicalBytes(cs: Checksums, cb: Canonical): (s: bytes)
    requires cb.crcType <= CRC32
    ensures |s| == CanonicalSize(cb)
  {
    CanonicalBody(cb) + CrcSuffix(cs, cb.crcType, CanonicalBody(cb))
  }

  /** The number of bytes a canonical block is written in. */
  function CanonicalSize(cb: Canonical): (n: int) {
    1 + HeadLen(cb.TypeCode()) + HeadLen(cb.number) + HeadLen(cb.flags) + HeadLen(cb.crcType)
    + HeadLen(|cb.value.Content()|) + |cb.value.Content()|
    + if cb.crcType == CRC_NO then 0 else 1 + 2 * cb.crcType
  }

  /** The array length and integer fields of a block; `fields` is the stream after the array head. */
  datatype Header = Header(len: u64, code: u64, number: u64, flags: u64, crcType: u64, fields: bytes) {
    /** The bytes the checksum covers, once reading has come to `rest`. The array head is replayed. */
    function Covered(rest: bytes): bytes
      requires |rest| <= |fields|
    {
      Head(ARRAY, 6) + fields[..|fields| - |rest|]
    }

    function Block(value: Value): Canonical { Canonical(number, flags, crcType, value) }
  }

  function ReadHeader(s: bytes): (r: Parse<Header>)
    ensures r.Got? ==> |r.rest| < |r.value.fields| < |s| && 5 <= r.value.len <= 6
    ensures r.Fail? && r.error.Break? ==> |r.error.after| < |s|
  {
    var (len, fields) :- ReadTyped(ARRAY, s);
    if len != 5 && len != 6 then Fail(Malformed)
    else
      var (code, rest) :- ReadUInt(fields);
      var (number, rest) :- ReadUInt(rest);
      var (flags, rest) :- ReadUInt(rest);
      var (crcType, rest) :- ReadUInt(rest);
      Got(Header(len, code, number, flags, crcType, fields), rest)
  }

  /** A failure while reading the value is reported as a new error, so it is never the break code. */
  function ReadValue(code: u64, s: bytes): (r: Parse<Value>)
    ensures r.Got? ==> |r.rest| < |s| && r.value.Wire() && !r.value.BinarySpray? && r.value.TypeCode() == code
    ensures r.Fail? ==> r.error.Malformed?
  {
    match ReadByteString(s)
    case Fail(_) => Fail(Malformed)
    case Got(data, rest) =>
      match ReadContent(code, data)
      case None => Fail(Malformed)
      case Some(v) => Got(v, rest)
  }

  /** Reads a checksum and compares it with the one of the bytes it covers. */
  function CheckCrc(cs: Checksums, crcType: u64, covered: bytes, s: bytes): (r: Parse<()>)
    ensures r.Got? ==> |r.rest| < |s|
    ensures r.Fail? && r.error.Break? ==> |r.error.after| < |s|
  {
    if crcType > CRC32 then Fail(Malformed)
    else
      var (crc, rest) :- ReadByteString(s);
      if crc == CrcField(cs, crcType, covered) then Got((), rest) else Fail(Malformed)
  }

  lemma CheckCrcAccepts(cs: Checksums, crcType: u64, body: bytes, rest: bytes)
    requires 1 <= crcType <= CRC32
    ensures CheckCrc(cs, crcType, body, CrcSuffix(cs, crcType, body) + rest) == Got((), rest)
  {
    ByteStringRoundTrip(CrcField(cs, crcType, body), rest);
  }

  /** A six-element block ends in a checksum; a five-element block has none. */
  function ReadCrc(cs: Checksums, h: Header, s: bytes): (r: Parse<()>)
    requires |s| <= |h.fields|
    ensures r.Got? ==> |r.rest| <= |s|
    ensures r.Fail? && r.error.Break? ==> |r.error.after| < |s|
  {
    if h.len == 5 then Got((), s) else CheckCrc(cs, h.crcType, h.Covered(s), s)
  }

  function ReadCanonical(cs: Checksums, s: bytes): (r: Parse<Canonical>)
    ensures r.Got? ==> |r.rest| < |s| && r.value.value.Wire() && !r.value.value.BinarySpray?
    ensures r.Fail? && r.error.Break? ==> |r.error.after| < |s|
  {
    var (h, rest) :- ReadHeader(s);
    var (value, rest) :- ReadValue(h.code, rest);
    var (_, rest) :- ReadCrc(cs, h, rest);
    Got(h.Block(value), rest)
  }

  lemma BreakEndsBlocks(cs: Checksums, rest: bytes)
    ensures ReadCanonical(cs, [BREAK_CODE] + rest) == Fail(Break(rest))
  {
    assert ([BREAK_CODE] + rest)[1..] == rest;
  }

  lemma HeaderRoundTrip(cb: Canonical, rest: bytes)
    ensures var len := if cb.crcType == CRC_NO then 5 else 6;
            var fields := UInt(cb.TypeCode()) + (UInt(cb.number) + (UInt(cb.flags) + (UInt(cb.crcType) + rest)));
            ReadHeader(Head(ARRAY, len) + fields)
            == Got(Header(len, cb.TypeCode(), cb.number, cb.flags, cb.crcType, fields), rest)
  {
    var len := if cb.crcType == CRC_NO then 5 else 6;
    var s1 := UInt(cb.crcType) + rest;
    var s2 := UInt(cb.flags) + s1;
    var s3 := UInt(cb.number) + s2;
    HeadRoundTrip(ARRAY, len, UInt(cb.TypeCode()) + s3);
    UIntRoundTrip(cb.TypeCode(), s3);
    UIntRoundTrip(cb.number, s2);
    UIntRoundTrip(cb.flags, s1);
    UIntRoundTrip(cb.crcType, rest);
  }

  /** The stream of a written block, split where its readers stop. */
  lemma CanonicalLayout(cs: Checksums, cb: Canonical, rest: bytes)
    requires cb.crcType <= CRC32
    ensures var crc := CrcSuffix(cs, cb.crcType, CanonicalBody(cb));
            var content := ByteString(cb.value.Content());
            CanonicalBytes(cs, cb) + rest
            == Head(ARRAY, if cb.crcType == CRC_NO then 5 else 6)
               + (UInt(cb.TypeCode()) + (UInt(cb.number) + (UInt(cb.flags) + (UInt(cb.crcType) + (content + (crc + rest))))))
  {
    var crc := CrcSuffix(cs, cb.crcType, CanonicalBody(cb));
    var content := ByteString(cb.value.Content());
    var f1 := UInt(cb.crcType) + content;
    var f2 := UInt(cb.flags) + f1;
    var f3 := UInt(cb.number) + f2;
    var f4 := UInt(cb.TypeCode()) + f3;
    var tail := crc + rest;
    Assoc(CanonicalBody(cb), crc, rest);
    Assoc(Head(ARRAY, if cb.crcType == CRC_NO then 5 else 6), f4, tail);
    Assoc(UInt(cb.TypeCode()), f3, tail);
    Assoc(UInt(cb.number), f2, tail);
    Assoc(UInt(cb.flags), f1, tail);
    Assoc(UInt(cb.crcType), content, tail);
  }

  /** A checksum computed over `body` is accepted by a reader that has just consumed `body`. */
  lemma CrcRoundTrip(cs: Checksums, h: Header, body: bytes, rest: bytes)
    requires h.crcType <= CRC32 && h.len == (if h.crcType == CRC_NO then 5 else 6)
    requires Head(ARRAY, h.len) + h.fields == body + (CrcSuffix(cs, h.crcType, body) + rest)
    requires |body| >= 1
    ensures ReadCrc(cs, h, CrcSuffix(cs, h.crcType, body) + rest) == Got((), rest)
  {
    if h.crcType != CRC_NO {
      var crc := CrcSuffix(cs, h.crcType, body);
      var n := |h.fields| - |crc + rest|;
      assert |Head(ARRAY, 6)| == 1;
      assert h.Covered(crc + rest) == (Head(ARRAY, 6) + h.fields)[..1 + n];
      assert (body + (crc + rest))[..|body|] == body;
      CheckCrcAccepts(cs, h.crcType, body, rest);
    }
  }

  /** What reading sees at each stage of a written block, checksum included. */
  lemma WrittenBlockStages(cs: Checksums, cb: Canonical, rest: bytes)
    requires cb.crcType <= CRC32
    ensures var crc := CrcSuffix(cs, cb.crcType, CanonicalBody(cb));
            var content := ByteString(cb.value.Content());
            var h := ReadHeader(CanonicalBytes(cs, cb) + rest);
            && h.Got? && h.rest == content + (crc + rest)
            && h.value.Block(cb.value) == cb && h.value.code == cb.TypeCode()
            && ReadCrc(cs, h.value, crc + rest) == Got((), rest)
  {
    var body := CanonicalBody(cb);
    var crc := CrcSuffix(cs, cb.crcType, body);
    var content := ByteString(cb.value.Content());
    CanonicalLayout(cs, cb, rest);
    HeaderRoundTrip(cb, content + (crc + rest));
    Assoc(body, crc, rest);
    CrcRoundTrip(cs, ReadHeader(CanonicalBytes(cs, cb) + rest).value, body, rest);
  }

  /** Reading a written block gives it back, with its checksum accepted and the rest unread. */
  lemma CanonicalRoundTrip(cs: Checksums, cb: Canonical, rest: bytes)
    requires cb.crcType <= CRC32 && cb.value.Wire()
    ensures ReadCanonical(cs, CanonicalBytes(cs, cb) + rest) == Got(cb.AsRead(), rest)
  {
    WrittenBlockStages(cs, cb, rest);
    ByteStringRoundTrip(cb.value.Content(), CrcSuffix(cs, cb.crcType, CanonicalBody(cb)) + rest);
    ContentRoundTrip(cb.value);
  }

  /** A block that was read back is written in the same bytes as the block itself. */
  lemma AsReadBytes(cs: Checksums, cb: Canonical)
    requires cb.crcType <= CRC32
    ensures CanonicalBytes(cs, cb.AsRead()) == CanonicalBytes(cs, cb)
  {
    assert cb.AsRead().TypeCode() == cb.TypeCode();
  }
}
