/** The primary block in its 8, 9, 10 and 11 element forms (section 4.3.1 of RFC 9171). */
module Primary {
  import opened Bytes
  import opened Cbor
  import opened Endpoint
  import opened Block

  const VERSION: u64 := 7

  // Bundle processing control flags
  const IS_FRAGMENT := 0x1
  const ADMINISTRATIVE_RECORD := 0x2
  const MUST_NOT_FRAGMENT := 0x4
  const STATUS_RECEPTION := 0x4000
  const STATUS_FORWARD := 0x1_0000
  const STATUS_DELIVERY := 0x2_0000
  const STATUS_DELETION := 0x4_0000

  datatype PrimaryBlock = PrimaryBlock(
    version: u64, flags: u64, crcType: u64,
    destination: Eid, source: Eid, reportTo: Eid,
    time: u64, sequence: u64, lifetime: u64,
    offset: u64, total: u64)
  {
    predicate IsFragment() { Has(flags, IS_FRAGMENT) }

    predicate RequestsNoReport() {
      && !Has(flags, STATUS_RECEPTION) && !Has(flags, STATUS_FORWARD)
      && !Has(flags, STATUS_DELIVERY) && !Has(flags, STATUS_DELETION)
    }

    predicate Valid() {
      && version == VERSION
      && !(IsFragment() && Has(flags, MUST_NOT_FRAGMENT))
      && (Has(flags, ADMINISTRATIVE_RECORD) ==> RequestsNoReport())
      && EidValid(destination) && EidValid(source) && EidValid(reportTo)
      && (source == DtnNone ==> Has(flags, MUST_NOT_FRAGMENT) && RequestsNoReport())
    }

    predicate Writable() {
      crcType <= CRC32 && EidValid(destination) && EidValid(source) && EidValid(reportTo)
    }

    /** Every field is carried on the wire: fragment fields only travel in fragments. */
    predicate Wire() {
      && EidWire(destination) && EidWire(source) && EidWire(reportTo)
      && (!IsFragment() ==> offset == 0 && total == 0)
    }

    /** The number of array elements. */
    function Length(): u64 {
      8 + (if IsFragment() then 2 else 0) + if crcType == CRC_NO then 0 else 1
    }
  }

  function EidsBytes(p: PrimaryBlock): (s: bytes) {
    EidBytes(p.destination) + (EidBytes(p.source) + EidBytes(p.reportTo))
  }

  function TimesBytes(p: PrimaryBlock): (s: bytes) {
    Head(ARRAY, 2) + (UInt(p.time) + (UInt(p.sequence) + UInt(p.lifetime)))
  }

  function FragmentBytes(p: PrimaryBlock): (s: bytes) {
    if p.IsFragment() then UInt(p.offset) + UInt(p.total) else []
  }

  function PrimaryBody(p: PrimaryBlock): (s: bytes)
    ensures |s| == 2 + HeadLen(p.flags) + HeadLen(p.crcType) + |EidsBytes(p)| + |TimesBytes(p)| + |FragmentBytes(p)|
  {
    Head(ARRAY, p.Length())
    + (UInt(VERSION) + (UInt(p.flags) + (UInt(p.crcType) + (EidsBytes(p) + (TimesBytes(p) + FragmentBytes(p))))))
  }

  function PrimaryBytes(cs: Checksums, p: PrimaryBlock): (s: bytes)
    requires p.crcType <= CRC32
    ensures |s| == |PrimaryBody(p)| + if p.crcType == CRC_NO then 0 else 1 + 2 * p.crcType
  {
    PrimaryBody(p) + CrcSuffix(cs, p.crcType, PrimaryBody(p))
  }

  function ReadEids(s: bytes): (r: Parse<(Eid, Eid, Eid)>)
    ensures r.Got? ==> |r.rest| < |s| && EidWire(r.value.0) && EidWire(r.value.1) && EidWire(r.value.2)
  {
    var (destination, rest) :- ReadEid(s);
    var (source, rest) :- ReadEid(rest);
    var (reportTo, rest) :- ReadEid(rest);
    Got((destination, source, reportTo), rest)
  }

  function ReadTimes(s: bytes): (r: Parse<(u64, u64, u64)>)
    ensures r.Got? ==> |r.rest| < |s|
  {
    var (n, rest) :- ReadTyped(ARRAY, s);
    if n != 2 then Fail(Malformed)
    else
      var (time, rest) :- ReadUInt(rest);
      var (sequence, rest) :- ReadUInt(rest);
      var (lifetime, rest) :- ReadUInt(rest);
      Got((time, sequence, lifetime), rest)
  }

  /** Offset and total length, present in the forms of ten and eleven elements. */
  function ReadFragment(len: u64, s: bytes): (r: Parse<(u64, u64)>)
    ensures r.Got? ==> |r.rest| <= |s| && (len < 10 ==> r.value == (0, 0))
  {
    if len < 10 then Got((0, 0), s)
    else
      var (offset, rest) :- ReadUInt(s);
      var (total, rest) :- ReadUInt(rest);
      Got((offset, total), rest)
  }

  /** The fields of a primary block behind the array head, up to the checksum. */
  function ReadFields(len: u64, s: bytes): (r: Parse<PrimaryBlock>)
    ensures r.Got? ==> |r.rest| < |s|
    ensures r.Got? ==> EidWire(r.value.destination) && EidWire(r.value.source) && EidWire(r.value.reportTo)
    ensures r.Got? && len < 10 ==> r.value.offset == 0 && r.value.total == 0
  {
    var (version, rest) :- ReadUInt(s);
    if version != VERSION then Fail(Malformed)
    else
      var (flags, rest) :- ReadUInt(rest);
      var (crcType, rest) :- ReadUInt(rest);
      var (eids, rest) :- ReadEids(rest);
      var (times, rest) :- ReadTimes(rest);
      var (frag, rest) :- ReadFragment(len, rest);
      Got(PrimaryBlock(VERSION, flags, crcType, eids.0, eids.1, eids.2, times.0, times.1, times.2, frag.0, frag.1), rest)
  }

  /** The end of a primary block: its checksum, in the forms of nine and eleven elements. */
  function FinishPrimary(cs: Checksums, s: bytes, len: u64, fields: Parse<PrimaryBlock>): (r: Parse<PrimaryBlock>)
    requires fields.Got? ==> |fields.rest| < |s|
    ensures r.Got? ==> fields.Got? && r.value == fields.value && |r.rest| < |s|
  {
    var (p, rest) :- fields;
    if len == 8 || len == 10 then Got(p, rest)
    else
      var (_, after) :- CheckCrc(cs, p.crcType, s[..|s| - |rest|], rest);
      Got(p, after)
  }

  function ReadPrimary(cs: Checksums, s: bytes): (r: Parse<PrimaryBlock>)
    ensures r.Got? ==> |r.rest| < |s| && ReadTyped(ARRAY, s).Got?
    ensures r.Got? ==> EidWire(r.value.destination) && EidWire(r.value.source) && EidWire(r.value.reportTo)
    ensures r.Got? && ReadTyped(ARRAY, s).value < 10 ==> r.value.offset == 0 && r.value.total == 0
  {
    var (len, rest) :- ReadTyped(ARRAY, s);
    if !(8 <= len <= 11) then Fail(Malformed)
    else FinishPrimary(cs, s, len, ReadFields(len, rest))
  }

  lemma EidsRoundTrip(p: PrimaryBlock, rest: bytes)
    requires EidWire(p.destination) && EidWire(p.source) && EidWire(p.reportTo)
    ensures ReadEids(EidsBytes(p) + rest) == Got((p.destination, p.source, p.reportTo), rest)
  {
    var s1 := EidBytes(p.reportTo) + rest;
    var s2 := EidBytes(p.source) + s1;
    assert EidsBytes(p) + rest == EidBytes(p.destination) + s2;
    EidRoundTrip(p.destination, s2);
    EidRoundTrip(p.source, s1);
    EidRoundTrip(p.reportTo, rest);
  }

  lemma TimesRoundTrip(p: PrimaryBlock, rest: bytes)
    ensures ReadTimes(TimesBytes(p) + rest) == Got((p.time, p.sequence, p.lifetime), rest)
  {
    var s1 := UInt(p.lifetime) + rest;
    var s2 := UInt(p.sequence) + s1;
    var s3 := UInt(p.time) + s2;
    assert TimesBytes(p) + rest == Head(ARRAY, 2) + s3;
    HeadRoundTrip(ARRAY, 2, s3);
    UIntRoundTrip(p.time, s2);
    UIntRoundTrip(p.sequence, s1);
    UIntRoundTrip(p.lifetime, rest);
  }

  lemma FragmentRoundTrip(p: PrimaryBlock, rest: bytes)
    requires p.Wire()
    ensures ReadFragment(p.Length(), FragmentBytes(p) + rest) == Got((p.offset, p.total), rest)
  {
    if p.IsFragment() {
      assert FragmentBytes(p) + rest == UInt(p.offset) + (UInt(p.total) + rest);
      UIntRoundTrip(p.offset, UInt(p.total) + rest);
      UIntRoundTrip(p.total, rest);
    } else {
      assert FragmentBytes(p) + rest == rest;
    }
  }

  /** Everything of a primary block that follows its array head. */
  function FieldsBytes(p: PrimaryBlock, rest: bytes): (s: bytes) {
    UInt(VERSION) + (UInt(p.flags) + (UInt(p.crcType)
    + (EidsBytes(p) + (TimesBytes(p) + (FragmentBytes(p) + rest)))))
  }

  lemma FieldsRoundTrip(p: PrimaryBlock, rest: bytes)
    requires p.version == VERSION && p.Wire()
    ensures ReadFields(p.Length(), FieldsBytes(p, rest)) == Got(p, rest)
  {
    var s1 := FragmentBytes(p) + rest;
    var s2 := TimesBytes(p) + s1;
    var s3 := EidsBytes(p) + s2;
    var s4 := UInt(p.crcType) + s3;
    UIntRoundTrip(VERSION, UInt(p.flags) + s4);
    UIntRoundTrip(p.flags, s4);
    UIntRoundTrip(p.crcType, s3);
    EidsRoundTrip(p, s2);
    TimesRoundTrip(p, s1);
    FragmentRoundTrip(p, rest);
  }

  lemma PrimaryLayout(p: PrimaryBlock, rest: bytes)
    ensures PrimaryBody(p) + rest == Head(ARRAY, p.Length()) + FieldsBytes(p, rest)
  {
    var f1 := TimesBytes(p) + FragmentBytes(p);
    var f2 := EidsBytes(p) + f1;
    var f3 := UInt(p.crcType) + f2;
    var f4 := UInt(p.flags) + f3;
    Assoc(Head(ARRAY, p.Length()), UInt(VERSION) + f4, rest);
    Assoc(UInt(VERSION), f4, rest);
    Assoc(UInt(p.flags), f3, rest);
    Assoc(UInt(p.crcType), f2, rest);
    Assoc(EidsBytes(p), f1, rest);
    Assoc(TimesBytes(p), FragmentBytes(p), rest);
  }

  lemma FinishAccepts(cs: Checksums, p: PrimaryBlock, rest: bytes)
    requires p.crcType <= CRC32
    ensures var tail := CrcSuffix(cs, p.crcType, PrimaryBody(p)) + rest;
            FinishPrimary(cs, PrimaryBytes(cs, p) + rest, p.Length(), Got(p, tail)) == Got(p, rest)
  {
    hide PrimaryBody, CheckCrc, Has;
    var body := PrimaryBody(p);
    var tail := CrcSuffix(cs, p.crcType, body) + rest;
    CoveredBytes(body, CrcSuffix(cs, p.crcType, body), rest);
    if p.crcType != CRC_NO {
      CheckCrcAccepts(cs, p.crcType, body, rest);
    } else {
      assert tail == rest;
    }
  }

  lemma CoveredBytes(body: bytes, crc: bytes, rest: bytes)
    ensures var s := body + crc + rest; s[..|s| - |crc + rest|] == body
  {
  }

  /** Reading undoes writing for all four forms of the block. */
  lemma PrimaryRoundTrip(cs: Checksums, p: PrimaryBlock, rest: bytes)
    requires p.crcType <= CRC32 && p.version == VERSION && p.Wire()
    ensures ReadPrimary(cs, PrimaryBytes(cs, p) + rest) == Got(p, rest)
  {
    var crc := CrcSuffix(cs, p.crcType, PrimaryBody(p));
    var tail := crc + rest;
    Assoc(PrimaryBody(p), crc, rest);
    PrimaryLayout(p, tail);
    HeadRoundTrip(ARRAY, p.Length(), FieldsBytes(p, tail));
    FieldsRoundTrip(p, tail);
    FinishAccepts(cs, p, rest);
  }

  /** The first head of a written primary block announces its form. */
  lemma PrimaryLengthRead(cs: Checksums, p: PrimaryBlock, rest: bytes)
    requires p.crcType <= CRC32
    ensures ReadTyped(ARRAY, PrimaryBytes(cs, p) + rest).Got?
    ensures ReadTyped(ARRAY, PrimaryBytes(cs, p) + rest).value == p.Length()
  {
    var crc := CrcSuffix(cs, p.crcType, PrimaryBody(p));
    Assoc(PrimaryBody(p), crc, rest);
    PrimaryLayout(p, crc + rest);
    HeadRoundTrip(ARRAY, p.Length(), FieldsBytes(p, crc + rest));
  }
}
