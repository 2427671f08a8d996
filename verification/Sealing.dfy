/** What the checksum of a block covers: every byte in front of it, and a zeroed checksum field. */
module Sealing {
  import opened Bytes
  import opened Cbor
  import opened Endpoint
  import opened Block
  import opened Primary

  /** The bytes end in the checksum of themselves, computed with zeros in its place. */
  predicate Sealed(cs: Checksums, crcType: u64, s: bytes) {
    if crcType == CRC16 then |s| >= 2 && s[|s| - 2..] == BigEndian(cs.crc16(s[..|s| - 2] + [0, 0]), 2)
    else if crcType == CRC32 then |s| >= 4 && s[|s| - 4..] == BigEndian(cs.crc32(s[..|s| - 4] + [0, 0, 0, 0]), 4)
    else true
  }

  lemma ShortString(data: Blob)
    requires |data| == 2 || |data| == 4
    ensures ByteString(data) == [64 + |data|] + data
  {
  }

  lemma ZeroedField16(block: bytes, crc: bytes)
    requires |crc| == 2
    ensures var s := block + ([66] + crc);
            s[..|s| - 2] + [0, 0] == block + ([66] + [0, 0]) && s[|s| - 2..] == crc
  {
  }

  lemma ZeroedField32(block: bytes, crc: bytes)
    requires |crc| == 4
    ensures var s := block + ([68] + crc);
            s[..|s| - 4] + [0, 0, 0, 0] == block + ([68] + [0, 0, 0, 0]) && s[|s| - 4..] == crc
  {
  }

  /** A checksum string behind a block seals it exactly if it is the block's own. */
  lemma SealedIff(cs: Checksums, crcType: u64, block: bytes, crc: Blob)
    requires 1 <= crcType <= CRC32 && |crc| == 2 * crcType
    ensures Sealed(cs, crcType, block + ByteString(crc)) <==> crc == CrcField(cs, crcType, block)
  {
    hide BigEndian, ByteString;
    ShortString(crc);
    if crcType == CRC16 {
      ShortString([0, 0]);
      ZeroedField16(block, crc);
    } else {
      ShortString([0, 0, 0, 0]);
      ZeroedField32(block, crc);
    }
  }

  lemma SuffixSeals(cs: Checksums, crcType: u64, body: bytes)
    requires crcType <= CRC32
    ensures Sealed(cs, crcType, body + CrcSuffix(cs, crcType, body))
  {
    hide Sealed, CrcField;
    if crcType == CRC_NO {
      NothingToSeal(cs, body + CrcSuffix(cs, crcType, body));
    } else {
      SealedIff(cs, crcType, body, CrcField(cs, crcType, body));
    }
  }

  lemma NothingToSeal(cs: Checksums, s: bytes)
    ensures Sealed(cs, CRC_NO, s)
  {
  }

  // Written blocks

  /** Every written canonical block ends in the checksum of all its bytes. */
  lemma WrittenBlockIsSealed(cs: Checksums, cb: Canonical)
    requires cb.crcType <= CRC32
    ensures Sealed(cs, cb.crcType, CanonicalBytes(cs, cb))
  {
    hide Sealed, CanonicalBody, CrcSuffix;
    SuffixSeals(cs, cb.crcType, CanonicalBody(cb));
  }

  /** So does every written primary block. */
  lemma WrittenPrimaryIsSealed(cs: Checksums, p: PrimaryBlock)
    requires p.crcType <= CRC32
    ensures Sealed(cs, p.crcType, PrimaryBytes(cs, p))
  {
    hide Sealed, PrimaryBody, CrcSuffix;
    SuffixSeals(cs, p.crcType, PrimaryBody(p));
  }

  // Blocks that were read

  lemma CheckedIsSealed(cs: Checksums, crcType: u64, covered: bytes, s: bytes)
    requires 1 <= crcType && CheckCrc(cs, crcType, covered, s).Got?
    ensures crcType <= CRC32 && ReadByteString(s).Got? && CheckCrc(cs, crcType, covered, s).rest == ReadByteString(s).rest
    ensures |ReadByteString(s).value| == 2 * crcType
    ensures Sealed(cs, crcType, covered + ByteString(ReadByteString(s).value))
  {
    hide Sealed, ReadByteString, CrcField;
    SealedIff(cs, crcType, covered, ReadByteString(s).value);
  }

  /**
    * A six-element block that was read ends, in front of `rest`, in a byte string that seals it. The
    * bytes are those consumed, with the array head and the head of the checksum in shortest form,
    * which is how the checksum is computed.
    */
  lemma ReadBlockIsSealed(cs: Checksums, s: bytes) returns (fields: bytes, tail: bytes)
    requires ReadCanonical(cs, s).Got? && ReadTyped(ARRAY, s).value == 6 && ReadCanonical(cs, s).value.crcType != CRC_NO
    ensures ReadTyped(ARRAY, s).Got? && ReadTyped(ARRAY, s).rest == fields + tail
    ensures ReadByteString(tail).Got? && ReadByteString(tail).rest == ReadCanonical(cs, s).rest
    ensures ReadCanonical(cs, s).value.crcType <= CRC32
    ensures Sealed(cs, ReadCanonical(cs, s).value.crcType, [0x86] + fields + ByteString(ReadByteString(tail).value))
  {
    hide Sealed, ReadByteString, ReadContent, ReadHead, CheckCrc, Head;
    var h := ReadHeader(s);
    assert h.Got? && ReadTyped(ARRAY, s) == Got(6, h.value.fields);
    tail := ReadValue(h.value.code, h.rest).rest;
    fields := h.value.fields[..|h.value.fields| - |tail|];
    ReadersConsume(s);
    CheckedIsSealed(cs, h.value.crcType, h.value.Covered(tail), tail);
    SixElements();
  }

  lemma SixElements()
    ensures Head(ARRAY, 6) == [0x86]
  {
  }

  // What is read off a stream is a suffix of it

  predicate SuffixOf(t: bytes, s: bytes) {
    |t| <= |s| && t == s[|s| - |t|..]
  }

  lemma SuffixOfSuffix(u: bytes, t: bytes, s: bytes)
    requires SuffixOf(u, t) && SuffixOf(t, s)
    ensures SuffixOf(u, s)
  {
  }

  lemma SuffixSplits(t: bytes, s: bytes)
    requires SuffixOf(t, s)
    ensures |t| <= |s| && s == s[..|s| - |t|] + t
  {
  }

  lemma HeadConsumes(s: bytes)
    requires ReadHead(s).Got?
    ensures SuffixOf(ReadHead(s).rest, s)
  {
    hide FromBigEndian, Pow256;
  }

  lemma RawConsumes(n: u64, s: bytes)
    requires ReadRaw(n, s).Got?
    ensures SuffixOf(ReadRaw(n, s).rest, s)
  {
  }

  lemma TypedConsumes(major: byte, s: bytes)
    requires ReadTyped(major, s).Got?
    ensures SuffixOf(ReadTyped(major, s).rest, s)
  {
    hide ReadHead, SuffixOf;
    HeadConsumes(s);
  }

  lemma StringConsumes(s: bytes)
    requires ReadByteString(s).Got?
    ensures SuffixOf(ReadByteString(s).rest, s)
  {
    hide ReadTyped, ReadRaw, SuffixOf;
    TypedConsumes(BYTE_STRING, s);
    var head := ReadTyped(BYTE_STRING, s);
    RawConsumes(head.value, head.rest);
    SuffixOfSuffix(ReadByteString(s).rest, head.rest, s);
  }

  /** Reads two integers. */
  lemma TwoConsume(s: bytes)
    requires ReadUInt(s).Got? && ReadUInt(ReadUInt(s).rest).Got?
    ensures SuffixOf(ReadUInt(ReadUInt(s).rest).rest, s)
  {
    hide ReadTyped, SuffixOf;
    TypedConsumes(UINT, s);
    TypedConsumes(UINT, ReadUInt(s).rest);
    SuffixOfSuffix(ReadUInt(ReadUInt(s).rest).rest, ReadUInt(s).rest, s);
  }

  lemma HeaderConsumes(s: bytes)
    requires ReadHeader(s).Got?
    ensures SuffixOf(ReadHeader(s).rest, ReadHeader(s).value.fields)
  {
    hide ReadTyped, SuffixOf;
    var fields := ReadHeader(s).value.fields;
    var half := ReadUInt(ReadUInt(fields).rest).rest;
    TwoConsume(fields);
    TwoConsume(half);
    SuffixOfSuffix(ReadHeader(s).rest, half, fields);
  }

  lemma ReadersConsume(s: bytes)
    requires ReadHeader(s).Got? && ReadValue(ReadHeader(s).value.code, ReadHeader(s).rest).Got?
    ensures var h := ReadHeader(s);
            var tail := ReadValue(h.value.code, h.rest).rest;
            |tail| <= |h.value.fields| && h.value.fields == h.value.fields[..|h.value.fields| - |tail|] + tail
  {
    hide ReadHeader, ReadContent, ReadByteString, SuffixOf;
    var h := ReadHeader(s);
    var tail := ReadValue(h.value.code, h.rest).rest;
    HeaderConsumes(s);
    StringConsumes(h.rest);
    SuffixOfSuffix(tail, h.rest, h.value.fields);
    SuffixSplits(tail, h.value.fields);
  }

  /** A primary block of nine or eleven elements that was read is sealed likewise. */
  lemma ReadPrimaryIsSealed(cs: Checksums, s: bytes) returns (fields: bytes, tail: bytes)
    requires ReadPrimary(cs, s).Got? && (ReadTyped(ARRAY, s).value == 9 || ReadTyped(ARRAY, s).value == 11)
    requires ReadPrimary(cs, s).value.crcType != CRC_NO
    ensures fields <= s && tail == s[|fields|..]
    ensures ReadByteString(tail).Got? && ReadByteString(tail).rest == ReadPrimary(cs, s).rest
    ensures ReadPrimary(cs, s).value.crcType <= CRC32
    ensures Sealed(cs, ReadPrimary(cs, s).value.crcType, fields + ByteString(ReadByteString(tail).value))
  {
    hide Sealed, ReadByteString, ReadHead, CheckCrc, ReadFields;
    var len := ReadTyped(ARRAY, s);
    var p := ReadFields(len.value, len.rest);
    tail := p.rest;
    fields := s[..|s| - |tail|];
    PrimaryConsumes(s);
    CheckedIsSealed(cs, p.value.crcType, fields, tail);
  }

  lemma DtnConsumes(s: bytes)
    requires ReadDtn(s).Got?
    ensures SuffixOf(ReadDtn(s).rest, s)
  {
    hide ReadHead, ReadRaw, ParseSsp, SuffixOf;
    HeadConsumes(s);
    var h := ReadHead(s);
    if h.value.0 != UINT {
      RawConsumes(h.value.1, h.rest);
      SuffixOfSuffix(ReadDtn(s).rest, h.rest, s);
    }
  }

  lemma IpnConsumes(s: bytes)
    requires ReadIpn(s).Got?
    ensures SuffixOf(ReadIpn(s).rest, s)
  {
    hide ReadTyped, SuffixOf;
    TypedConsumes(ARRAY, s);
    var rest := ReadTyped(ARRAY, s).rest;
    TwoConsume(rest);
    SuffixOfSuffix(ReadIpn(s).rest, rest, s);
  }

  lemma EidConsumes(s: bytes)
    requires ReadEid(s).Got?
    ensures SuffixOf(ReadEid(s).rest, s)
  {
    hide ReadTyped, ReadDtn, ReadIpn, SuffixOf;
    TypedConsumes(ARRAY, s);
    var s1 := ReadTyped(ARRAY, s).rest;
    TypedConsumes(UINT, s1);
    var scheme := ReadUInt(s1);
    SuffixOfSuffix(scheme.rest, s1, s);
    if scheme.value == DTN_SCHEME {
      DtnConsumes(scheme.rest);
    } else {
      IpnConsumes(scheme.rest);
    }
    SuffixOfSuffix(ReadEid(s).rest, scheme.rest, s);
  }

  lemma EidsConsume(s: bytes)
    requires ReadEids(s).Got?
    ensures SuffixOf(ReadEids(s).rest, s)
  {
    hide ReadEid, SuffixOf;
    var s1 := ReadEid(s).rest;
    var s2 := ReadEid(s1).rest;
    EidConsumes(s);
    EidConsumes(s1);
    EidConsumes(s2);
    SuffixOfSuffix(s2, s1, s);
    SuffixOfSuffix(ReadEids(s).rest, s2, s);
  }

  lemma TimesConsume(s: bytes)
    requires ReadTimes(s).Got?
    ensures SuffixOf(ReadTimes(s).rest, s)
  {
    hide ReadTyped, SuffixOf;
    TypedConsumes(ARRAY, s);
    var s1 := ReadTyped(ARRAY, s).rest;
    TwoConsume(s1);
    var s2 := ReadUInt(ReadUInt(s1).rest).rest;
    TypedConsumes(UINT, s2);
    SuffixOfSuffix(s2, s1, s);
    SuffixOfSuffix(ReadTimes(s).rest, s2, s);
  }

  lemma FragmentConsumes(len: u64, s: bytes)
    requires ReadFragment(len, s).Got?
    ensures SuffixOf(ReadFragment(len, s).rest, s)
  {
    hide ReadTyped;
    if len >= 10 {
      TwoConsume(s);
    }
  }

  lemma FieldsConsume(len: u64, s: bytes)
    requires ReadFields(len, s).Got?
    ensures SuffixOf(ReadFields(len, s).rest, s)
  {
    hide ReadTyped, ReadEids, ReadTimes, ReadFragment, SuffixOf;
    TwoConsume(s);
    var s2 := ReadUInt(ReadUInt(s).rest).rest;
    TypedConsumes(UINT, s2);
    var s3 := ReadUInt(s2).rest;
    EidsConsume(s3);
    var s4 := ReadEids(s3).rest;
    TimesConsume(s4);
    var s5 := ReadTimes(s4).rest;
    FragmentConsumes(len, s5);
    SuffixOfSuffix(s3, s2, s);
    SuffixOfSuffix(s4, s3, s);
    SuffixOfSuffix(s5, s4, s);
    SuffixOfSuffix(ReadFields(len, s).rest, s5, s);
  }

  lemma PrimaryConsumes(s: bytes)
    requires ReadTyped(ARRAY, s).Got? && ReadFields(ReadTyped(ARRAY, s).value, ReadTyped(ARRAY, s).rest).Got?
    ensures var tail := ReadFields(ReadTyped(ARRAY, s).value, ReadTyped(ARRAY, s).rest).rest;
            |tail| <= |s| && s == s[..|s| - |tail|] + tail
  {
    hide ReadTyped, ReadFields, SuffixOf;
    TypedConsumes(ARRAY, s);
    var len := ReadTyped(ARRAY, s);
    FieldsConsume(len.value, len.rest);
    var tail := ReadFields(len.value, len.rest).rest;
    SuffixOfSuffix(tail, len.rest, s);
    SuffixSplits(tail, s);
  }

  // Refusal

  /**
    * Behind the fields of a block exactly one checksum is accepted: the one the block is written
    * with. Any other bytes in its place, or another block under the same checksum, are refused.
    */
  lemma OnlyItsChecksum(cs: Checksums, cb: Canonical, crc: Blob, rest: bytes)
    requires 1 <= cb.crcType <= CRC32 && cb.value.Wire() && |crc| == 2 * cb.crcType
    ensures var s := CanonicalBytes(cs, cb);
            var n := |s| - |crc|;
            && n >= 0
            && (ReadCanonical(cs, s[..n] + crc + rest).Got? <==> crc == s[n..])
            && (ReadCanonical(cs, s[..n] + crc + rest).Got? <==> Sealed(cs, cb.crcType, s[..n] + crc))
  {
    hide CanonicalBody, ReadCanonical, ByteString, CrcField, Sealed, Value.Wire;
    var body := CanonicalBody(cb);
    var own := CrcField(cs, cb.crcType, body);
    SplitBehindHead(body, own, crc);
    SealedIff(cs, cb.crcType, body, crc);
    Assoc(body, ByteString(crc), rest);
    ForeignChecksum(cs, cb, crc, rest);
  }

  lemma SplitBehindHead(body: bytes, own: Blob, crc: Blob)
    requires |own| == |crc| && (|crc| == 2 || |crc| == 4)
    ensures var s := body + ByteString(own);
            |s| >= |crc| && s[..|s| - |crc|] + crc == body + ByteString(crc) && s[|s| - |crc|..] == own
  {
    hide ByteString;
    ShortString(own);
    ShortString(crc);
  }

  lemma ForeignChecksum(cs: Checksums, cb: Canonical, crc: Blob, rest: bytes)
    requires 1 <= cb.crcType <= CRC32 && cb.value.Wire() && |crc| == 2 * cb.crcType
    ensures ReadCanonical(cs, CanonicalBody(cb) + (ByteString(crc) + rest)).Got? <==> crc == CrcField(cs, cb.crcType, CanonicalBody(cb))
  {
    var body := CanonicalBody(cb);
    var tail := ByteString(crc) + rest;
    var content := ByteString(cb.value.Content());
    BodyLayout(cb, tail);
    HeaderRoundTrip(cb, content + tail);
    ByteStringRoundTrip(cb.value.Content(), tail);
    ContentRoundTrip(cb.value);
    ByteStringRoundTrip(crc, rest);
    CoveredIsBody(cb, tail);
    hide CanonicalBody, ReadContent, ReadByteString, ByteString, CrcField, ReadHeader, Header.Covered, Head, Value.Content;
  }

  lemma BodyLayout(cb: Canonical, tail: bytes)
    ensures CanonicalBody(cb) + tail
            == Head(ARRAY, if cb.crcType == CRC_NO then 5 else 6)
               + (UInt(cb.TypeCode()) + (UInt(cb.number) + (UInt(cb.flags) + (UInt(cb.crcType) + (ByteString(cb.value.Content()) + tail)))))
  {
    hide Head, ByteString, Value.Content;
    var content := ByteString(cb.value.Content());
    var f1 := UInt(cb.crcType) + content;
    var f2 := UInt(cb.flags) + f1;
    var f3 := UInt(cb.number) + f2;
    Assoc(Head(ARRAY, if cb.crcType == CRC_NO then 5 else 6), UInt(cb.TypeCode()) + f3, tail);
    Assoc(UInt(cb.TypeCode()), f3, tail);
    Assoc(UInt(cb.number), f2, tail);
    Assoc(UInt(cb.flags), f1, tail);
    Assoc(UInt(cb.crcType), content, tail);
  }

  lemma CoveredIsBody(cb: Canonical, tail: bytes)
    requires cb.crcType != CRC_NO
    ensures var h := ReadHeader(CanonicalBody(cb) + tail);
            h.Got? && |tail| <= |h.value.fields| && h.value.Covered(tail) == CanonicalBody(cb)
  {
    BodyLayout(cb, tail);
    HeaderRoundTrip(cb, ByteString(cb.value.Content()) + tail);
    hide ReadHeader, ByteString, Value.Content;
    var body := CanonicalBody(cb);
    var h := ReadHeader(body + tail);
    SixElements();
    assert body + tail == [0x86] + h.value.fields;
    assert (body + tail)[..|body|] == body;
  }
}
