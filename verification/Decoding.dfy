/**
  * The hand-written readers against a generic CBOR decoder: which streams they accept, and what they
  * make of them.
  */
module Decoding {
  import opened Bytes
  import opened Cbor
  import opened Endpoint
  import opened Block
  import opened Primary
  import opened Sealing
  import opened WireFormat

  /** Decodes one data item, whatever it means (section 3 of RFC 8949). */
  function Decode(s: bytes): (r: Parse<Item>)
    ensures r.Got? ==> |r.rest| < |s|
    decreases |s|, 0
  {
    var (h, rest) :- ReadHead(s);
    if h.0 == UINT then Got(Int(h.1), rest)
    else if h.0 == BYTE_STRING then
      var (data, rest) :- ReadRaw(h.1, rest);
      Got(Data(data), rest)
    else if h.0 == TEXT_STRING then
      var (text, rest) :- ReadRaw(h.1, rest);
      Got(Text(text), rest)
    else if h.0 == ARRAY then
      var (items, rest) :- DecodeAll(h.1, rest);
      Got(List(items), rest)
    else Fail(Malformed)
  }

  function DecodeAll(n: nat, s: bytes): (r: Parse<seq<Item>>)
    ensures r.Got? ==> |r.rest| <= |s| && |r.value| == n
    decreases |s|, 1, n
  {
    if n == 0 then Got([], s)
    else
      var (item, rest) :- Decode(s);
      var (items, rest) :- DecodeAll(n - 1, rest);
      Got([item] + items, rest)
  }

  // One item at a time

  lemma NumberRead(s: bytes, n: u64, rest: bytes)
    ensures ReadUInt(s) == Got(n, rest) <==> Decode(s) == Got(Int(n), rest)
  {
    hide ReadHead, ReadRaw, DecodeAll;
  }

  lemma DataRead(s: bytes, data: Blob, rest: bytes)
    ensures ReadByteString(s) == Got(data, rest) <==> Decode(s) == Got(Data(data), rest)
  {
    hide ReadHead, ReadRaw, DecodeAll;
  }

  lemma ListRead(s: bytes, items: seq<Item>, rest: bytes)
    ensures Decode(s) == Got(List(items), rest) <==>
              ReadTyped(ARRAY, s).Got? && DecodeAll(ReadTyped(ARRAY, s).value, ReadTyped(ARRAY, s).rest) == Got(items, rest)
  {
    hide ReadHead, ReadRaw, DecodeAll;
  }

  lemma NextItem(n: nat, s: bytes, item: Item, items: seq<Item>, rest: bytes)
    requires n > 0
    ensures DecodeAll(n, s) == Got([item] + items, rest) <==>
              Decode(s).Got? && Decode(s).value == item && DecodeAll(n - 1, Decode(s).rest) == Got(items, rest)
  {
    hide Decode;
    var r := DecodeAll(n, s);
    if r.Got? && r.value == [item] + items {
      var first, more := Decode(s).value, DecodeAll(n - 1, Decode(s).rest).value;
      assert ([first] + more)[0] == first && ([first] + more)[1..] == more;
      assert ([item] + items)[0] == item && ([item] + items)[1..] == items;
    }
  }

  lemma NoItem(s: bytes, rest: bytes)
    ensures DecodeAll(0, s) == Got([], rest) <==> rest == s
  {
  }

  lemma NumberNext(n: nat, s: bytes, a: u64, items: seq<Item>, rest: bytes)
    requires n > 0
    ensures DecodeAll(n, s) == Got([Int(a)] + items, rest) <==>
              ReadUInt(s).Got? && ReadUInt(s).value == a && DecodeAll(n - 1, ReadUInt(s).rest) == Got(items, rest)
  {
    hide Decode, ReadUInt, DecodeAll;
    NextItem(n, s, Int(a), items, rest);
    if Decode(s).Got? { NumberRead(s, a, Decode(s).rest); }
    if ReadUInt(s).Got? { NumberRead(s, a, ReadUInt(s).rest); }
  }

  lemma NumbersRead(s: bytes, a: u64, b: u64, rest: bytes)
    ensures DecodeAll(2, s) == Got([Int(a), Int(b)], rest) <==>
              && ReadUInt(s).Got? && ReadUInt(s).value == a
              && ReadUInt(ReadUInt(s).rest) == Got(b, rest)
  {
    hide DecodeAll, ReadUInt;
    assert [Int(a), Int(b)] == [Int(a)] + [Int(b)] && [Int(b)] + [] == [Int(b)];
    NumberNext(2, s, a, [Int(b)], rest);
    if ReadUInt(s).Got? {
      var s1 := ReadUInt(s).rest;
      NumberNext(1, s1, b, [], rest);
      if ReadUInt(s1).Got? { NoItem(ReadUInt(s1).rest, rest); }
    }
  }

  lemma PairOfNumbers(s: bytes, a: u64, b: u64, rest: bytes)
    ensures Decode(s) == Got(List([Int(a), Int(b)]), rest) <==>
              && ReadTyped(ARRAY, s).Got? && ReadTyped(ARRAY, s).value == 2
              && var first := ReadUInt(ReadTyped(ARRAY, s).rest);
              && first.Got? && first.value == a && ReadUInt(first.rest) == Got(b, rest)
  {
    hide ReadTyped, ReadUInt, Decode, DecodeAll;
    ListRead(s, [Int(a), Int(b)], rest);
    if ReadTyped(ARRAY, s).Got? {
      NumbersRead(ReadTyped(ARRAY, s).rest, a, b, rest);
    }
  }

  // Endpoints

  /** The item of an endpoint; any number stands for dtn:none. */
  predicate IsEid(item: Item, e: Eid) {
    && EidWire(e)
    && (|| item == EidItem(e)
        || (e.DtnNone? && item.List? && |item.items| == 2 && item.items[0] == Int(1) && item.items[1].Int?))
  }

  lemma PairRead(s: bytes, a: Item, b: Item, rest: bytes)
    ensures Decode(s) == Got(List([a, b]), rest) <==>
              && ReadTyped(ARRAY, s).Got? && ReadTyped(ARRAY, s).value == 2
              && var first := Decode(ReadTyped(ARRAY, s).rest);
              && first.Got? && first.value == a && Decode(first.rest) == Got(b, rest)
  {
    ListRead(s, [a, b], rest);
    hide Decode, ReadTyped;
    if ReadTyped(ARRAY, s).Got? && ReadTyped(ARRAY, s).value == 2 {
      var body := ReadTyped(ARRAY, s).rest;
      assert [a, b] == [a] + [b] && [b] == [b] + [];
      NextItem(2, body, a, [b], rest);
      if Decode(body).Got? {
        NextItem(1, Decode(body).rest, b, [], rest);
      }
    }
  }

  lemma IpnRead(s: bytes, e: Eid, rest: bytes)
    ensures ReadIpn(s) == Got(e, rest) <==> e.Ipn? && Decode(s) == Got(List([Int(e.number), Int(e.service)]), rest)
  {
    hide Decode, ReadTyped, ReadUInt;
    if e.Ipn? { PairOfNumbers(s, e.number, e.service, rest); }
  }

  lemma DtnRead(s: bytes, e: Eid, rest: bytes)
    ensures ReadDtn(s) == Got(e, rest) <==>
              && Decode(s).Got? && Decode(s).rest == rest && EidWire(e)
              && ((e.DtnNone? && Decode(s).value.Int?) || (e.Dtn? && Decode(s).value == Text(Ssp(e.node, e.demux))))
  {
    hide ReadHead, ReadRaw, DecodeAll, ParseSsp;
    if Decode(s).Got? && Decode(s).value.Text? && e.Dtn? {
      ParseSspIff(Decode(s).value.text, e);
    }
  }

  lemma EidItems(item: Item, e: Eid)
    ensures IsEid(item, e) <==>
              && EidWire(e) && item.List? && |item.items| == 2
              && var a, b := item.items[0], item.items[1];
              || (a == Int(1) && e.DtnNone? && b.Int?)
              || (a == Int(1) && e.Dtn? && b == Text(Ssp(e.node, e.demux)))
              || (a == Int(2) && e.Ipn? && b == List([Int(e.number), Int(e.service)]))
  {
    if item.List? && |item.items| == 2 {
      assert item.items == [item.items[0], item.items[1]];
    }
  }

  /** The two items of an endpoint array: scheme, and scheme-specific part. */
  lemma SchemeRead(s: bytes, e: Eid, rest: bytes)
    ensures ReadEid(s) == Got(e, rest) <==>
              && ReadTyped(ARRAY, s).Got? && ReadTyped(ARRAY, s).value == 2
              && var scheme := ReadUInt(ReadTyped(ARRAY, s).rest);
              && scheme.Got?
              && (scheme.value == 1 || scheme.value == 2)
              && (scheme.value == 1 ==> ReadDtn(scheme.rest) == Got(e, rest))
              && (scheme.value == 2 ==> ReadIpn(scheme.rest) == Got(e, rest))
  {
    hide ReadTyped, ReadUInt, ReadDtn, ReadIpn;
  }

  lemma {:induction false} ReadEidDecodes(s: bytes, e: Eid, rest: bytes)
    requires ReadEid(s) == Got(e, rest)
    ensures Decode(s).Got? && Decode(s).rest == rest && IsEid(Decode(s).value, e)
  {
    SchemeRead(s, e, rest);
    var scheme := ReadUInt(ReadTyped(ARRAY, s).rest);
    hide ReadTyped, ReadUInt, ReadDtn, ReadIpn, Decode, IsEid, EidWire;
    NumberRead(ReadTyped(ARRAY, s).rest, scheme.value, scheme.rest);
    if scheme.value == 1 {
      DtnRead(scheme.rest, e, rest);
    } else {
      IpnRead(scheme.rest, e, rest);
    }
    var part := Decode(scheme.rest).value;
    PairRead(s, Int(scheme.value), part, rest);
    EidItems(List([Int(scheme.value), part]), e);
  }

  lemma {:induction false} DecodedEidIsRead(s: bytes, e: Eid, rest: bytes)
    requires Decode(s).Got? && Decode(s).rest == rest && IsEid(Decode(s).value, e)
    ensures ReadEid(s) == Got(e, rest)
  {
    var item := Decode(s).value;
    EidItems(item, e);
    hide ReadTyped, ReadUInt, ReadDtn, ReadIpn, Decode, IsEid;
    assert item.items == [item.items[0], item.items[1]];
    PairRead(s, item.items[0], item.items[1], rest);
    var first := Decode(ReadTyped(ARRAY, s).rest);
    NumberRead(ReadTyped(ARRAY, s).rest, item.items[0].n, first.rest);
    if item.items[0].n == 1 {
      DtnRead(first.rest, e, rest);
    } else {
      IpnRead(first.rest, e, rest);
    }
    SchemeRead(s, e, rest);
  }

  /** An endpoint is read exactly where the stream decodes to its item. */
  lemma EidReadIff(s: bytes, e: Eid, rest: bytes)
    ensures ReadEid(s) == Got(e, rest) <==> Decode(s).Got? && Decode(s).rest == rest && IsEid(Decode(s).value, e)
  {
    hide *;
    if ReadEid(s) == Got(e, rest) { ReadEidDecodes(s, e, rest); }
    if Decode(s).Got? && Decode(s).rest == rest && IsEid(Decode(s).value, e) { DecodedEidIsRead(s, e, rest); }
  }

  // Values

  /** The byte string `data` stands for the value `v` in a block of type `code`. What follows the item is ignored. */
  predicate IsContent(code: u64, data: Blob, v: Value) {
    match v
    case Payload(d) => code == 1 && d == data
    case PreviousNode(e) => code == 6 && Decode(data).Got? && IsEid(Decode(data).value, e)
    case BundleAge(age) => code == 7 && Decode(data).Got? && Decode(data).value == Int(age)
    case HopCount(limit, count) => code == 10 && Decode(data).Got? && Decode(data).value == List([Int(limit), Int(count)])
    case RecType(kind) => code == 1000 && Decode(data).Got? && Decode(data).value == List([Int(kind)])
    case BinarySpray(_) => false
    case Generic(c, d) => c == code && code !in {1, 6, 7, 10, 1000} && d == data
  }

  lemma SingleRead(s: bytes, a: Item, rest: bytes)
    ensures Decode(s) == Got(List([a]), rest) <==>
              ReadTyped(ARRAY, s).Got? && ReadTyped(ARRAY, s).value == 1 && Decode(ReadTyped(ARRAY, s).rest) == Got(a, rest)
  {
    ListRead(s, [a], rest);
    hide Decode, ReadTyped;
    if ReadTyped(ARRAY, s).Got? && ReadTyped(ARRAY, s).value == 1 {
      assert [a] == [a] + [];
      NextItem(1, ReadTyped(ARRAY, s).rest, a, [], rest);
    }
  }

  lemma RecTypeRead(s: bytes, v: Value, rest: bytes)
    ensures ReadRecType(s) == Got(v, rest) <==> v.RecType? && Decode(s) == Got(List([Int(v.kind)]), rest)
  {
    if v.RecType? {
      SingleRead(s, Int(v.kind), rest);
      hide Decode, ReadTyped;
      if ReadTyped(ARRAY, s).Got? {
        NumberRead(ReadTyped(ARRAY, s).rest, v.kind, rest);
      }
    }
  }

  lemma HopCountRead(s: bytes, v: Value, rest: bytes)
    ensures ReadHopCount(s) == Got(v, rest) <==> v.HopCount? && Decode(s) == Got(List([Int(v.limit), Int(v.count)]), rest)
  {
    hide Decode, ReadTyped, ReadUInt;
    if v.HopCount? { PairOfNumbers(s, v.limit, v.count, rest); }
  }

  /** A value is read exactly where the data decodes to its item, or is taken as it is. */
  lemma ContentReadIff(code: u64, data: Blob, v: Value)
    ensures ReadContent(code, data) == Some(v) <==> IsContent(code, data, v)
  {
    hide Decode, ReadEid, ReadUInt, ReadHopCount, ReadRecType, IsEid;
    if ReadEid(data).Got? { EidReadIff(data, ReadEid(data).value, ReadEid(data).rest); }
    if ReadUInt(data).Got? { NumberRead(data, ReadUInt(data).value, ReadUInt(data).rest); }
    if ReadHopCount(data).Got? { HopCountRead(data, ReadHopCount(data).value, ReadHopCount(data).rest); }
    if ReadRecType(data).Got? { RecTypeRead(data, ReadRecType(data).value, ReadRecType(data).rest); }
    if Decode(data).Got? {
      var rest := Decode(data).rest;
      match v
      case PreviousNode(e) => EidReadIff(data, e, rest);
      case BundleAge(age) => NumberRead(data, age, rest);
      case HopCount(_, _) => HopCountRead(data, v, rest);
      case RecType(_) => RecTypeRead(data, v, rest);
      case _ =>
    }
  }

  // Canonical blocks

  lemma DataNext(n: nat, s: bytes, data: Blob, items: seq<Item>, rest: bytes)
    requires n > 0
    ensures DecodeAll(n, s) == Got([Data(data)] + items, rest) <==>
              && ReadByteString(s).Got? && ReadByteString(s).value == data
              && DecodeAll(n - 1, ReadByteString(s).rest) == Got(items, rest)
  {
    hide Decode, ReadByteString, DecodeAll;
    NextItem(n, s, Data(data), items, rest);
    if Decode(s).Got? { DataRead(s, data, Decode(s).rest); }
    if ReadByteString(s).Got? { DataRead(s, data, ReadByteString(s).rest); }
  }

  /** The five elements that every canonical block has. */
  datatype Element = Element(code: u64, number: u64, flags: u64, crcType: u64, data: Blob) {
    function Items(): (r: seq<Item>) { [Int(code), Int(number), Int(flags), Int(crcType), Data(data)] }
  }

  function ReadElements(s: bytes): (r: Parse<Element>)
    ensures r.Got? ==> |r.rest| <= |s|
  {
    var (code, rest) :- ReadUInt(s);
    var (number, rest) :- ReadUInt(rest);
    var (flags, rest) :- ReadUInt(rest);
    var (crcType, rest) :- ReadUInt(rest);
    var (data, rest) :- ReadByteString(rest);
    Got(Element(code, number, flags, crcType, data), rest)
  }

  lemma ElementsRead(n: nat, s: bytes, e: Element, items: seq<Item>, rest: bytes)
    requires n >= 5
    ensures DecodeAll(n, s) == Got(e.Items() + items, rest) <==>
              && ReadElements(s).Got? && ReadElements(s).value == e
              && DecodeAll(n - 5, ReadElements(s).rest) == Got(items, rest)
  {
    hide DecodeAll, ReadUInt, ReadByteString;
    var i1 := [Data(e.data)] + items;
    var i2 := [Int(e.crcType)] + i1;
    var i3 := [Int(e.flags)] + i2;
    var i4 := [Int(e.number)] + i3;
    assert e.Items() + items == [Int(e.code)] + i4;
    NumberNext(n, s, e.code, i4, rest);
    if ReadUInt(s).Got? {
      var s1 := ReadUInt(s).rest;
      NumberNext(n - 1, s1, e.number, i3, rest);
      if ReadUInt(s1).Got? {
        var s2 := ReadUInt(s1).rest;
        NumberNext(n - 2, s2, e.flags, i2, rest);
        if ReadUInt(s2).Got? {
          var s3 := ReadUInt(s2).rest;
          NumberNext(n - 3, s3, e.crcType, i1, rest);
          if ReadUInt(s3).Got? {
            DataNext(n - 4, ReadUInt(s3).rest, e.data, items, rest);
          }
        }
      }
    }
  }

  /** The bytes of the first five elements of a block, as they are on the stream. */
  function Fields(s: bytes): bytes
    requires ReadTyped(ARRAY, s).Got? && DecodeAll(5, ReadTyped(ARRAY, s).rest).Got?
  {
    var body := ReadTyped(ARRAY, s).rest;
    body[..|body| - |DecodeAll(5, body).rest|]
  }

  function BlockElements(cb: Canonical, data: Blob): Element {
    Element(cb.TypeCode(), cb.number, cb.flags, cb.crcType, data)
  }

  /** The checksum of a known type and its width, which seals the fields. */
  predicate Checks(cs: Checksums, crcType: u64, fields: bytes, crc: Blob) {
    crcType <= CRC32 && |crc| == 2 * crcType && Sealed(cs, crcType, fields + ByteString(crc))
  }

  lemma ChecksIff(cs: Checksums, crcType: u64, fields: bytes, s: bytes, rest: bytes)
    ensures CheckCrc(cs, crcType, fields, s).Got? && CheckCrc(cs, crcType, fields, s).rest == rest <==>
              && ReadByteString(s).Got? && ReadByteString(s).rest == rest
              && Checks(cs, crcType, fields, ReadByteString(s).value)
  {
    hide ReadByteString, ByteString;
    if ReadByteString(s).Got? && 1 <= crcType <= CRC32 && |ReadByteString(s).value| == 2 * crcType {
      SealedIff(cs, crcType, fields, ReadByteString(s).value);
    }
  }

  /** The reader, by its parts. */
  lemma BlockParts(cs: Checksums, s: bytes, cb: Canonical, rest: bytes)
    ensures ReadCanonical(cs, s) == Got(cb, rest) <==>
              && ReadTyped(ARRAY, s).Got? && (ReadTyped(ARRAY, s).value == 5 || ReadTyped(ARRAY, s).value == 6)
              && var body := ReadTyped(ARRAY, s).rest;
              && var e := ReadElements(body);
              && e.Got? && e.value == BlockElements(cb, e.value.data)
              && ReadContent(e.value.code, e.value.data) == Some(cb.value)
              && (if ReadTyped(ARRAY, s).value == 5 then rest == e.rest
                  else
                    var checked := CheckCrc(cs, cb.crcType, [0x86] + body[..|body| - |e.rest|], e.rest);
                    checked.Got? && checked.rest == rest)
  {
    hide ReadTyped, ReadUInt, ReadByteString, ReadContent, CheckCrc, Head;
    SixElements();
    if ReadHeader(s).Got? {
      var h, at := ReadHeader(s).value, ReadHeader(s).rest;
      var data := ReadByteString(at);
      assert ReadElements(h.fields)
          == if data.Got? then Got(Element(h.code, h.number, h.flags, h.crcType, data.value), data.rest) else Fail(data.error);
      if data.Got? && ReadContent(h.code, data.value).Some? {
        assert h.Covered(data.rest) == [0x86] + h.fields[..|h.fields| - |data.rest|];
      }
    }
  }

  function CrcElement(crc: Option<Blob>): seq<Item> {
    if crc.Some? then [Data(crc.value)] else []
  }

  /**
    * The stream starts with the item of block `cb`: the five elements, the value among them as
    * `data`, and perhaps a checksum, which then has to be the one of the elements' bytes.
    */
  predicate IsBlock(cs: Checksums, s: bytes, cb: Canonical, rest: bytes, data: Blob, crc: Option<Blob>) {
    && Decode(s) == Got(List(BlockElements(cb, data).Items() + CrcElement(crc)), rest)
    && IsContent(cb.TypeCode(), data, cb.value)
    && (crc.Some? ==>
          && ReadTyped(ARRAY, s).Got? && DecodeAll(5, ReadTyped(ARRAY, s).rest).Got?
          && Checks(cs, cb.crcType, [0x86] + Fields(s), crc.value))
  }

  lemma FiveElements(s: bytes, e: Element)
    requires ReadElements(s).Got? && ReadElements(s).value == e
    ensures DecodeAll(5, s).Got? && DecodeAll(5, s).rest == ReadElements(s).rest
  {
    hide DecodeAll, ReadElements;
    ElementsRead(5, s, e, [], ReadElements(s).rest);
    NoItem(ReadElements(s).rest, ReadElements(s).rest);
  }

  lemma ChecksumNext(s: bytes, crc: Option<Blob>, rest: bytes)
    ensures DecodeAll(|CrcElement(crc)|, s) == Got(CrcElement(crc), rest) <==>
              if crc.None? then rest == s
              else ReadByteString(s).Got? && ReadByteString(s).value == crc.value && ReadByteString(s).rest == rest
  {
    hide DecodeAll, ReadByteString;
    if crc.Some? {
      DataNext(1, s, crc.value, [], rest);
      assert [Data(crc.value)] + [] == [Data(crc.value)];
      if ReadByteString(s).Got? { NoItem(ReadByteString(s).rest, rest); }
    } else {
      NoItem(s, rest);
    }
  }

  lemma ReadBlockDecodes(cs: Checksums, s: bytes, cb: Canonical, rest: bytes) returns (data: Blob, crc: Option<Blob>)
    requires ReadCanonical(cs, s) == Got(cb, rest)
    ensures IsBlock(cs, s, cb, rest, data, crc)
  {
    BlockParts(cs, s, cb, rest);
    hide ReadCanonical, ReadTyped, ReadElements, ReadContent, ReadByteString, CheckCrc, Decode, DecodeAll, IsContent, Checks;
    var len, body := ReadTyped(ARRAY, s).value, ReadTyped(ARRAY, s).rest;
    var e, behind := ReadElements(body).value, ReadElements(body).rest;
    data := e.data;
    ContentReadIff(e.code, data, cb.value);
    FiveElements(body, e);
    if len == 5 {
      crc := None;
    } else {
      ChecksIff(cs, cb.crcType, [0x86] + Fields(s), behind, rest);
      crc := Some(ReadByteString(behind).value);
    }
    ChecksumNext(behind, crc, rest);
    ElementsRead(len, body, e, CrcElement(crc), rest);
    ListRead(s, e.Items() + CrcElement(crc), rest);
  }

  lemma DecodedBlockIsRead(cs: Checksums, s: bytes, cb: Canonical, rest: bytes, data: Blob, crc: Option<Blob>)
    requires IsBlock(cs, s, cb, rest, data, crc)
    ensures ReadCanonical(cs, s) == Got(cb, rest)
  {
    hide ReadCanonical, ReadTyped, ReadElements, ReadContent, ReadByteString, CheckCrc, Decode, DecodeAll, IsContent, Checks;
    var e := BlockElements(cb, data);
    var items := e.Items() + CrcElement(crc);
    ListRead(s, items, rest);
    var body := ReadTyped(ARRAY, s).rest;
    ElementsRead(|items|, body, e, CrcElement(crc), rest);
    var behind := ReadElements(body).rest;
    FiveElements(body, e);
    ChecksumNext(behind, crc, rest);
    ContentReadIff(e.code, data, cb.value);
    if crc.Some? {
      ChecksIff(cs, cb.crcType, [0x86] + Fields(s), behind, rest);
    }
    BlockParts(cs, s, cb, rest);
  }

  /** The same, by the elements of the item. */
  predicate BlockAt(cs: Checksums, s: bytes, cb: Canonical) {
    && Decode(s).Got? && Decode(s).value.List?
    && var items := Decode(s).value.items;
    && (|items| == 5 || |items| == 6)
    && items[0] == Int(cb.TypeCode()) && items[1] == Int(cb.number)
    && items[2] == Int(cb.flags) && items[3] == Int(cb.crcType)
    && items[4].Data? && IsContent(cb.TypeCode(), items[4].data, cb.value)
    && (|items| == 6 ==>
          && items[5].Data? && ReadTyped(ARRAY, s).Got? && DecodeAll(5, ReadTyped(ARRAY, s).rest).Got?
          && Checks(cs, cb.crcType, [0x86] + Fields(s), items[5].data))
  }

  /** A block is read exactly where the stream decodes to its item, with the right checksum if there is one. */
  lemma BlockReadIff(cs: Checksums, s: bytes, cb: Canonical, rest: bytes)
    ensures ReadCanonical(cs, s) == Got(cb, rest) <==> BlockAt(cs, s, cb) && Decode(s).rest == rest
  {
    hide ReadCanonical, Decode, DecodeAll, IsContent, Checks, ReadTyped, Fields;
    if ReadCanonical(cs, s) == Got(cb, rest) {
      var data, crc := ReadBlockDecodes(cs, s, cb, rest);
    }
    if BlockAt(cs, s, cb) && Decode(s).rest == rest {
      var items := Decode(s).value.items;
      var crc := if |items| == 6 then Some(items[5].data) else None;
      assert items == BlockElements(cb, items[4].data).Items() + CrcElement(crc);
      DecodedBlockIsRead(cs, s, cb, rest, items[4].data, crc);
    }
  }

  // The primary block

  lemma {:induction false} DecodeAppend(a: nat, b: nat, s: bytes)
    ensures DecodeAll(a + b, s).Got? <==> DecodeAll(a, s).Got? && DecodeAll(b, DecodeAll(a, s).rest).Got?
    ensures DecodeAll(a + b, s).Got? ==>
              && DecodeAll(a + b, s).value == DecodeAll(a, s).value + DecodeAll(b, DecodeAll(a, s).rest).value
              && DecodeAll(a + b, s).rest == DecodeAll(b, DecodeAll(a, s).rest).rest
    decreases a
  {
    hide Decode;
    if a > 0 && Decode(s).Got? {
      DecodeAppend(a - 1, b, Decode(s).rest);
    }
  }

  lemma FragmentRead(len: u64, s: bytes, f: (u64, u64), rest: bytes)
    ensures ReadFragment(len, s) == Got(f, rest) <==>
              if len < 10 then f == (0, 0) && rest == s else DecodeAll(2, s) == Got([Int(f.0), Int(f.1)], rest)
  {
    hide DecodeAll, ReadUInt;
    NumbersRead(s, f.0, f.1, rest);
  }

  predicate AreEids(items: seq<Item>, e: (Eid, Eid, Eid)) {
    |items| == 3 && IsEid(items[0], e.0) && IsEid(items[1], e.1) && IsEid(items[2], e.2)
  }

  lemma ThreeItems(s: bytes, a: Item, b: Item, c: Item, rest: bytes)
    ensures DecodeAll(3, s) == Got([a, b, c], rest) <==>
              && Decode(s).Got? && Decode(s).value == a
              && Decode(Decode(s).rest).Got? && Decode(Decode(s).rest).value == b
              && Decode(Decode(Decode(s).rest).rest) == Got(c, rest)
  {
    hide Decode, DecodeAll;
    assert [a, b, c] == [a] + [b, c] && [b, c] == [b] + [c] && [c] == [c] + [];
    NextItem(3, s, a, [b, c], rest);
    if Decode(s).Got? {
      var s1 := Decode(s).rest;
      NextItem(2, s1, b, [c], rest);
      if Decode(s1).Got? {
        var s2 := Decode(s1).rest;
        NextItem(1, s2, c, [], rest);
        if Decode(s2).Got? { NoItem(Decode(s2).rest, rest); }
      }
    }
  }

  lemma ReadEidsDecode(s: bytes, e: (Eid, Eid, Eid), rest: bytes)
    requires ReadEids(s) == Got(e, rest)
    ensures DecodeAll(3, s).Got? && DecodeAll(3, s).rest == rest && AreEids(DecodeAll(3, s).value, e)
  {
    hide ReadEid, Decode, DecodeAll, IsEid;
    var s1 := ReadEid(s).rest;
    var s2 := ReadEid(s1).rest;
    EidReadIff(s, e.0, s1);
    EidReadIff(s1, e.1, s2);
    EidReadIff(s2, e.2, rest);
    ThreeItems(s, Decode(s).value, Decode(s1).value, Decode(s2).value, rest);
  }

  lemma DecodedEidsAreRead(s: bytes, e: (Eid, Eid, Eid), rest: bytes)
    requires DecodeAll(3, s).Got? && DecodeAll(3, s).rest == rest && AreEids(DecodeAll(3, s).value, e)
    ensures ReadEids(s) == Got(e, rest)
  {
    hide ReadEid, Decode, DecodeAll, IsEid;
    var items := DecodeAll(3, s).value;
    assert items == [items[0], items[1], items[2]];
    ThreeItems(s, items[0], items[1], items[2], rest);
    var s1 := Decode(s).rest;
    var s2 := Decode(s1).rest;
    EidReadIff(s, e.0, s1);
    EidReadIff(s1, e.1, s2);
    EidReadIff(s2, e.2, rest);
  }

  lemma TimesRead(s: bytes, t: (u64, u64, u64), rest: bytes)
    ensures ReadTimes(s) == Got(t, rest) <==> DecodeAll(2, s) == Got([List([Int(t.0), Int(t.1)]), Int(t.2)], rest)
  {
    hide ReadTyped, ReadUInt, Decode, DecodeAll;
    var pair := List([Int(t.0), Int(t.1)]);
    assert [pair, Int(t.2)] == [pair] + [Int(t.2)] && [Int(t.2)] == [Int(t.2)] + [];
    NextItem(2, s, pair, [Int(t.2)], rest);
    if Decode(s).Got? {
      LastNumber(Decode(s).rest, t.2, rest);
      PairOfNumbers(s, t.0, t.1, Decode(s).rest);
    }
    if ReadTimes(s).Got? {
      var at := ReadUInt(ReadUInt(ReadTyped(ARRAY, s).rest).rest).rest;
      PairOfNumbers(s, t.0, t.1, at);
      LastNumber(at, t.2, rest);
    }
  }

  lemma LastNumber(s: bytes, n: u64, rest: bytes)
    ensures DecodeAll(1, s) == Got([Int(n)], rest) <==> ReadUInt(s) == Got(n, rest)
  {
    hide ReadUInt, DecodeAll;
    assert [Int(n)] == [Int(n)] + [];
    NumberNext(1, s, n, [], rest);
    if ReadUInt(s).Got? { NoItem(ReadUInt(s).rest, rest); }
  }

  lemma FirstNumbers(s: bytes, a: u64, b: u64, c: u64, rest: bytes)
    ensures DecodeAll(3, s) == Got([Int(a), Int(b), Int(c)], rest) <==>
              && ReadUInt(s).Got? && ReadUInt(s).value == a
              && var second := ReadUInt(ReadUInt(s).rest);
              && second.Got? && second.value == b && ReadUInt(second.rest) == Got(c, rest)
  {
    hide DecodeAll, ReadUInt;
    assert [Int(a), Int(b), Int(c)] == [Int(a)] + [Int(b), Int(c)];
    NumberNext(3, s, a, [Int(b), Int(c)], rest);
    if ReadUInt(s).Got? { NumbersRead(ReadUInt(s).rest, b, c, rest); }
  }

  /** The elements of a primary block up to the checksum, in groups. */
  lemma Groups(n: nat, s: bytes)
    requires n == 8 || n == 10
    ensures DecodeAll(n, s).Got? <==>
              && DecodeAll(3, s).Got? && DecodeAll(3, DecodeAll(3, s).rest).Got?
              && DecodeAll(2, DecodeAll(3, DecodeAll(3, s).rest).rest).Got?
              && DecodeAll(n - 8, DecodeAll(2, DecodeAll(3, DecodeAll(3, s).rest).rest).rest).Got?
    ensures DecodeAll(n, s).Got? ==>
              var a := DecodeAll(3, s);
              var b := DecodeAll(3, a.rest);
              var c := DecodeAll(2, b.rest);
              var d := DecodeAll(n - 8, c.rest);
              var items := DecodeAll(n, s).value;
              && DecodeAll(n, s).rest == d.rest
              && items[..3] == a.value && items[3..6] == b.value && items[6..8] == c.value && items[8..] == d.value
  {
    hide DecodeAll;
    DecodeAppend(3, n - 3, s);
    if DecodeAll(3, s).Got? {
      var s1 := DecodeAll(3, s).rest;
      DecodeAppend(3, n - 6, s1);
      if DecodeAll(3, s1).Got? {
        DecodeAppend(2, n - 8, DecodeAll(3, s1).rest);
      }
    }
    if DecodeAll(n, s).Got? {
      var a := DecodeAll(3, s);
      var b := DecodeAll(3, a.rest);
      var c := DecodeAll(2, b.rest);
      var d := DecodeAll(n - 8, c.rest);
      assert DecodeAll(n, s).value == a.value + (b.value + (c.value + d.value));
    }
  }

  predicate FieldsAt(items: seq<Item>, p: PrimaryBlock) {
    && (|items| == 8 || |items| == 10) && p.version == 7
    && items[..3] == [Int(7), Int(p.flags), Int(p.crcType)]
    && AreEids(items[3..6], (p.destination, p.source, p.reportTo))
    && items[6..8] == [List([Int(p.time), Int(p.sequence)]), Int(p.lifetime)]
    && (if |items| == 8 then p.offset == p.total == 0 else items[8..] == [Int(p.offset), Int(p.total)])
  }

  lemma ReadFieldsDecode(len: u64, s: bytes, p: PrimaryBlock, rest: bytes)
    requires ReadFields(len, s) == Got(p, rest)
    ensures var n := if len < 10 then 8 else 10;
            DecodeAll(n, s).Got? && DecodeAll(n, s).rest == rest && FieldsAt(DecodeAll(n, s).value, p)
  {
    hide ReadUInt, ReadEids, ReadTimes, ReadFragment, DecodeAll, AreEids;
    var n := if len < 10 then 8 else 10;
    var s1 := ReadUInt(ReadUInt(ReadUInt(s).rest).rest).rest;
    var s2 := ReadEids(s1).rest;
    var s3 := ReadTimes(s2).rest;
    FirstNumbers(s, 7, p.flags, p.crcType, s1);
    ReadEidsDecode(s1, (p.destination, p.source, p.reportTo), s2);
    TimesRead(s2, (p.time, p.sequence, p.lifetime), s3);
    FragmentRead(len, s3, (p.offset, p.total), rest);
    NoItem(s3, s3);
    Groups(n, s);
  }

  lemma DecodedFieldsAreRead(len: u64, s: bytes, p: PrimaryBlock, rest: bytes)
    requires var n := if len < 10 then 8 else 10;
             DecodeAll(n, s).Got? && DecodeAll(n, s).rest == rest && FieldsAt(DecodeAll(n, s).value, p)
    ensures ReadFields(len, s) == Got(p, rest)
  {
    hide ReadUInt, ReadEids, ReadTimes, ReadFragment, DecodeAll, AreEids;
    var n := if len < 10 then 8 else 10;
    Groups(n, s);
    var s1 := DecodeAll(3, s).rest;
    var s2 := DecodeAll(3, s1).rest;
    var s3 := DecodeAll(2, s2).rest;
    FirstNumbers(s, 7, p.flags, p.crcType, s1);
    DecodedEidsAreRead(s1, (p.destination, p.source, p.reportTo), s2);
    TimesRead(s2, (p.time, p.sequence, p.lifetime), s3);
    NoItem(s3, rest);
    FragmentRead(len, s3, (p.offset, p.total), rest);
  }

  /** The bytes of a list up to behind its first `n` items, as they are on the stream. */
  function Consumed(s: bytes, n: nat): bytes
    requires ReadTyped(ARRAY, s).Got? && DecodeAll(n, ReadTyped(ARRAY, s).rest).Got?
  {
    s[..|s| - |DecodeAll(n, ReadTyped(ARRAY, s).rest).rest|]
  }

  /** The stream starts with the item of the primary block `p`, and with the right checksum if there is one. */
  predicate PrimaryAt(cs: Checksums, s: bytes, p: PrimaryBlock) {
    && Decode(s).Got? && Decode(s).value.List?
    && var items := Decode(s).value.items;
    && 8 <= |items| <= 11
    && var n := if |items| < 10 then 8 else 10;
    && FieldsAt(items[..n], p)
    && (n < |items| ==>
          && items[n].Data? && ReadTyped(ARRAY, s).Got? && DecodeAll(n, ReadTyped(ARRAY, s).rest).Got?
          && Checks(cs, p.crcType, Consumed(s, n), items[n].data))
  }

  /** The reader, by its parts. */
  lemma PrimaryParts(cs: Checksums, s: bytes, p: PrimaryBlock, rest: bytes)
    ensures ReadPrimary(cs, s) == Got(p, rest) <==>
              && ReadTyped(ARRAY, s).Got? && 8 <= ReadTyped(ARRAY, s).value <= 11
              && var len := ReadTyped(ARRAY, s).value;
              && var fields := ReadFields(len, ReadTyped(ARRAY, s).rest);
              && fields.Got? && fields.value == p
              && (if len == 8 || len == 10 then rest == fields.rest
                  else
                    var checked := CheckCrc(cs, p.crcType, s[..|s| - |fields.rest|], fields.rest);
                    checked.Got? && checked.rest == rest)
  {
    hide ReadTyped, ReadFields, CheckCrc;
  }

  /** A list of fields and perhaps a checksum. */
  lemma ListParts(s: bytes, n: nat, crc: Option<Blob>, rest: bytes)
    ensures (Decode(s).Got? && Decode(s).rest == rest && Decode(s).value.List?
             && |Decode(s).value.items| == n + |CrcElement(crc)| && Decode(s).value.items[n..] == CrcElement(crc))
            <==> (&& ReadTyped(ARRAY, s).Got? && ReadTyped(ARRAY, s).value == n + |CrcElement(crc)|
                  && var fields := DecodeAll(n, ReadTyped(ARRAY, s).rest);
                  && fields.Got?
                  && if crc.None? then rest == fields.rest
                     else ReadByteString(fields.rest).Got? && ReadByteString(fields.rest).value == crc.value
                          && ReadByteString(fields.rest).rest == rest)
    ensures Decode(s).Got? && Decode(s).value.List? && |Decode(s).value.items| >= n ==>
              && ReadTyped(ARRAY, s).Got? && DecodeAll(n, ReadTyped(ARRAY, s).rest).Got?
              && Decode(s).value.items[..n] == DecodeAll(n, ReadTyped(ARRAY, s).rest).value
  {
    hide Decode, DecodeAll, ReadTyped, ReadByteString;
    if Decode(s).Got? && Decode(s).value.List? {
      ListRead(s, Decode(s).value.items, Decode(s).rest);
      var body, len := ReadTyped(ARRAY, s).rest, |Decode(s).value.items|;
      if len >= n {
        DecodeAppend(n, len - n, body);
        if len == n + |CrcElement(crc)| { ChecksumNext(DecodeAll(n, body).rest, crc, rest); }
      }
    }
    if ReadTyped(ARRAY, s).Got? && ReadTyped(ARRAY, s).value == n + |CrcElement(crc)| {
      var body := ReadTyped(ARRAY, s).rest;
      DecodeAppend(n, |CrcElement(crc)|, body);
      if DecodeAll(n, body).Got? {
        ChecksumNext(DecodeAll(n, body).rest, crc, rest);
        ListRead(s, DecodeAll(n, body).value + CrcElement(crc), rest);
      }
    }
  }

  lemma ReadPrimaryDecodes(cs: Checksums, s: bytes, p: PrimaryBlock, rest: bytes)
    requires ReadPrimary(cs, s) == Got(p, rest)
    ensures PrimaryAt(cs, s, p) && Decode(s).rest == rest
  {
    PrimaryParts(cs, s, p, rest);
    hide ReadPrimary, ReadTyped, ReadFields, ReadByteString, CheckCrc, Decode, DecodeAll, FieldsAt, Checks;
    var len, body := ReadTyped(ARRAY, s).value, ReadTyped(ARRAY, s).rest;
    var n := if len < 10 then 8 else 10;
    ReadFieldsDecode(len, body, p, ReadFields(len, body).rest);
    var crc: Option<Blob> := None;
    if n < len {
      ChecksIff(cs, p.crcType, Consumed(s, n), ReadFields(len, body).rest, rest);
      crc := Some(ReadByteString(ReadFields(len, body).rest).value);
    }
    ListParts(s, n, crc, rest);
  }

  lemma DecodedPrimaryIsRead(cs: Checksums, s: bytes, p: PrimaryBlock, rest: bytes)
    requires PrimaryAt(cs, s, p) && Decode(s).rest == rest
    ensures ReadPrimary(cs, s) == Got(p, rest)
  {
    hide ReadPrimary, ReadTyped, ReadFields, ReadByteString, CheckCrc, Decode, DecodeAll, FieldsAt, Checks;
    var items := Decode(s).value.items;
    var n := if |items| < 10 then 8 else 10;
    var crc := if n < |items| then Some(items[n].data) else None;
    assert items[n..] == CrcElement(crc);
    ListParts(s, n, crc, rest);
    var body := ReadTyped(ARRAY, s).rest;
    DecodedFieldsAreRead(|items|, body, p, DecodeAll(n, body).rest);
    if n < |items| {
      ChecksIff(cs, p.crcType, Consumed(s, n), DecodeAll(n, body).rest, rest);
    }
    PrimaryParts(cs, s, p, rest);
  }

  /** A primary block is read exactly where the stream decodes to its item. */
  lemma PrimaryReadIff(cs: Checksums, s: bytes, p: PrimaryBlock, rest: bytes)
    ensures ReadPrimary(cs, s) == Got(p, rest) <==> PrimaryAt(cs, s, p) && Decode(s).rest == rest
  {
    hide ReadPrimary, Decode, FieldsAt, Checks, Consumed, DecodeAll;
    if ReadPrimary(cs, s) == Got(p, rest) { ReadPrimaryDecodes(cs, s, p, rest); }
    if PrimaryAt(cs, s, p) && Decode(s).rest == rest { DecodedPrimaryIsRead(cs, s, p, rest); }
  }
}
