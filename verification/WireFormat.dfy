/** The bytes of a bundle as CBOR data: sections 4.2.5.1, 4.2.6, 4.2.7 and 4.3 of RFC 9171. */
module WireFormat {
  import opened Bytes
  import opened Cbor
  import opened Endpoint
  import opened Block
  import opened Primary
  import opened Bundle
  import opened Sealing

  /** CBOR data items, as far as bundles are made of them. */
  datatype Item = Int(n: u64) | Data(data: Blob) | Text(text: Blob) | List(items: seq<Item>)

  /** The encoding of a data item (section 3 of RFC 8949). */
  function Encode(item: Item): (s: bytes)
    decreases item
  {
    match item
    case Int(n) => Head(0, n)
    case Data(data) => Head(2, |data|) + data
    case Text(text) => Head(3, |text|) + text
    case List(items) => Head(4, ToU64(|items|)) + EncodeAll(items)
  }

  function EncodeAll(items: seq<Item>): (s: bytes)
    decreases items
  {
    if items == [] then [] else Encode(items[0]) + EncodeAll(items[1..])
  }

  // The structure that the standard prescribes

  function EidItem(e: Eid): Item
    requires !e.Unset?
  {
    match e
    case DtnNone => List([Int(1), Int(0)])
    case Dtn(node, demux) => List([Int(1), Text([47, 47] + node + [47] + demux)])
    case Ipn(number, service) => List([Int(2), List([Int(number), Int(service)])])
  }

  function CrcItems(crcType: u64, crc: Blob): seq<Item> {
    if crcType == CRC_NO then [] else [Data(crc)]
  }

  /** A primary block with the checksum `crc`. */
  function PrimaryItem(p: PrimaryBlock, crc: Blob): Item
    requires !p.destination.Unset? && !p.source.Unset? && !p.reportTo.Unset?
  {
    List([Int(7), Int(p.flags), Int(p.crcType), EidItem(p.destination), EidItem(p.source), EidItem(p.reportTo),
          List([Int(p.time), Int(p.sequence)]), Int(p.lifetime)]
         + (if p.flags % 2 == 1 then [Int(p.offset), Int(p.total)] else []) + CrcItems(p.crcType, crc))
  }

  /** The block-type-specific data. */
  function ContentBytes(v: Value): (s: bytes)
    requires v.PreviousNode? ==> !v.eid.Unset?
  {
    match v
    case Payload(data) => data
    case PreviousNode(eid) => Encode(EidItem(eid))
    case BundleAge(age) => Encode(Int(age))
    case HopCount(limit, count) => Encode(List([Int(limit), Int(count)]))
    case RecType(kind) => Encode(List([Int(kind)]))
    case BinarySpray(copies) => Encode(Int(copies))
    case Generic(_, data) => data
  }

  /** A canonical block with the content `data` and the checksum `crc`. */
  function BlockItem(cb: Canonical, data: Blob, crc: Blob): Item {
    List([Int(cb.TypeCode()), Int(cb.number), Int(cb.flags), Int(cb.crcType), Data(data)] + CrcItems(cb.crcType, crc))
  }

  // The writers produce it

  lemma EncodeOne(x: Item)
    ensures EncodeAll([x]) == Encode(x)
  {
    assert [x][1..] == [];
    assert Encode(x) + [] == Encode(x);
  }

  lemma EncodeTwo(x: Item, y: Item)
    ensures EncodeAll([x, y]) == Encode(x) + Encode(y)
  {
    assert [x, y][1..] == [y];
    EncodeOne(y);
  }

  lemma {:induction false} EncodeConcat(xs: seq<Item>, ys: seq<Item>)
    ensures EncodeAll(xs + ys) == EncodeAll(xs) + EncodeAll(ys)
  {
    if xs == [] {
      assert xs + ys == ys;
    } else {
      assert (xs + ys)[1..] == xs[1..] + ys;
      EncodeConcat(xs[1..], ys);
    }
  }

  lemma EidFormat(e: Eid)
    requires !e.Unset?
    ensures EidBytes(e) == Encode(EidItem(e))
  {
    match e
    case DtnNone => EncodeTwo(Int(1), Int(0));
    case Dtn(node, demux) =>
      EncodeTwo(Int(1), Text([47, 47] + node + [47] + demux));
    case Ipn(number, service) =>
      EncodeTwo(Int(number), Int(service));
      EncodeTwo(Int(2), List([Int(number), Int(service)]));
  }

  lemma ContentFormat(v: Value)
    requires v.PreviousNode? ==> !v.eid.Unset?
    ensures v.Content() == ContentBytes(v)
  {
    hide Head;
    match v
    case PreviousNode(eid) => EidFormat(eid);
    case HopCount(limit, count) => EncodeTwo(Int(limit), Int(count));
    case RecType(kind) => EncodeOne(Int(kind));
    case _ =>
  }

  lemma CrcFormat(cs: Checksums, crcType: u64, body: bytes)
    requires crcType <= CRC32
    ensures CrcSuffix(cs, crcType, body) == EncodeAll(CrcItems(crcType, CrcField(cs, crcType, body)))
  {
    hide CrcField, Head;
    if crcType != CRC_NO {
      EncodeOne(Data(CrcField(cs, crcType, body)));
    }
  }

  lemma FiveItems(a: Item, b: Item, c: Item, d: Item, e: Item)
    ensures EncodeAll([a, b, c, d, e]) == Encode(a) + (Encode(b) + (Encode(c) + (Encode(d) + Encode(e))))
  {
    hide EncodeAll, Encode;
    EncodeTwo(d, e);
    EncodeCons(c, [d, e]);
    EncodeCons(b, [c, d, e]);
    EncodeCons(a, [b, c, d, e]);
    assert [c] + [d, e] == [c, d, e] && [b] + [c, d, e] == [b, c, d, e] && [a] + [b, c, d, e] == [a, b, c, d, e];
  }

  lemma EncodeCons(x: Item, xs: seq<Item>)
    ensures EncodeAll([x] + xs) == Encode(x) + EncodeAll(xs)
  {
    assert ([x] + xs)[1..] == xs;
  }

  /** A written canonical block is the item that the standard prescribes, sealed by its checksum. */
  lemma BlockFormat(cs: Checksums, cb: Canonical) returns (data: Blob, crc: Blob)
    requires cb.Writable()
    ensures data == ContentBytes(cb.value)
    ensures |crc| == 2 * cb.crcType && CanonicalBytes(cs, cb) == Encode(BlockItem(cb, data, crc))
    ensures Sealed(cs, cb.crcType, Encode(BlockItem(cb, data, crc)))
  {
    assert cb.value.PreviousNode? ==> !cb.value.eid.Unset?;
    hide Head, CrcField, Sealed, Value.Content, ContentBytes, Value.Valid;
    var body := CanonicalBody(cb);
    data, crc := cb.value.Content(), CrcField(cs, cb.crcType, body);
    ContentFormat(cb.value);
    CrcFormat(cs, cb.crcType, body);
    var fields := [Int(cb.TypeCode()), Int(cb.number), Int(cb.flags), Int(cb.crcType), Data(data)];
    var crcs := CrcItems(cb.crcType, crc);
    EncodeConcat(fields, crcs);
    FiveItems(Int(cb.TypeCode()), Int(cb.number), Int(cb.flags), Int(cb.crcType), Data(data));
    var head := Head(ARRAY, if cb.crcType == CRC_NO then 5 else 6);
    assert |fields + crcs| == if cb.crcType == CRC_NO then 5 else 6;
    Assoc(head, EncodeAll(fields), EncodeAll(crcs));
    WrittenBlockIsSealed(cs, cb);
  }

  lemma EidsFormat(p: PrimaryBlock)
    requires !p.destination.Unset? && !p.source.Unset? && !p.reportTo.Unset?
    ensures EncodeAll([EidItem(p.destination), EidItem(p.source), EidItem(p.reportTo)]) == EidsBytes(p)
  {
    hide EidBytes, EidItem;
    EidFormat(p.destination);
    EidFormat(p.source);
    EidFormat(p.reportTo);
    var d, s, r := EidItem(p.destination), EidItem(p.source), EidItem(p.reportTo);
    assert [d, s, r][1..] == [s, r];
    EncodeTwo(s, r);
  }

  lemma TimesFormat(p: PrimaryBlock)
    ensures EncodeAll([List([Int(p.time), Int(p.sequence)]), Int(p.lifetime)]) == TimesBytes(p)
  {
    hide Head;
    EncodeTwo(Int(p.time), Int(p.sequence));
    EncodeTwo(List([Int(p.time), Int(p.sequence)]), Int(p.lifetime));
    Assoc(Head(ARRAY, 2), UInt(p.time) + UInt(p.sequence), UInt(p.lifetime));
    Assoc(UInt(p.time), UInt(p.sequence), UInt(p.lifetime));
  }

  lemma FragmentFormat(p: PrimaryBlock)
    ensures EncodeAll(if p.flags % 2 == 1 then [Int(p.offset), Int(p.total)] else []) == FragmentBytes(p)
  {
    hide Head;
    EncodeTwo(Int(p.offset), Int(p.total));
  }

  lemma StartFormat(p: PrimaryBlock)
    ensures EncodeAll([Int(7), Int(p.flags), Int(p.crcType)]) == UInt(VERSION) + (UInt(p.flags) + UInt(p.crcType))
  {
    hide Head;
    var a, b, c := Int(7), Int(p.flags), Int(p.crcType);
    assert [a, b, c][1..] == [b, c];
    EncodeTwo(b, c);
  }

  /** The items of a primary block in front of its checksum. */
  function PrimaryFields(p: PrimaryBlock): (r: seq<Item>)
    requires !p.destination.Unset? && !p.source.Unset? && !p.reportTo.Unset?
    ensures |r| == 8 + if p.flags % 2 == 1 then 2 else 0
  {
    [Int(7), Int(p.flags), Int(p.crcType), EidItem(p.destination), EidItem(p.source), EidItem(p.reportTo),
     List([Int(p.time), Int(p.sequence)]), Int(p.lifetime)]
    + if p.flags % 2 == 1 then [Int(p.offset), Int(p.total)] else []
  }

  lemma JoinFields(v: bytes, f: bytes, c: bytes, rest: bytes)
    ensures (v + (f + c)) + rest == v + (f + (c + rest))
  {
  }

  lemma FieldsFormat(p: PrimaryBlock)
    requires !p.destination.Unset? && !p.source.Unset? && !p.reportTo.Unset?
    ensures PrimaryBody(p) == Head(ARRAY, p.Length()) + EncodeAll(PrimaryFields(p))
  {
    hide Head, EidsBytes, TimesBytes, FragmentBytes, EidItem, EncodeAll, Encode;
    var start := [Int(7), Int(p.flags), Int(p.crcType)];
    var eids := [EidItem(p.destination), EidItem(p.source), EidItem(p.reportTo)];
    var times := [List([Int(p.time), Int(p.sequence)]), Int(p.lifetime)];
    var frag := if p.flags % 2 == 1 then [Int(p.offset), Int(p.total)] else [];
    StartFormat(p);
    EidsFormat(p);
    TimesFormat(p);
    FragmentFormat(p);
    EncodeConcat(times, frag);
    EncodeConcat(eids, times + frag);
    EncodeConcat(start, eids + (times + frag));
    assert PrimaryFields(p) == start + (eids + (times + frag));
    JoinFields(UInt(VERSION), UInt(p.flags), UInt(p.crcType), EidsBytes(p) + (TimesBytes(p) + FragmentBytes(p)));
  }

  lemma PrimaryLength(p: PrimaryBlock, crc: Blob)
    requires p.crcType <= CRC32 && !p.destination.Unset? && !p.source.Unset? && !p.reportTo.Unset?
    ensures PrimaryItem(p, crc) == List(PrimaryFields(p) + CrcItems(p.crcType, crc))
    ensures |PrimaryFields(p) + CrcItems(p.crcType, crc)| == p.Length()
  {
  }

  lemma ListFormat(items: seq<Item>)
    requires |items| < U64_LIMIT
    ensures Encode(List(items)) == Head(ARRAY, |items|) + EncodeAll(items)
  {
    hide Head, ToU64;
  }

  /** A written primary block is the item that the standard prescribes, sealed by its checksum. */
  lemma PrimaryFormat(cs: Checksums, p: PrimaryBlock) returns (crc: Blob)
    requires p.crcType <= CRC32 && !p.destination.Unset? && !p.source.Unset? && !p.reportTo.Unset?
    ensures |crc| == 2 * p.crcType && PrimaryBytes(cs, p) == Encode(PrimaryItem(p, crc))
    ensures Sealed(cs, p.crcType, Encode(PrimaryItem(p, crc)))
  {
    hide Head, CrcField, Sealed, PrimaryBody, PrimaryFields, CrcItems, PrimaryItem, EncodeAll, CrcSuffix, PrimaryBlock.Length;
    crc := CrcField(cs, p.crcType, PrimaryBody(p));
    var crcs := CrcItems(p.crcType, crc);
    FieldsFormat(p);
    CrcFormat(cs, p.crcType, PrimaryBody(p));
    PrimaryLength(p, crc);
    ListFormat(PrimaryFields(p) + crcs);
    hide Encode, EidItem, EidValid;
    EncodeConcat(PrimaryFields(p), crcs);
    Assoc(Head(ARRAY, p.Length()), EncodeAll(PrimaryFields(p)), EncodeAll(crcs));
    WrittenPrimaryIsSealed(cs, p);
  }

  /** Each block of `exts` is written as the item that the standard prescribes. */
  ghost predicate Formats(cs: Checksums, exts: seq<Canonical>, items: seq<Item>) {
    |items| == |exts| && forall i :: 0 <= i < |exts| ==> IsItemOf(cs, exts[i], items[i])
  }

  ghost predicate IsItemOf(cs: Checksums, cb: Canonical, item: Item) {
    && (cb.value.PreviousNode? ==> !cb.value.eid.Unset?)
    && exists data: Blob, crc: Blob :: data == ContentBytes(cb.value) && |crc| == 2 * cb.crcType
                                       && item == BlockItem(cb, data, crc) && Sealed(cs, cb.crcType, Encode(item))
  }

  lemma BlockIsItem(cs: Checksums, cb: Canonical) returns (item: Item)
    requires cb.Writable()
    ensures IsItemOf(cs, cb, item) && CanonicalBytes(cs, cb) == Encode(item)
  {
    var data, crc := BlockFormat(cs, cb);
    item := BlockItem(cb, data, crc);
    hide Sealed, ContentBytes, CanonicalBytes, BlockItem, Encode;
  }

  lemma {:induction false} BlocksFormat(cs: Checksums, exts: seq<Canonical>) returns (items: seq<Item>)
    requires AllWritable(exts)
    ensures Formats(cs, exts, items) && BlocksBytes(cs, exts) == EncodeAll(items)
  {
    hide IsItemOf, Encode, CanonicalBytes;
    if exts == [] {
      items := [];
    } else {
      var first := BlockIsItem(cs, exts[0]);
      var more := BlocksFormat(cs, exts[1..]);
      items := [first] + more;
      EncodeCons(first, more);
      forall i | 0 <= i < |exts| ensures IsItemOf(cs, exts[i], items[i]) {
        if i > 0 { assert exts[i] == exts[1..][i - 1]; }
      }
    }
  }

  /**
    * A written bundle is an indefinite-length array of its primary block, its extension blocks and
    * its payload block, each in the prescribed form.
    */
  lemma BundleFormat(cs: Checksums, b: Bundle) returns (crc: Blob, exts: seq<Item>, payload: Item)
    requires Writable(b)
    ensures !b.primary.destination.Unset? && !b.primary.source.Unset? && !b.primary.reportTo.Unset?
    ensures |crc| == 2 * b.primary.crcType && Sealed(cs, b.primary.crcType, Encode(PrimaryItem(b.primary, crc)))
    ensures Formats(cs, b.exts, exts) && IsItemOf(cs, b.payload, payload)
    ensures BundleBytes(cs, b)
            == [0x9F] + (Encode(PrimaryItem(b.primary, crc)) + (EncodeAll(exts) + (Encode(payload) + [0xFF])))
  {
    hide Sealed, PrimaryItem, Encode, EncodeAll, IsItemOf, Formats, PrimaryBytes, BlocksBytes, CanonicalBytes;
    crc := PrimaryFormat(cs, b.primary);
    exts := BlocksFormat(cs, b.exts);
    payload := BlockIsItem(cs, b.payload);
  }

  // Heads

  /** No head with the same meaning is shorter than the one that is written. */
  lemma ShortestHead(s: bytes)
    requires ReadHead(s).Got?
    ensures ReadHead(s).value.0 < 7 ==>
              |Head(ReadHead(s).value.0, ReadHead(s).value.1)| <= |s| - |ReadHead(s).rest|
  {
    assert Pow256(1) == 256 && Pow256(2) == 0x1_0000 && Pow256(4) == 0x1_0000_0000;
    hide BigEndian, FromBigEndian;
  }

  /** Heads from appendix A of RFC 8949. */
  lemma StandardHeads()
    ensures Head(UINT, 10) == [0x0A] && Head(UINT, 100) == [0x18, 0x64] && Head(UINT, 1000) == [0x19, 0x03, 0xE8]
    ensures Head(UINT, 1000000) == [0x1A, 0x00, 0x0F, 0x42, 0x40]
    ensures Head(BYTE_STRING, 4) == [0x44] && Head(TEXT_STRING, 4) == [0x64] && Head(ARRAY, 25) == [0x98, 0x19]
  {
    hide BigEndian;
    BigEndianOne(100);
    BigEndianOne(25);
    BigEndianTwo(1000);
    BigEndianFour(1000000);
  }

  lemma BigEndianOne(n: nat)
    requires n < 256
    ensures BigEndian(n, 1) == [n]
  {
    assert BigEndian(n / 256, 0) == [];
  }

  lemma BigEndianTwo(n: nat)
    requires n < 0x1_0000
    ensures BigEndian(n, 2) == [n / 256, n % 256]
  {
    BigEndianOne(n / 256);
  }

  lemma BigEndianFour(n: nat)
    requires n < 0x1_0000_0000
    ensures BigEndian(n, 4) == [n / 0x100_0000, n / 0x1_0000 % 256, n / 256 % 256, n % 256]
  {
    BigEndianTwo(n / 0x1_0000);
    assert n / 256 / 256 == n / 0x1_0000 && n / 0x1_0000 / 256 == n / 0x100_0000;
    assert BigEndian(n / 256, 3) == BigEndian(n / 0x1_0000, 2) + [n / 256 % 256];
  }
}
