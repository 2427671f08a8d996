/** The skipping parser on streams that the full parser does not accept. */
module Skipping {
  import opened Bytes
  import opened Cbor
  import opened Endpoint
  import opened Block
  import opened Primary
  import opened WireFormat
  import opened PartialParse
  import opened Decoding
  import opened Validity

  lemma NeverTaken(seek: bool, h: Header, s: bytes)
    requires 5 <= h.len <= 6
    ensures SkipBlock(seek, h, s).Seen? ==> !SkipBlock(seek, h, s).wanted
  {
    hide ReadTyped, ReadByteString, Skip;
  }

  /** A wanted block is read exactly where the full reader reads it. */
  lemma WantedReadIff(seek: bool, cs: Checksums, s: bytes, wanted: seq<u64>, cb: Canonical, rest: bytes)
    ensures ReadWanted(seek, cs, s, wanted) == Seen(true, cb, rest) <==>
              BlockAt(cs, s, cb) && Decode(s).rest == rest && cb.TypeCode() in wanted
  {
    hide ReadHeader, ReadValue, ReadCrc, SkipBlock, Decode, BlockAt;
    BlockReadIff(cs, s, cb, rest);
    var h := ReadHeader(s);
    if h.Got? {
      NeverTaken(seek, h.value, h.rest);
      var v := ReadValue(h.value.code, h.rest);
      assert v.Got? ==> h.value.Block(v.value).TypeCode() == h.value.code;
    }
  }

  /** Any other block is stepped over, whatever its value and its checksum are. */
  lemma OthersAreSkipped(seek: bool, cs: Checksums, s: bytes, wanted: seq<u64>, e: Element, crc: Option<Blob>, rest: bytes)
    requires Decode(s) == Got(List(e.Items() + CrcElement(crc)), rest) && e.code !in wanted
    ensures ReadWanted(seek, cs, s, wanted) == Seen(false, Canonical(e.number, e.flags, e.crcType, Generic(e.code, [])), rest)
  {
    hide ReadTyped, ReadUInt, ReadByteString, Decode, DecodeAll, LateFailure;
    var items := e.Items() + CrcElement(crc);
    ListRead(s, items, rest);
    var body := ReadTyped(ARRAY, s).rest;
    ElementsRead(|items|, body, e, CrcElement(crc), rest);
    ChecksumNext(ReadElements(body).rest, crc, rest);
    var h := ReadHeader(s);
    assert h.Got? && h.value == Header(|items|, e.code, e.number, e.flags, e.crcType, body);
    SkipIsRead(seek, h.rest);
  }

  lemma SkipIsRead(seek: bool, s: bytes)
    requires ReadByteString(s).Got?
    ensures ReadTyped(BYTE_STRING, s).Got?
    ensures Skip(seek, ReadTyped(BYTE_STRING, s).value, ReadTyped(BYTE_STRING, s).rest) == Some(ReadByteString(s).rest)
  {
    hide ReadTyped;
  }

  /** A payload that is cut off goes unnoticed by a seekable reader, and makes any other one panic. */
  lemma CutOffPayload(cs: Checksums, s: bytes, wanted: seq<u64>, exts: seq<Canonical>)
    requires ReadHeader(s).Got? && ReadHeader(s).value.code == PAYLOAD && PAYLOAD !in wanted
    requires var data := ReadTyped(BYTE_STRING, ReadHeader(s).rest);
             data.Got? && |data.rest| < data.value < I64_LIMIT
    ensures CollectWanted(true, cs, s, wanted, exts) == Ok(exts)
    ensures CollectWanted(false, cs, s, wanted, exts) == Err(Panic)
  {
    hide ReadHeader, ReadTyped;
    var h := ReadHeader(s).value;
    assert ReadByteString([]).Fail? && !ReadByteString([]).error.Break? by { NothingToRead(); }
    assert h.Block(Generic(PAYLOAD, [])).TypeCode() == PAYLOAD;
  }

  lemma NothingToRead()
    ensures ReadByteString([]) == Fail(Malformed)
  {
  }

  lemma {:induction false} CollectedAreWanted(seek: bool, cs: Checksums, s: bytes, wanted: seq<u64>, exts: seq<Canonical>)
    requires CollectWanted(seek, cs, s, wanted, exts).Ok?
    ensures var r := CollectWanted(seek, cs, s, wanted, exts).value;
            exts <= r && forall i :: |exts| <= i < |r| ==> r[i].TypeCode() in wanted && r[i].value.Wire()
    decreases |s|
  {
    hide ReadHeader, ReadValue, ReadCrc, SkipBlock, IndexOf;
    match ReadWanted(seek, cs, s, wanted)
    case Seen(take, cb, rest) =>
      if cb.TypeCode() != PAYLOAD {
        if take && cb.TypeCode() in wanted {
          TakenIsWire(seek, cs, s, wanted);
          var left := Without(wanted, cb.TypeCode());
          if left != [] {
            CollectedAreWanted(seek, cs, rest, left, exts + [cb]);
          }
        } else {
          CollectedAreWanted(seek, cs, rest, wanted, exts);
        }
      }
    case _ =>
  }

  lemma TakenIsWire(seek: bool, cs: Checksums, s: bytes, wanted: seq<u64>)
    requires ReadWanted(seek, cs, s, wanted).Seen? && ReadWanted(seek, cs, s, wanted).wanted
    ensures ReadWanted(seek, cs, s, wanted).block.value.Wire()
  {
    hide ReadCrc, SkipBlock, ReadTyped, ReadContent;
    var h := ReadHeader(s);
    NeverTaken(seek, h.value, h.rest);
  }

  /** On every stream the skipping parser returns a primary block and blocks of wanted types that keep their rules. */
  lemma PartialIsSound(seek: bool, cs: Checksums, s: bytes, wanted: seq<u64>)
    requires ParsePartial(seek, cs, s, wanted).Ok?
    ensures var r := ParsePartial(seek, cs, s, wanted).value;
            && PrimaryRules(r.primary)
            && forall i :: 0 <= i < |r.exts| ==>
                 && r.exts[i].TypeCode() in wanted
                 && (r.exts[i].value.HopCount? ==> r.exts[i].value.count <= r.exts[i].value.limit)
                 && (r.exts[i].value.PreviousNode? ==> NoZeroes(r.exts[i].value.eid))
  {
    hide ReadPrimary, CollectWanted, PrimaryRules, PrimaryBlock.Valid, NoZeroes, EidWire;
    var p := ReadPrimary(cs, s[1..]);
    CollectedAreWanted(seek, cs, p.rest, wanted, []);
    PrimaryValidIff(p.value);
    var r := ParsePartial(seek, cs, s, wanted).value;
    forall i | 0 <= i < |r.exts|
      ensures r.exts[i].value.HopCount? ==> r.exts[i].value.count <= r.exts[i].value.limit
      ensures r.exts[i].value.PreviousNode? ==> NoZeroes(r.exts[i].value.eid)
    {
      ValueRules(r.exts[i].value);
    }
  }
}
