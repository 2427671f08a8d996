/** Cutting a bundle into fragments that fit an MTU (section 5.8 of RFC 9171). */
module Fragmentation {
  import opened Bytes
  import opened Cbor
  import opened Endpoint
  import opened Block
  import opened Primary
  import opened Bundle
  import opened Numbering

  function SetFragment(flags: u64): u64 {
    if Has(flags, IS_FRAGMENT) then flags else flags + 1
  }

  function FragmentPrimary(p: PrimaryBlock, offset: u64, total: u64): PrimaryBlock {
    p.(flags := SetFragment(p.flags), offset := offset, total := total)
  }

  function Replicated(exts: seq<Canonical>): (r: seq<Canonical>)
    ensures |r| <= |exts|
  {
    if exts == [] then []
    else
      var n := |exts| - 1;
      Replicated(exts[..n]) + if Has(exts[n].flags, REPLICATE_BLOCK) then [exts[n]] else []
  }

  /** The extension blocks that a fragment at offset `i` carries. */
  function Carried(exts: seq<Canonical>, i: nat): (r: seq<Canonical>)
    ensures |r| <= |exts|
  {
    if i == 0 then exts else Replicated(exts)
  }

  // Estimated overhead

  /** The block that is measured in place of an extension block: always with the wider checksum. */
  function Measured(cb: Canonical): Canonical {
    if cb.TypeCode() == PAYLOAD then Canonical(cb.number, cb.flags, CRC32, Payload([])) else cb.(crcType := CRC32)
  }

  /** The length of a byte string head for as many bytes as the MTU, less the byte already counted. */
  function MtuHead(mtu: i64): int {
    HeadLen(mtu % U64_LIMIT) - 1
  }

  /** Estimated size of all extension blocks, for the first fragment. */
  function FirstEstimate(exts: seq<Canonical>, mtu: i64): int {
    if exts == [] then 0
    else
      var n := |exts| - 1;
      FirstEstimate(exts[..n], mtu) + CanonicalSize(Measured(exts[n]))
      + if exts[n].TypeCode() == PAYLOAD then MtuHead(mtu) else 0
  }

  /** Estimated size of the replicated extension blocks, for the other fragments. */
  function OtherEstimate(exts: seq<Canonical>, mtu: i64): int {
    if exts == [] then 0
    else
      var n := |exts| - 1;
      OtherEstimate(exts[..n], mtu)
      + (if Has(exts[n].flags, REPLICATE_BLOCK) then CanonicalSize(Measured(exts[n])) else 0)
      + if exts[n].TypeCode() == PAYLOAD then CanonicalSize(Measured(exts[n])) + MtuHead(mtu) else 0
  }

  function PayloadEstimate(b: Bundle, mtu: i64): int {
    CanonicalSize(Canonical(1, b.payload.flags, CRC32, Payload([]))) + MtuHead(mtu)
  }

  predicate Measurable(exts: seq<Canonical>) {
    forall i :: 0 <= i < |exts| ==> Measured(exts[i]).Writable()
  }

  /** Measures the extension blocks for the first and for the other fragments. */
  method EstimateExtensionBlocks(cs: Checksums, b: Bundle, mtu: i64) returns (r: Result<(int, int)>)
    ensures r == if Measurable(b.exts)
                 then Ok((FirstEstimate(b.exts, mtu) + PayloadEstimate(b, mtu), OtherEstimate(b.exts, mtu) + PayloadEstimate(b, mtu)))
                 else Err(Malformed)
  {
    hide CanonicalBytes, EidValid, CanonicalSize, Has, Head, HeadLen;
    var first, others := 0, 0;
    for i := 0 to |b.exts|
      invariant Measurable(b.exts[..i])
      invariant first == FirstEstimate(b.exts[..i], mtu)
      invariant others == OtherEstimate(b.exts[..i], mtu)
    {
      var eb := Measured(b.exts[i]);
      assert b.exts[..i + 1][..i] == b.exts[..i];
      if !eb.Writable() { return Err(Malformed); }
      var cbLen := |CanonicalBytes(cs, eb)|;
      first := first + cbLen;
      if Has(eb.flags, REPLICATE_BLOCK) {
        others := others + cbLen;
      }
      if eb.TypeCode() == PAYLOAD {
        var head := |Head(BYTE_STRING, mtu % U64_LIMIT)|;
        first := first + head - 1;
        others := others + cbLen + head - 1;
      }
    }
    assert b.exts[..|b.exts|] == b.exts;
    var cbLen := |CanonicalBytes(cs, Canonical(1, b.payload.flags, CRC32, Payload([])))|;
    var head := |Head(BYTE_STRING, mtu % U64_LIMIT)|;
    return Ok((first + cbLen + head - 1, others + cbLen + head - 1));
  }

  // The fragments

  function Overhead(cs: Checksums, b: Bundle, mtu: i64, i: nat, p: PrimaryBlock): int
    requires p.crcType <= CRC32
  {
    2 + |PrimaryBytes(cs, p)| + PayloadEstimate(b, mtu) + if i == 0 then FirstEstimate(b.exts, mtu) else OtherEstimate(b.exts, mtu)
  }

  /** The fragment carrying payload bytes `i` to `end`. */
  function Piece(b: Bundle, i: nat, end: nat): (f: Bundle)
    requires b.payload.value.Payload? && i <= end <= |b.payload.value.data| && |b.exts| <= MAX_LEN
  {
    var data := b.payload.value.data;
    Bundle(FragmentPrimary(b.primary, i, |data|), AddAll(Carried(b.exts, i)),
           Canonical(1, b.payload.flags, b.payload.crcType, Payload(data[i..end])))
  }

  /** One round of the fragmentation loop: the fragment at offset `i`, and the next offset. */
  function NextPiece(cs: Checksums, b: Bundle, mtu: i64, now: int, i: nat): (r: Result<(Bundle, nat)>)
    requires b.payload.value.Payload? && |b.exts| <= MAX_LEN && i < |b.payload.value.data|
    ensures r.Ok? ==> r.value.1 > i
    ensures r.Err? ==> r.error == Malformed
  {
    var size := |b.payload.value.data|;
    var p := FragmentPrimary(b.primary, i, size);
    if !p.Writable() then Err(Malformed)
    else
      var room := mtu - Overhead(cs, b, mtu, i, p);
      if room <= 0 then Err(Malformed)
      else
        var piece := Piece(b, i, if i + room <= size then i + room else size);
        if BundleValid(piece, now) then Ok((piece, i + room)) else Err(Malformed)
  }

  function FragmentFrom(cs: Checksums, b: Bundle, mtu: i64, now: int, i: nat): (r: Result<seq<Bundle>>)
    requires b.payload.value.Payload? && |b.exts| <= MAX_LEN
    ensures r.Err? ==> r.error == Malformed
    decreases |b.payload.value.data| - i
  {
    if i >= |b.payload.value.data| then Ok([])
    else
      var next :- NextPiece(cs, b, mtu, now, i);
      var more :- FragmentFrom(cs, b, mtu, now, next.1);
      Ok([next.0] + more)
  }

  /** Fragments of a bundle. A bundle that fits in one piece is returned unchanged. */
  function Fragment(cs: Checksums, b: Bundle, mtu: i64, now: int): (r: Result<seq<Bundle>>)
    requires b.payload.value.Payload? && |b.exts| <= MAX_LEN
  {
    if Has(b.primary.flags, MUST_NOT_FRAGMENT) || !Measurable(b.exts) then Err(Malformed)
    else
      var pieces :- FragmentFrom(cs, b, mtu, now, 0);
      Ok(if |pieces| == 1 then [b] else pieces)
  }

  function Prepend(done: seq<Bundle>, r: Result<seq<Bundle>>): Result<seq<Bundle>> {
    if r.Ok? then Ok(done + r.value) else r
  }

  lemma CarriedAppend(exts: seq<Canonical>, k: nat, i: nat)
    requires k < |exts|
    ensures Carried(exts[..k + 1], i)
            == Carried(exts[..k], i) + if i == 0 || Has(exts[k].flags, REPLICATE_BLOCK) then [exts[k]] else []
  {
    hide Has;
    assert exts[..k + 1][..k] == exts[..k];
    assert exts[..k + 1] == exts[..k] + [exts[k]];
  }

  /** Copies the carried blocks of a bundle into a new fragment. */
  method CopyBlocks(b: Bundle, i: nat) returns (exts: seq<Canonical>)
    requires |b.exts| <= MAX_LEN
    ensures exts == AddAll(Carried(b.exts, i))
  {
    hide Add, AddAll, Has, Carried;
    var frag := new BundleObject(b.(exts := []));
    NothingCarried(i);
    assert b.exts[..0] == [];
    for k := 0 to |b.exts|
      invariant frag.exts == AddAll(Carried(b.exts[..k], i))
    {
      CarriedAppend(b.exts, k, i);
      ghost var carried := Carried(b.exts[..k], i);
      if !(i > 0 && !Has(b.exts[k].flags, REPLICATE_BLOCK)) {
        AddAllAppend(carried, b.exts[k]);
        frag.AddExtensionBlock(b.exts[k]);
      } else {
        assert carried + [] == carried;
      }
    }
    assert b.exts[..|b.exts|] == b.exts;
    exts := frag.exts;
  }

  lemma NothingCarried(i: nat)
    ensures Carried([], i) == [] && AddAll([]) == []
  {
  }

  method CutPiece(cs: Checksums, b: Bundle, mtu: i64, now: int, i: nat, first: int, others: int)
    returns (r: Result<(Bundle, nat)>)
    requires b.payload.value.Payload? && |b.exts| <= MAX_LEN && i < |b.payload.value.data|
    requires first == FirstEstimate(b.exts, mtu) + PayloadEstimate(b, mtu)
    requires others == OtherEstimate(b.exts, mtu) + PayloadEstimate(b, mtu)
    ensures r == NextPiece(cs, b, mtu, now, i)
  {
    hide BundleValid, PrimaryBytes, PayloadEstimate, FirstEstimate, OtherEstimate, EidValid, AddAll, Carried;
    var size := |b.payload.value.data|;
    var p := FragmentPrimary(b.primary, i, size);
    if !p.Writable() { return Err(Malformed); }
    var overhead := 2 + |PrimaryBytes(cs, p)|;
    if i == 0 {
      overhead := overhead + first;
    } else {
      overhead := overhead + others;
    }
    if overhead >= mtu { return Err(Malformed); }
    var exts := CopyBlocks(b, i);
    var room := mtu - overhead;
    var end := if i + room <= size then i + room else size;
    var frag := Bundle(p, exts, Canonical(1, b.payload.flags, b.payload.crcType, Payload(b.payload.value.data[i..end])));
    if !BundleValid(frag, now) { return Err(Malformed); }
    return Ok((frag, i + room));
  }

  method FragmentBundle(cs: Checksums, b: Bundle, mtu: i64, now: int) returns (r: Result<seq<Bundle>>)
    requires b.payload.value.Payload? && |b.exts| <= MAX_LEN
    ensures r == Fragment(cs, b, mtu, now)
  {
    hide NextPiece, PayloadEstimate, FirstEstimate, OtherEstimate, Measurable;
    if Has(b.primary.flags, MUST_NOT_FRAGMENT) { return Err(Malformed); }
    var estimates := EstimateExtensionBlocks(cs, b, mtu);
    if estimates.Err? { return Err(Malformed); }
    var bs: seq<Bundle>, i := [], 0;
    ghost var goal := FragmentFrom(cs, b, mtu, now, 0);
    assert goal.Ok? ==> [] + goal.value == goal.value;
    while i < |b.payload.value.data|
      invariant i >= 0 && goal == Prepend(bs, FragmentFrom(cs, b, mtu, now, i))
      decreases |b.payload.value.data| - i
    {
      var next := CutPiece(cs, b, mtu, now, i, estimates.value.0, estimates.value.1);
      if next.Err? { return Err(Malformed); }
      ghost var more := FragmentFrom(cs, b, mtu, now, next.value.1);
      assert more.Ok? ==> bs + ([next.value.0] + more.value) == bs + [next.value.0] + more.value;
      bs := bs + [next.value.0];
      i := next.value.1;
    }
    assert bs + [] == bs;
    return Ok(if |bs| == 1 then [b] else bs);
  }
}
