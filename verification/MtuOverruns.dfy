/** Bundles whose fragments do not fit: where the estimate of their overhead is too small. */
module MtuOverruns {
  import opened Bytes
  import opened Cbor
  import opened Endpoint
  import opened Block
  import opened Primary
  import opened Bundle
  import opened Numbering
  import opened Fragmentation
  import opened MtuBound

  const PLAIN: PrimaryBlock := PrimaryBlock(VERSION, 0, CRC32, Ipn(1, 1), Ipn(1, 1), Ipn(1, 1), 1, 0, 1, 0, 0)

  function Zeros(n: nat): (r: Blob)
    requires n <= MAX_LEN
    ensures |r| == n
  {
    seq(n, i => 0)
  }

  function PlainBundle(p: PrimaryBlock, exts: seq<Canonical>, n: nat): Bundle
    requires n <= MAX_LEN
  {
    Bundle(p, exts, Canonical(1, 0, CRC32, Payload(Zeros(n))))
  }

  lemma PlainFieldSizes(offset: u64, total: u64)
    ensures var p := PLAIN.(flags := 1, offset := offset, total := total);
            && |EidsBytes(p)| == 15 && |TimesBytes(p)| == 4
            && |FragmentBytes(p)| == HeadLen(offset) + HeadLen(total)
  {
    assert |EidBytes(Ipn(1, 1))| == 5;
  }

  lemma FragmentPrimarySize(cs: Checksums, offset: u64, total: u64)
    ensures |PrimaryBytes(cs, PLAIN.(flags := 1, offset := offset, total := total))| == 28 + HeadLen(offset) + HeadLen(total)
  {
    hide EidsBytes, TimesBytes, FragmentBytes, PrimaryBytes, PrimaryBody;
    PlainFieldSizes(offset, total);
    OneByteHead();
  }

  lemma OneByteHead()
    ensures HeadLen(1) == 1 && HeadLen(CRC32) == 1
  {
  }

  predicate AllGeneric(exts: seq<Canonical>) {
    forall i :: 0 <= i < |exts| ==> exts[i].value.Generic? && exts[i].TypeCode() !in REGISTERED && exts[i].Valid() && exts[i].Writable()
  }

  lemma GenericIsValid(p: PrimaryBlock, exts: seq<Canonical>, n: nat)
    requires AllGeneric(exts) && DistinctNumbers(exts) && n <= MAX_LEN
    requires p == PLAIN.(flags := p.flags, offset := p.offset, total := p.total) && p.flags <= 1
    ensures BundleValid(PlainBundle(p, exts, n), 0) && Writable(PlainBundle(p, exts, n))
  {
  }

  lemma GenericPiece(exts: seq<Canonical>, p: PrimaryBlock, size: nat, i: nat, end: nat)
    requires AllGeneric(exts) && |exts| <= MAX_LEN && i <= end <= size <= MAX_LEN
    requires p == PLAIN.(flags := p.flags, offset := p.offset, total := p.total) && p.flags <= 1
    ensures BundleValid(Piece(PlainBundle(p, exts, size), i, end), 0)
  {
    var c := Carried(exts, i);
    CarriedAreExtensions(exts, i);
    forall k | 0 <= k < |c| ensures c[k].value.Generic? && c[k].TypeCode() !in REGISTERED && c[k].Valid() && c[k].Writable() {
      assert c[k] in exts;
    }
    AddAllRenumbers(c);
    assert Zeros(size)[i..end] == Zeros(end - i);
    assert Piece(PlainBundle(p, exts, size), i, end)
        == PlainBundle(FragmentPrimary(p, i, size), Renumbered(c), end - i);
    GenericIsValid(FragmentPrimary(p, i, size), Renumbered(c), end - i);
  }

  lemma PlainRoom(cs: Checksums, b: Bundle, mtu: i64, i: nat)
    requires b.payload == Canonical(1, 0, CRC32, b.payload.value) && b.payload.value.Payload? && i <= Size(b)
    requires b.primary == PLAIN.(flags := b.primary.flags, offset := b.primary.offset, total := b.primary.total)
    requires b.primary.flags <= 1 && mtu >= 0
    ensures Room(cs, b, mtu, i) == mtu - 40 - HeadLen(i) - HeadLen(Size(b)) - HeadLen(mtu) - Estimate(b.exts, mtu, i)
  {
    var size := Size(b);
    FragmentPrimarySize(cs, i, size);
    assert FragmentPrimary(b.primary, i, size) == PLAIN.(flags := 1, offset := i, total := size);
    assert PayloadEstimate(b, mtu) == 10 + HeadLen(mtu);
    hide PrimaryBytes, FirstEstimate, OtherEstimate, PayloadEstimate, HeadLen, FragmentPrimary;
  }

  // Rounds of the fragmentation loop

  lemma RoundSucceeds(cs: Checksums, b: Bundle, mtu: i64, now: int, i: nat)
    requires b.payload.value.Payload? && |b.exts| <= MAX_LEN && i < Size(b)
    requires b.primary.Writable() && Room(cs, b, mtu, i) > 0
    requires BundleValid(Piece(b, i, i + Length(cs, b, mtu, i)), now)
    ensures NextPiece(cs, b, mtu, now, i) == Ok((Piece(b, i, i + Length(cs, b, mtu, i)), i + Room(cs, b, mtu, i)))
  {
    hide BundleValid, Piece, Overhead, EidValid;
  }

  lemma OneRound(cs: Checksums, b: Bundle, mtu: i64, now: int, i: nat, end: nat)
    requires b.payload.value.Payload? && |b.exts| <= MAX_LEN && i < Size(b) <= end
    requires NextPiece(cs, b, mtu, now, i).Ok? && NextPiece(cs, b, mtu, now, i).value.1 == end
    ensures FragmentFrom(cs, b, mtu, now, i) == Ok([NextPiece(cs, b, mtu, now, i).value.0])
  {
    hide NextPiece;
    var piece := NextPiece(cs, b, mtu, now, i).value.0;
    assert FragmentFrom(cs, b, mtu, now, end) == Ok([]);
    assert [piece] + [] == [piece];
  }

  lemma TwoRounds(cs: Checksums, b: Bundle, mtu: i64, now: int, mid: nat, end: nat)
    requires b.payload.value.Payload? && |b.exts| <= MAX_LEN && 0 < mid < Size(b) <= end
    requires NextPiece(cs, b, mtu, now, 0).Ok? && NextPiece(cs, b, mtu, now, 0).value.1 == mid
    requires NextPiece(cs, b, mtu, now, mid).Ok? && NextPiece(cs, b, mtu, now, mid).value.1 == end
    ensures FragmentFrom(cs, b, mtu, now, 0)
            == Ok([NextPiece(cs, b, mtu, now, 0).value.0, NextPiece(cs, b, mtu, now, mid).value.0])
  {
    hide NextPiece;
    OneRound(cs, b, mtu, now, mid, end);
    var first, second := NextPiece(cs, b, mtu, now, 0).value.0, NextPiece(cs, b, mtu, now, mid).value.0;
    assert [first] + [second] == [first, second];
  }

  // Low block numbers

  /** Small blocks numbered from 0. */
  function LowBlocks(n: nat): (r: seq<Canonical>)
    requires n <= 24
    ensures |r| == n
  {
    seq(n, i requires 0 <= i < n => Canonical(i, 0, CRC32, Generic(200, [])))
  }

  lemma {:induction false} LowEstimates(n: nat, mtu: i64)
    requires n <= 24
    ensures FirstEstimate(LowBlocks(n), mtu) == 12 * n && OtherEstimate(LowBlocks(n), mtu) == 0
    ensures CrcSpares(LowBlocks(n)) == 0 && Replicated(LowBlocks(n)) == []
  {
    if n > 0 {
      assert LowBlocks(n)[..n - 1] == LowBlocks(n - 1);
      LowEstimates(n - 1, mtu);
    }
  }

  lemma {:induction false} OneByteHeads(ns: seq<int>)
    requires forall i :: 0 <= i < |ns| ==> 0 <= ns[i] < 24
    ensures HeadSum(ns) == |ns|
  {
    if ns != [] {
      OneByteHeads(ns[1..]);
    }
  }

  lemma LowGrowth()
    ensures Growth(LowBlocks(23)) == 1
  {
    OneByteHeads(Numbers(LowBlocks(23)));
    var ns := seq(22, i => i + 2);
    OneByteHeads(ns);
    HeadSumFromTwo(ns, 22);
  }

  function Low(): (b: Bundle)
    ensures b.payload.value.Payload? && b.primary == PLAIN && b.exts == LowBlocks(23) && Size(b) == 1000
    ensures b.payload.crcType == CRC32
  {
    PlainBundle(PLAIN, LowBlocks(23), 1000)
  }

  lemma LowRooms(cs: Checksums)
    ensures Room(cs, Low(), 1000, 0) == 677 && Room(cs, Low(), 1000, 677) == 951
  {
    LowEstimates(23, 1000);
    PlainRoom(cs, Low(), 1000, 0);
    PlainRoom(cs, Low(), 1000, 677);
    hide Room, FirstEstimate, OtherEstimate, LowBlocks;
  }

  lemma LowIsValid()
    ensures BundleValid(Low(), 0) && Writable(Low()) && Wire(Low()) && Measurable(Low().exts) && Low().primary.Writable()
    ensures BundleValid(Piece(Low(), 0, 677), 0) && BundleValid(Piece(Low(), 677, 1000), 0)
  {
    assert AllGeneric(LowBlocks(23)) && DistinctNumbers(LowBlocks(23));
    GenericIsValid(PLAIN, LowBlocks(23), 1000);
    GenericPiece(LowBlocks(23), PLAIN, 1000, 0, 677);
    GenericPiece(LowBlocks(23), PLAIN, 1000, 677, 1000);
    hide BundleValid, Piece;
  }

  lemma LowRounds(cs: Checksums)
    ensures FragmentFrom(cs, Low(), 1000, 0, 0) == Ok([Piece(Low(), 0, 677), Piece(Low(), 677, 1000)])
  {
    LowRooms(cs);
    LowIsValid();
    hide BundleValid, Piece, NextPiece, Room, FragmentFrom, Low, Writable, Wire, Measurable, PrimaryBlock.Writable;
    RoundSucceeds(cs, Low(), 1000, 0, 0);
    RoundSucceeds(cs, Low(), 1000, 0, 677);
    TwoRounds(cs, Low(), 1000, 0, 677, 1628);
  }

  lemma LowAreKnown()
    ensures |LowBlocks(23)| <= MAX_LEN && NoPayload(LowBlocks(23)) && CrcKnown(LowBlocks(23)) && HeadLen(677) == HeadLen(1000)
  {
  }

  lemma NothingToSpare(b: Bundle, mtu: i64, n: nat)
    requires b.payload.crcType == CRC32 && mtu >= 0 && HeadLen(n) == HeadLen(mtu)
    ensures PayloadSpare(b, mtu, n) == 0
  {
    hide HeadLen;
  }

  lemma FirstCarriesAll(exts: seq<Canonical>)
    ensures Carried(exts, 0) == exts
  {
    hide Replicated;
  }

  /** With CRC32 everywhere and a payload length as wide as the MTU, nothing makes up for the growth. */
  lemma FirstPieceOverrun(cs: Checksums, b: Bundle, mtu: i64)
    requires b.payload.value.Payload? && |b.exts| <= MAX_LEN && Writable(b) && NoPayload(b.exts) && CrcKnown(b.exts)
    requires b.primary.crcType <= CRC32 && CrcSpares(b.exts) == 0 && b.payload.crcType == CRC32 && mtu >= 0
    requires 0 <= Room(cs, b, mtu, 0) <= Size(b) && HeadLen(Room(cs, b, mtu, 0)) == HeadLen(mtu)
    ensures var piece := Piece(b, 0, Room(cs, b, mtu, 0));
            Writable(piece) && |BundleBytes(cs, piece)| == mtu + Growth(b.exts)
  {
    hide *;
    FirstCarriesAll(b.exts);
    NothingToSpare(b, mtu, Room(cs, b, mtu, 0));
    PieceWritable(b, 0, Room(cs, b, mtu, 0));
    FullPieceSize(cs, b, mtu, 0);
  }

  lemma LowFirstSize(cs: Checksums)
    ensures Writable(Piece(Low(), 0, 677)) && |BundleBytes(cs, Piece(Low(), 0, 677))| == 1001
  {
    hide *;
    LowRooms(cs);
    LowGrowth();
    LowEstimates(23, 1000);
    LowIsValid();
    LowAreKnown();
    WritableCrcs(Low());
    FirstPieceOverrun(cs, Low(), 1000);
  }

  lemma TwoPieces(cs: Checksums, b: Bundle, mtu: i64, now: int, x: Bundle, y: Bundle)
    requires b.payload.value.Payload? && |b.exts| <= MAX_LEN && Measurable(b.exts) && b.primary.flags <= 1
    requires FragmentFrom(cs, b, mtu, now, 0) == Ok([x, y])
    ensures Fragment(cs, b, mtu, now) == Ok([x, y])
  {
    hide FragmentFrom, Measurable;
  }

  /**
    * A valid bundle with 23 blocks numbered from 0: the first of its two fragments takes one byte
    * more than the MTU, because renumbering widens a number.
    */
  lemma LowNumbersOverrun(cs: Checksums)
    ensures BundleValid(Low(), 0) && Writable(Low()) && Wire(Low())
    ensures var r := Fragment(cs, Low(), 1000, 0);
            && r.Ok? && |r.value| == 2
            && WriteBundle(cs, r.value[0]).Ok? && |WriteBundle(cs, r.value[0]).value| == 1001
  {
    LowIsValid();
    LowRounds(cs);
    LowFirstSize(cs);
    hide BundleValid, Piece, Fragment, FragmentFrom, BundleBytes, Writable, Wire, Measurable, Low, LowBlocks;
    TwoPieces(cs, Low(), 1000, 0, Piece(Low(), 0, 677), Piece(Low(), 677, 1000));
  }

  // A fragment with a wide offset

  const WIDE_MTU: i64 := 45

  function Wide(): (b: Bundle)
    ensures b.payload.value.Payload? && b.exts == [] && Size(b) == 1 && b.payload.number == 1
  {
    PlainBundle(PLAIN.(flags := 1, offset := 0x1_0000_0000, total := 0x1_0000_0001), [], 1)
  }

  lemma WideIsValid()
    ensures BundleValid(Wide(), 0) && Writable(Wide()) && Wire(Wide()) && Wide().primary.Writable()
    ensures BundleValid(Piece(Wide(), 0, 1), 0) && Measurable([]) && !Has(Wide().primary.flags, MUST_NOT_FRAGMENT)
  {
    GenericIsValid(Wide().primary, [], 1);
    GenericPiece([], Wide().primary, 1, 0, 1);
    hide BundleValid, Piece;
  }

  lemma PlainSize(cs: Checksums, b: Bundle)
    requires b.payload == Canonical(1, 0, CRC32, b.payload.value) && b.payload.value.Payload? && b.exts == []
    requires b.primary == PLAIN.(flags := 1, offset := b.primary.offset, total := b.primary.total) && Writable(b)
    ensures |BundleBytes(cs, b)| == 40 + HeadLen(b.primary.offset) + HeadLen(b.primary.total) + HeadLen(Size(b)) + Size(b)
  {
    FragmentPrimarySize(cs, b.primary.offset, b.primary.total);
    assert CanonicalSize(b.payload) == 10 + HeadLen(Size(b)) + Size(b);
    hide PrimaryBytes, Writable, HeadLen, CanonicalSize;
  }

  lemma WideSizes(cs: Checksums)
    requires Writable(Wide())
    ensures Room(cs, Wide(), WIDE_MTU, 0) == 1
    ensures |BundleBytes(cs, Wide())| == WIDE_MTU + 15
  {
    PlainRoom(cs, Wide(), WIDE_MTU, 0);
    PlainSize(cs, Wide());
    hide Room, Writable, BundleBytes;
  }

  /** A fragment whose own offset and length are wide comes back whole and takes more than the MTU. */
  lemma WideFragmentOverrun(cs: Checksums)
    ensures BundleValid(Wide(), 0) && Writable(Wide()) && Wire(Wide())
    ensures Fragment(cs, Wide(), WIDE_MTU, 0) == Ok([Wide()])
    ensures WriteBundle(cs, Wide()).Ok? && |WriteBundle(cs, Wide()).value| == WIDE_MTU + 15
  {
    WideIsValid();
    WideSizes(cs);
    hide BundleValid, Piece, NextPiece, Room, FragmentFrom, Wide, Writable, Wire, BundleBytes, PrimaryBlock.Writable;
    RoundSucceeds(cs, Wide(), WIDE_MTU, 0, 0);
    OneRound(cs, Wide(), WIDE_MTU, 0, 0, 1);
  }
}
