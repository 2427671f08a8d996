/** Do fragments fit the MTU? Their overhead is only estimated; here is when the estimate is enough. */
module MtuBound {
  import opened Bytes
  import opened Cbor
  import opened Endpoint
  import opened Block
  import opened Primary
  import opened Bundle
  import opened Numbering
  import opened Sorting
  import opened Fragmentation

  // The sizes of renumbered blocks

  function HeadSum(ns: seq<int>): (n: int) {
    if ns == [] then 0 else HeadLen(ns[0]) + HeadSum(ns[1..])
  }

  lemma {:induction false} HeadSumWithout(ns: seq<int>, k: nat)
    requires k < |ns|
    ensures HeadSum(ns[..k] + ns[k + 1..]) == HeadSum(ns) - HeadLen(ns[k])
  {
    var less := ns[..k] + ns[k + 1..];
    if k == 0 {
      assert less == ns[1..];
    } else {
      HeadSumWithout(ns[1..], k - 1);
      assert less[1..] == ns[1..][..k - 1] + ns[1..][k..];
    }
  }

  /** Total head length of the numbers 2 to n + 1. */
  function HeadsFromTwo(n: nat): (l: int) {
    if n == 0 then 0 else HeadsFromTwo(n - 1) + HeadLen(n + 1)
  }

  /** Distinct numbers of at least 2, in any order, need no shorter heads than 2, 3, 4 and so on. */
  lemma {:induction false} FromTwoIsShortest(ns: seq<int>, bound: nat)
    requires forall i :: 0 <= i < |ns| ==> 2 <= ns[i] <= bound
    requires forall i, j :: 0 <= i < j < |ns| ==> ns[i] != ns[j]
    requires bound >= 1
    ensures |ns| <= bound - 1 && HeadsFromTwo(|ns|) <= HeadSum(ns)
    decreases bound
  {
    if ns == [] {
    } else if bound in ns {
      var k :| 0 <= k < |ns| && ns[k] == bound;
      FromTwoIsShortest(ns[..k] + ns[k + 1..], bound - 1);
      HeadSumWithout(ns, k);
      HeadLenMonotone(|ns| + 1, bound);
    } else {
      FromTwoIsShortest(ns, bound - 1);
    }
  }

  function Numbers(exts: seq<Canonical>): (r: seq<int>)
    ensures |r| == |exts|
  {
    seq(|exts|, i requires 0 <= i < |exts| => exts[i].number)
  }

  /** The size of blocks without their number fields. */
  function SizeSansNumbers(exts: seq<Canonical>): int {
    if exts == [] then 0 else CanonicalSize(exts[0].(number := 0)) - 1 + SizeSansNumbers(exts[1..])
  }

  lemma {:induction false} BlocksSizeSplits(exts: seq<Canonical>)
    ensures BlocksSize(exts) == SizeSansNumbers(exts) + HeadSum(Numbers(exts))
  {
    if exts != [] {
      assert Numbers(exts)[1..] == Numbers(exts[1..]);
      BlocksSizeSplits(exts[1..]);
    }
  }

  lemma {:induction false} SansNumbersIgnoresNumbers(a: seq<Canonical>, b: seq<Canonical>)
    requires |a| == |b| && forall i :: 0 <= i < |a| ==> a[i].(number := 0) == b[i].(number := 0)
    ensures SizeSansNumbers(a) == SizeSansNumbers(b)
  {
    if a != [] {
      SansNumbersIgnoresNumbers(a[1..], b[1..]);
    }
  }

  lemma {:induction false} HeadSumFromTwo(ns: seq<int>, n: nat)
    requires |ns| == n && forall i :: 0 <= i < n ==> ns[i] == i + 2
    ensures HeadSum(ns) == HeadsFromTwo(n)
  {
    if n > 0 {
      HeadSumFromTwo(ns[..n - 1], n - 1);
      assert ns[..n - 1] + ns[n - 1 + 1..] == ns[..n - 1];
      HeadSumWithout(ns, n - 1);
    }
  }

  predicate NumberedFromTwo(exts: seq<Canonical>) {
    forall i :: 0 <= i < |exts| ==> exts[i].number >= 2
  }

  /** Renumbering changes the size by what it changes in the heads of the numbers, and by nothing else. */
  lemma RenumberingGrowth(exts: seq<Canonical>)
    requires |exts| <= MAX_LEN
    ensures BlocksSize(Renumbered(exts)) - BlocksSize(exts) == HeadsFromTwo(|exts|) - HeadSum(Numbers(exts))
  {
    var r := Renumbered(exts);
    BlocksSizeSplits(exts);
    BlocksSizeSplits(r);
    SansNumbersIgnoresNumbers(exts, r);
    HeadSumFromTwo(Numbers(r), |exts|);
  }

  lemma RenumberingNeverGrows(exts: seq<Canonical>)
    requires |exts| <= MAX_LEN && DistinctNumbers(exts) && NumberedFromTwo(exts)
    ensures BlocksSize(Renumbered(exts)) <= BlocksSize(exts)
  {
    RenumberingGrowth(exts);
    FromTwoIsShortest(Numbers(exts), U64_LIMIT);
  }

  lemma {:induction false} BlocksSizeAppend(exts: seq<Canonical>, cb: Canonical)
    ensures BlocksSize(exts + [cb]) == BlocksSize(exts) + CanonicalSize(cb)
  {
    if exts == [] {
      assert exts + [cb] == [cb];
    } else {
      assert (exts + [cb])[1..] == exts[1..] + [cb];
      BlocksSizeAppend(exts[1..], cb);
    }
  }

  predicate CrcKnown(exts: seq<Canonical>) {
    forall i :: 0 <= i < |exts| ==> exts[i].crcType <= CRC32
  }

  // The estimates, exactly

  /** What the estimate has to spare for a block with a narrower checksum than CRC32. */
  function CrcSpare(crcType: u64): int {
    5 - if crcType == CRC_NO then 0 else 1 + 2 * crcType
  }

  function CrcSpares(exts: seq<Canonical>): int {
    if exts == [] then 0 else CrcSpares(exts[..|exts| - 1]) + CrcSpare(exts[|exts| - 1].crcType)
  }

  /** The bytes estimated for the extension blocks of the fragment at offset `i`. */
  function Estimate(exts: seq<Canonical>, mtu: i64, i: nat): int {
    if i == 0 then FirstEstimate(exts, mtu) else OtherEstimate(exts, mtu)
  }

  lemma {:induction false} FirstIsExact(exts: seq<Canonical>, mtu: i64)
    requires NoPayload(exts) && CrcKnown(exts)
    ensures FirstEstimate(exts, mtu) == BlocksSize(exts) + CrcSpares(exts)
  {
    if exts != [] {
      var n := |exts| - 1;
      FirstIsExact(exts[..n], mtu);
      assert exts == exts[..n] + [exts[n]];
      BlocksSizeAppend(exts[..n], exts[n]);
    }
  }

  lemma {:induction false} OthersAreExact(exts: seq<Canonical>, mtu: i64)
    requires NoPayload(exts) && CrcKnown(Replicated(exts))
    ensures OtherEstimate(exts, mtu) == BlocksSize(Replicated(exts)) + CrcSpares(Replicated(exts))
  {
    if exts != [] {
      var n := |exts| - 1;
      var r := Replicated(exts[..n]);
      assert forall i :: 0 <= i < |r| ==> Replicated(exts)[i] == r[i];
      OthersAreExact(exts[..n], mtu);
      if Has(exts[n].flags, REPLICATE_BLOCK) {
        assert Replicated(exts)[|r|] == exts[n];
        BlocksSizeAppend(r, exts[n]);
        assert (r + [exts[n]])[..|r|] == r;
      } else {
        assert r + [] == r;
      }
    }
  }

  lemma {:induction false} ReplicatedSubsequence(exts: seq<Canonical>)
    ensures forall x :: x in Replicated(exts) ==> x in exts
    ensures DistinctNumbers(exts) ==> DistinctNumbers(Replicated(exts))
  {
    if exts != [] {
      var n := |exts| - 1;
      ReplicatedSubsequence(exts[..n]);
      var r := Replicated(exts[..n]);
      if DistinctNumbers(exts) {
        forall i | 0 <= i < |r| ensures r[i].number != exts[n].number {
          assert r[i] in exts[..n];
        }
      }
    }
  }

  lemma CarriedAreExtensions(exts: seq<Canonical>, i: nat)
    ensures forall x :: x in Carried(exts, i) ==> x in exts
    ensures NoPayload(exts) ==> NoPayload(Carried(exts, i))
    ensures NumberedFromTwo(exts) ==> NumberedFromTwo(Carried(exts, i))
    ensures DistinctNumbers(exts) ==> DistinctNumbers(Carried(exts, i))
  {
    ReplicatedSubsequence(exts);
    var c := Carried(exts, i);
    forall k | 0 <= k < |c| ensures c[k] in exts {
      assert c[k] in c;
    }
  }

  /** What renumbering adds to the heads of the numbers; negative if it takes away. */
  function Growth(exts: seq<Canonical>): int {
    HeadsFromTwo(|exts|) - HeadSum(Numbers(exts))
  }

  /** What a fragment's extension blocks really take, against the estimate for them. */
  lemma CarriedSize(exts: seq<Canonical>, mtu: i64, i: nat)
    requires |exts| <= MAX_LEN && NoPayload(exts) && CrcKnown(Carried(exts, i))
    ensures var c := Carried(exts, i);
            BlocksSize(AddAll(c)) == Estimate(exts, mtu, i) + Growth(c) - CrcSpares(c)
  {
    var c := Carried(exts, i);
    CarriedAreExtensions(exts, i);
    AddAllRenumbers(c);
    RenumberingGrowth(c);
    if i == 0 {
      FirstIsExact(exts, mtu);
    } else {
      OthersAreExact(exts, mtu);
    }
  }

  /** What the estimate has to spare for a payload block with `n` bytes of data. */
  function PayloadSpare(b: Bundle, mtu: i64, n: nat): int {
    CrcSpare(b.payload.crcType) + HeadLen(mtu % U64_LIMIT) - HeadLen(n)
  }

  lemma PayloadSize(b: Bundle, mtu: i64, payload: Canonical)
    requires payload.value.Payload? && payload.number == 1
    requires payload.flags == b.payload.flags && payload.crcType == b.payload.crcType <= CRC32
    ensures var n := |payload.value.data|;
            CanonicalSize(payload) == PayloadEstimate(b, mtu) + n - PayloadSpare(b, mtu, n)
  {
  }

  // One round

  function Size(b: Bundle): nat
    requires b.payload.value.Payload?
  {
    |b.payload.value.data|
  }

  /** The payload bytes there is room for at offset `i`, by the estimate. */
  function Room(cs: Checksums, b: Bundle, mtu: i64, i: nat): int
    requires b.payload.value.Payload? && b.primary.crcType <= CRC32 && i <= Size(b)
  {
    mtu - Overhead(cs, b, mtu, i, FragmentPrimary(b.primary, i, Size(b)))
  }

  /** The payload bytes taken at offset `i`. */
  function Length(cs: Checksums, b: Bundle, mtu: i64, i: nat): int
    requires b.payload.value.Payload? && b.primary.crcType <= CRC32 && i <= Size(b)
  {
    if i + Room(cs, b, mtu, i) <= Size(b) then Room(cs, b, mtu, i) else Size(b) - i
  }

  /**
    * The blocks of the fragment at offset `i` need no more than was estimated for them, what the
    * payload block has to spare, and the room that is left.
    */
  predicate RoundFits(cs: Checksums, b: Bundle, mtu: i64, i: nat)
    requires b.payload.value.Payload? && |b.exts| <= MAX_LEN && b.primary.crcType <= CRC32 && i < Size(b)
  {
    var room := Room(cs, b, mtu, i);
    var n := Length(cs, b, mtu, i);
    room > 0 ==>
      BlocksSize(AddAll(Carried(b.exts, i))) <= Estimate(b.exts, mtu, i) + PayloadSpare(b, mtu, n) + room - n
  }

  lemma PieceSize(cs: Checksums, b: Bundle, mtu: i64, i: nat, end: nat)
    requires b.payload.value.Payload? && |b.exts| <= MAX_LEN && b.primary.crcType <= CRC32 && i <= end <= Size(b)
    requires Writable(Piece(b, i, end))
    ensures |BundleBytes(cs, Piece(b, i, end))|
            == mtu - Room(cs, b, mtu, i) + (end - i) - PayloadSpare(b, mtu, end - i)
               + BlocksSize(AddAll(Carried(b.exts, i))) - Estimate(b.exts, mtu, i)
  {
    hide FirstEstimate, OtherEstimate, PayloadEstimate, CanonicalSize, BlocksSize, AddAll, Carried, PrimaryBytes, PayloadSpare;
    PayloadSize(b, mtu, Piece(b, i, end).payload);
  }

  lemma {:induction false} AddAllMembers(blocks: seq<Canonical>)
    requires |blocks| <= MAX_LEN && AllWritable(blocks)
    ensures AllWritable(AddAll(blocks))
  {
    if blocks != [] {
      var n := |blocks| - 1;
      var before := AddAll(blocks[..n]);
      AddAllMembers(blocks[..n]);
      var all := before + [blocks[n].(number := FreeNumber(before, FirstNumber(blocks[n])))];
      assert AllWritable(all);
      SortByCorrect(all, SortKey);
      var r := SortBy(all, SortKey);
      SameElements(all, r);
      forall k | 0 <= k < |r| ensures r[k].Writable() {
        assert r[k] in r;
        assert r[k] in all;
      }
    }
  }

  /** A fragment of a bundle that can be written can be written. */
  lemma PieceWritable(b: Bundle, i: nat, end: nat)
    requires b.payload.value.Payload? && |b.exts| <= MAX_LEN && i <= end <= Size(b) && Writable(b)
    ensures Writable(Piece(b, i, end))
  {
    hide AddAll, Canonical.Writable;
    var c := Carried(b.exts, i);
    CarriedAreExtensions(b.exts, i);
    forall k | 0 <= k < |c| ensures c[k].Writable() {
      assert c[k] in b.exts;
    }
    AddAllMembers(c);
    assert AllWritable(Piece(b, i, end).exts);
    PayloadWritable(b, Piece(b, i, end));
  }

  lemma PayloadWritable(b: Bundle, f: Bundle)
    requires b.payload.value.Payload? && f.payload.value.Payload? && f.payload.crcType == b.payload.crcType
    ensures b.payload.Writable() <==> f.payload.Writable()
  {
  }

  lemma RoundFitsIff(cs: Checksums, b: Bundle, mtu: i64, now: int, i: nat)
    requires b.payload.value.Payload? && |b.exts| <= MAX_LEN && i < Size(b) && b.primary.crcType <= CRC32
    requires NextPiece(cs, b, mtu, now, i).Ok? && Writable(NextPiece(cs, b, mtu, now, i).value.0)
    ensures |BundleBytes(cs, NextPiece(cs, b, mtu, now, i).value.0)| <= mtu <==> RoundFits(cs, b, mtu, i)
    ensures NextPiece(cs, b, mtu, now, i).value.1 == i + Room(cs, b, mtu, i)
  {
    hide BundleValid, BundleBytes, Overhead, PayloadSpare, BlocksSize, AddAll, Carried, Estimate, Writable;
    var end := i + Length(cs, b, mtu, i);
    assert NextPiece(cs, b, mtu, now, i).value.0 == Piece(b, i, end);
    hide Piece;
    PieceSize(cs, b, mtu, i, end);
  }

  /** Without a payload block among the extension blocks, only the heads of their numbers decide. */
  lemma RoundFitsByNumbers(cs: Checksums, b: Bundle, mtu: i64, i: nat)
    requires b.payload.value.Payload? && |b.exts| <= MAX_LEN && i < Size(b) && b.primary.crcType <= CRC32
    requires NoPayload(b.exts) && CrcKnown(Carried(b.exts, i)) && Room(cs, b, mtu, i) > 0
    ensures var c := Carried(b.exts, i);
            var n := Length(cs, b, mtu, i);
            RoundFits(cs, b, mtu, i) <==>
              Growth(c) <= CrcSpares(c) + PayloadSpare(b, mtu, n) + Room(cs, b, mtu, i) - n
  {
    hide Overhead, PayloadSpare, BlocksSize, AddAll, Carried, Estimate, Growth, CrcSpares;
    CarriedSize(b.exts, mtu, i);
  }

  /** A fragment that uses up its room takes the MTU, what renumbering adds, and less what there is to spare. */
  lemma FullPieceSize(cs: Checksums, b: Bundle, mtu: i64, i: nat)
    requires b.payload.value.Payload? && |b.exts| <= MAX_LEN && b.primary.crcType <= CRC32 && i <= Size(b)
    requires NoPayload(b.exts) && CrcKnown(Carried(b.exts, i)) && 0 <= Room(cs, b, mtu, i) <= Size(b) - i
    requires Writable(Piece(b, i, i + Room(cs, b, mtu, i)))
    ensures var c := Carried(b.exts, i);
            var room := Room(cs, b, mtu, i);
            |BundleBytes(cs, Piece(b, i, i + room))| == mtu + Growth(c) - CrcSpares(c) - PayloadSpare(b, mtu, room)
  {
    hide PayloadSpare, BlocksSize, AddAll, Carried, Estimate, Growth, CrcSpares, Room, Piece, BundleBytes, Writable;
    PieceSize(cs, b, mtu, i, i + Room(cs, b, mtu, i));
    CarriedSize(b.exts, mtu, i);
  }

  // All rounds

  /** Every round from offset `i` on fits. */
  predicate RoundsFit(cs: Checksums, b: Bundle, mtu: i64, i: nat)
    requires b.payload.value.Payload? && |b.exts| <= MAX_LEN && b.primary.crcType <= CRC32
    decreases Size(b) - i
  {
    i < Size(b) && Room(cs, b, mtu, i) > 0 ==>
      RoundFits(cs, b, mtu, i) && RoundsFit(cs, b, mtu, i + Room(cs, b, mtu, i))
  }

  predicate WrittenWithin(cs: Checksums, f: Bundle, mtu: i64) {
    WriteBundle(cs, f).Ok? && |WriteBundle(cs, f).value| <= mtu
  }

  lemma NextPieceShape(cs: Checksums, b: Bundle, mtu: i64, now: int, i: nat)
    requires b.payload.value.Payload? && |b.exts| <= MAX_LEN && i < Size(b) && NextPiece(cs, b, mtu, now, i).Ok?
    ensures b.primary.crcType <= CRC32 && Room(cs, b, mtu, i) > 0 && i < i + Length(cs, b, mtu, i) <= Size(b)
    ensures NextPiece(cs, b, mtu, now, i).value
            == (Piece(b, i, i + Length(cs, b, mtu, i)), i + Room(cs, b, mtu, i))
  {
    hide BundleValid, Overhead, Piece, EidValid;
  }

  predicate AllWithin(cs: Checksums, fs: seq<Bundle>, mtu: i64) {
    forall f :: f in fs ==> WrittenWithin(cs, f, mtu)
  }

  lemma AllWithinCons(cs: Checksums, f: Bundle, fs: seq<Bundle>, mtu: i64)
    ensures AllWithin(cs, [f] + fs, mtu) <==> WrittenWithin(cs, f, mtu) && AllWithin(cs, fs, mtu)
  {
    hide WrittenWithin;
    assert f in [f] + fs && forall g :: g in fs ==> g in [f] + fs;
  }

  lemma RoundWithinIff(cs: Checksums, b: Bundle, mtu: i64, now: int, i: nat)
    requires b.payload.value.Payload? && |b.exts| <= MAX_LEN && Writable(b) && i < Size(b)
    requires NextPiece(cs, b, mtu, now, i).Ok?
    ensures WrittenWithin(cs, NextPiece(cs, b, mtu, now, i).value.0, mtu) <==> RoundFits(cs, b, mtu, i)
  {
    hide NextPiece, Writable, RoundFits, BundleBytes, Room, Length, Piece;
    NextPieceShape(cs, b, mtu, now, i);
    PieceWritable(b, i, i + Length(cs, b, mtu, i));
    RoundFitsIff(cs, b, mtu, now, i);
  }

  lemma RoundsUnfold(cs: Checksums, b: Bundle, mtu: i64, now: int, i: nat)
    requires b.payload.value.Payload? && |b.exts| <= MAX_LEN && b.primary.crcType <= CRC32 && i < Size(b)
    requires FragmentFrom(cs, b, mtu, now, i).Ok?
    ensures NextPiece(cs, b, mtu, now, i).Ok? && Room(cs, b, mtu, i) > 0
    ensures var next := NextPiece(cs, b, mtu, now, i).value;
            && next.1 == i + Room(cs, b, mtu, i) && FragmentFrom(cs, b, mtu, now, next.1).Ok?
            && FragmentFrom(cs, b, mtu, now, i).value == [next.0] + FragmentFrom(cs, b, mtu, now, next.1).value
            && (RoundsFit(cs, b, mtu, i) <==> RoundFits(cs, b, mtu, i) && RoundsFit(cs, b, mtu, next.1))
  {
    hide NextPiece, RoundFits, Room, Length, Piece;
    NextPieceShape(cs, b, mtu, now, i);
  }

  lemma {:induction false} RoundsFitIff(cs: Checksums, b: Bundle, mtu: i64, now: int, i: nat)
    requires b.payload.value.Payload? && |b.exts| <= MAX_LEN && Writable(b) && FragmentFrom(cs, b, mtu, now, i).Ok?
    ensures AllWithin(cs, FragmentFrom(cs, b, mtu, now, i).value, mtu) <==> RoundsFit(cs, b, mtu, i)
    decreases Size(b) - i
  {
    hide NextPiece, RoundFits, Room;
    if i < Size(b) {
      RoundsUnfold(cs, b, mtu, now, i);
      RoundWithinIff(cs, b, mtu, now, i);
      hide AllWithin, WrittenWithin, FragmentFrom, RoundsFit;
      var next := NextPiece(cs, b, mtu, now, i).value;
      RoundsFitIff(cs, b, mtu, now, next.1);
      AllWithinCons(cs, next.0, FragmentFrom(cs, b, mtu, now, next.1).value, mtu);
    }
  }

  /** There is one piece exactly if the payload is not empty and there is room for all of it. */
  lemma OnePieceIff(cs: Checksums, b: Bundle, mtu: i64, now: int)
    requires b.payload.value.Payload? && |b.exts| <= MAX_LEN && FragmentFrom(cs, b, mtu, now, 0).Ok?
    ensures Size(b) > 0 ==> b.primary.crcType <= CRC32
    ensures |FragmentFrom(cs, b, mtu, now, 0).value| == 1 <==> 0 < Size(b) <= Room(cs, b, mtu, 0)
  {
    hide NextPiece, Room, Length, Piece;
    if Size(b) > 0 {
      NextPieceShape(cs, b, mtu, now, 0);
      var i := Room(cs, b, mtu, 0);
      if i < Size(b) {
        assert FragmentFrom(cs, b, mtu, now, i).value != [];
      }
    }
  }

  // A bundle that comes back whole

  /** What the bundle's own primary block takes more than that of its only piece; mostly negative. */
  function PrimaryGrowth(b: Bundle): int
    requires b.payload.value.Payload?
  {
    HeadLen(b.primary.flags) - HeadLen(SetFragment(b.primary.flags))
    + (if b.primary.IsFragment() then HeadLen(b.primary.offset) + HeadLen(b.primary.total) else 0)
    - 1 - HeadLen(Size(b))
  }

  lemma PrimaryGrows(cs: Checksums, b: Bundle)
    requires b.payload.value.Payload? && b.primary.crcType <= CRC32
    ensures |PrimaryBytes(cs, b.primary)| == |PrimaryBytes(cs, FragmentPrimary(b.primary, 0, Size(b)))| + PrimaryGrowth(b)
  {
    var p := FragmentPrimary(b.primary, 0, Size(b));
    assert EidsBytes(p) == EidsBytes(b.primary) && TimesBytes(p) == TimesBytes(b.primary);
    hide EidsBytes, TimesBytes;
  }

  predicate WholeFits(cs: Checksums, b: Bundle, mtu: i64)
    requires b.payload.value.Payload? && b.primary.crcType <= CRC32
  {
    PrimaryGrowth(b) + BlocksSize(b.exts)
    <= FirstEstimate(b.exts, mtu) + PayloadSpare(b, mtu, Size(b)) + Room(cs, b, mtu, 0) - Size(b)
  }

  lemma WholeFitsIff(cs: Checksums, b: Bundle, mtu: i64)
    requires b.payload.value.Payload? && b.payload.number == 1 && Writable(b)
    ensures |BundleBytes(cs, b)| <= mtu <==> WholeFits(cs, b, mtu)
  {
    hide FirstEstimate, PayloadEstimate, CanonicalSize, BlocksSize, PrimaryBytes, PayloadSpare, PrimaryGrowth;
    PrimaryGrows(cs, b);
    PayloadSize(b, mtu, b.payload);
  }

  // The bound

  /** The condition for all bundles that fragmentation returns, in sizes known before it starts. */
  predicate AllFit(cs: Checksums, b: Bundle, mtu: i64)
    requires b.payload.value.Payload? && |b.exts| <= MAX_LEN && b.primary.crcType <= CRC32
  {
    if 0 < Size(b) <= Room(cs, b, mtu, 0) then WholeFits(cs, b, mtu) else RoundsFit(cs, b, mtu, 0)
  }

  /** Every bundle that fragmentation returns is written in at most `mtu` bytes, exactly under that condition. */
  lemma FragmentsFitIff(cs: Checksums, b: Bundle, mtu: i64, now: int, valid: int)
    requires BundleValid(b, valid) && b.payload.value.Payload? && |b.exts| <= MAX_LEN && Writable(b)
    requires Fragment(cs, b, mtu, now).Ok?
    ensures AllWithin(cs, Fragment(cs, b, mtu, now).value, mtu) <==> AllFit(cs, b, mtu)
  {
    hide BundleValid, BundleBytes, FragmentFrom, RoundsFit, WholeFits, Room, Writable, Has, Measurable;
    ValidBasics(b, valid);
    WritableCrcs(b);
    var ps := FragmentFrom(cs, b, mtu, now, 0).value;
    OnePieceIff(cs, b, mtu, now);
    if |ps| == 1 {
      assert Fragment(cs, b, mtu, now).value == [b];
      AllWithinCons(cs, b, [], mtu);
      assert [b] + [] == [b] && AllWithin(cs, [], mtu);
      hide AllWithin;
      WholeFitsIff(cs, b, mtu);
    } else {
      RoundsFitIff(cs, b, mtu, now, 0);
    }
  }

  /** The checksums alone make up for what renumbering adds. */
  predicate GrowthCovered(b: Bundle, c: seq<Canonical>) {
    Growth(c) <= CrcSpares(c) + CrcSpare(b.payload.crcType)
  }

  /** A condition without the MTU: on the numbers of the blocks, and on a fragment's own offset and length. */
  predicate Covered(b: Bundle)
    requires b.payload.value.Payload?
  {
    && NoPayload(b.exts) && GrowthCovered(b, b.exts) && GrowthCovered(b, Replicated(b.exts))
    && (b.primary.IsFragment() ==>
          HeadLen(b.primary.offset) + HeadLen(b.primary.total)
          <= 1 + HeadLen(Size(b)) + CrcSpares(b.exts) + CrcSpare(b.payload.crcType))
  }

  lemma {:induction false} CrcSparesNatural(exts: seq<Canonical>)
    requires CrcKnown(exts)
    ensures CrcSpares(exts) >= 0
  {
    if exts != [] {
      CrcSparesNatural(exts[..|exts| - 1]);
    }
  }

  /** Distinct numbers of at least 2 never grow, whatever the checksums. */
  lemma FromTwoIsCovered(b: Bundle, c: seq<Canonical>)
    requires DistinctNumbers(c) && NumberedFromTwo(c) && CrcKnown(c) && b.payload.crcType <= CRC32
    ensures GrowthCovered(b, c)
  {
    FromTwoIsShortest(Numbers(c), U64_LIMIT);
    CrcSparesNatural(c);
  }

  lemma {:induction false} EstimatesAreNatural(exts: seq<Canonical>, mtu: i64)
    ensures FirstEstimate(exts, mtu) >= 0 && OtherEstimate(exts, mtu) >= 0
  {
    if exts != [] {
      EstimatesAreNatural(exts[..|exts| - 1], mtu);
    }
  }

  lemma RoomIsLess(cs: Checksums, b: Bundle, mtu: i64, i: nat)
    requires b.payload.value.Payload? && b.primary.crcType <= CRC32 && i <= Size(b)
    ensures Room(cs, b, mtu, i) <= mtu
  {
    EstimatesAreNatural(b.exts, mtu);
    hide FirstEstimate, OtherEstimate, PrimaryBytes;
  }

  lemma SpareIsCrc(b: Bundle, mtu: i64, n: nat)
    requires n <= mtu
    ensures PayloadSpare(b, mtu, n) >= CrcSpare(b.payload.crcType)
  {
    HeadLenMonotone(n, mtu);
  }

  lemma RenumberedCrc(exts: seq<Canonical>)
    requires |exts| <= MAX_LEN && NoPayload(exts) && AllWritable(AddAll(exts))
    ensures CrcKnown(exts)
  {
    AddAllRenumbers(exts);
    forall i | 0 <= i < |exts| ensures exts[i].crcType <= CRC32 {
      assert Renumbered(exts)[i].Writable();
    }
  }

  /** A fragment of a bundle that can be written can be written, and if it can, it fits. */
  predicate Fits(cs: Checksums, b: Bundle, mtu: i64, f: Bundle) {
    && (WriteBundle(cs, b).Ok? ==> WriteBundle(cs, f).Ok?)
    && (WriteBundle(cs, f).Ok? ==> |WriteBundle(cs, f).value| <= mtu)
  }

  lemma CoveredRoundFits(cs: Checksums, b: Bundle, mtu: i64, i: nat)
    requires b.payload.value.Payload? && |b.exts| <= MAX_LEN && i < Size(b) && b.primary.crcType <= CRC32
    requires Covered(b) && CrcKnown(Carried(b.exts, i)) && Room(cs, b, mtu, i) > 0
    ensures RoundFits(cs, b, mtu, i)
  {
    assert GrowthCovered(b, Carried(b.exts, i));
    hide RoundFits, Room, PayloadSpare, Growth, CrcSpares, Carried, CrcSpare, NoPayload, CrcKnown;
    RoundFitsByNumbers(cs, b, mtu, i);
    RoomIsLess(cs, b, mtu, i);
    SpareIsCrc(b, mtu, Length(cs, b, mtu, i));
  }

  lemma NextPieceFits(cs: Checksums, b: Bundle, mtu: i64, now: int, i: nat)
    requires b.payload.value.Payload? && |b.exts| <= MAX_LEN && i < Size(b) && Covered(b)
    requires NextPiece(cs, b, mtu, now, i).Ok?
    ensures Fits(cs, b, mtu, NextPiece(cs, b, mtu, now, i).value.0)
  {
    hide NextPiece, RoundFits, Room, Covered, NoPayload, CrcKnown, BundleBytes, AddAll, Canonical.Writable, Length;
    NextPieceShape(cs, b, mtu, now, i);
    var piece := NextPiece(cs, b, mtu, now, i).value.0;
    if Writable(b) { PieceWritable(b, i, i + Length(cs, b, mtu, i)); }
    if Writable(piece) {
      CoveredCarried(b, i);
      RenumberedCrc(Carried(b.exts, i));
      CoveredRoundFits(cs, b, mtu, i);
      RoundFitsIff(cs, b, mtu, now, i);
    }
  }

  lemma CoveredCarried(b: Bundle, i: nat)
    requires b.payload.value.Payload? && Covered(b)
    ensures NoPayload(Carried(b.exts, i))
  {
    CarriedAreExtensions(b.exts, i);
  }

  lemma {:induction false} PiecesFit(cs: Checksums, b: Bundle, mtu: i64, now: int, i: nat)
    requires b.payload.value.Payload? && |b.exts| <= MAX_LEN && Covered(b) && FragmentFrom(cs, b, mtu, now, i).Ok?
    ensures forall f :: f in FragmentFrom(cs, b, mtu, now, i).value ==> Fits(cs, b, mtu, f)
    decreases Size(b) - i
  {
    hide NextPiece, Fits, Covered;
    if i < Size(b) {
      NextPieceFits(cs, b, mtu, now, i);
      PiecesFit(cs, b, mtu, now, NextPiece(cs, b, mtu, now, i).value.1);
    }
  }

  lemma CoveredWholeFits(cs: Checksums, b: Bundle, mtu: i64)
    requires b.payload.value.Payload? && b.primary.crcType <= CRC32 && CrcKnown(b.exts) && b.payload.crcType <= CRC32
    requires Covered(b) && Size(b) <= Room(cs, b, mtu, 0)
    ensures WholeFits(cs, b, mtu)
  {
    hide Room, PayloadSpare, CrcSpares, BlocksSize, FirstEstimate, Growth;
    FirstIsExact(b.exts, mtu);
    CrcSparesNatural(b.exts);
    RoomIsLess(cs, b, mtu, 0);
    SpareIsCrc(b, mtu, Size(b));
    HeadLenMonotone(b.primary.flags, SetFragment(b.primary.flags));
  }

  /**
    * Every bundle that fragmentation of a covered bundle returns is written in at most `mtu` bytes,
    * whatever the MTU, although the overhead was only estimated.
    */
  lemma FragmentsFitMtu(cs: Checksums, b: Bundle, mtu: i64, now: int, valid: int)
    requires BundleValid(b, valid) && b.payload.value.Payload? && |b.exts| <= MAX_LEN && Covered(b)
    requires Fragment(cs, b, mtu, now).Ok?
    ensures forall f :: f in Fragment(cs, b, mtu, now).value ==> Fits(cs, b, mtu, f)
  {
    hide BundleValid, BundleBytes, FragmentFrom, Covered, Room, WholeFits, Measurable, Writable, Has, CrcKnown;
    ValidBasics(b, valid);
    PiecesFit(cs, b, mtu, now, 0);
    OnePieceIff(cs, b, mtu, now);
    if |FragmentFrom(cs, b, mtu, now, 0).value| == 1 && Writable(b) {
      WritableCrcs(b);
      CoveredWholeFits(cs, b, mtu);
      WholeFitsIff(cs, b, mtu);
    }
  }

  lemma WritableCrcs(b: Bundle)
    requires Writable(b)
    ensures b.primary.crcType <= CRC32 && CrcKnown(b.exts) && b.payload.crcType <= CRC32
  {
  }

  /** Bundles that are no fragments and number their blocks from 2 are covered. */
  lemma NumberedFromTwoIsCovered(b: Bundle)
    requires b.payload.value.Payload? && Writable(b) && !b.primary.IsFragment()
    requires NoPayload(b.exts) && DistinctNumbers(b.exts) && NumberedFromTwo(b.exts)
    ensures Covered(b)
  {
    forall i | 0 <= i <= 1 ensures CrcKnown(Carried(b.exts, i)) {
      CarriedAreExtensions(b.exts, i);
      forall k | 0 <= k < |Carried(b.exts, i)| ensures Carried(b.exts, i)[k].crcType <= CRC32 {
        assert Carried(b.exts, i)[k] in b.exts;
      }
    }
    CarriedAreExtensions(b.exts, 1);
    hide GrowthCovered, NoPayload, NumberedFromTwo, DistinctNumbers, CrcKnown;
    assert CrcKnown(Carried(b.exts, 0)) && CrcKnown(Carried(b.exts, 1));
    FromTwoIsCovered(b, b.exts);
    FromTwoIsCovered(b, Replicated(b.exts));
  }
}
