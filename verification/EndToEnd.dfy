/** Fragments over the wire: written, parsed and put back together. */
module EndToEnd {
  import opened Bytes
  import opened Endpoint
  import opened Block
  import opened Primary
  import opened Bundle
  import opened Numbering
  import opened Sorting
  import opened Fragmentation
  import opened MtuBound
  import opened Reassembly

  // What reading does to the blocks of a fragment

  lemma {:induction false} ReplicatedAsRead(exts: seq<Canonical>)
    ensures Replicated(AsReadAll(exts)) == AsReadAll(Replicated(exts))
  {
    if exts != [] {
      var n := |exts| - 1;
      ReplicatedAsRead(exts[..n]);
      assert AsReadAll(exts)[..n] == AsReadAll(exts[..n]);
      assert AsReadAll(exts)[n] == exts[n].AsRead();
      assert AsReadAll(Replicated(exts[..n]) + [exts[n]]) == AsReadAll(Replicated(exts[..n])) + [exts[n].AsRead()];
      assert Replicated(exts[..n]) + [] == Replicated(exts[..n]);
    }
  }

  lemma CarriedAsRead(exts: seq<Canonical>, i: nat)
    ensures Carried(AsReadAll(exts), i) == AsReadAll(Carried(exts, i))
  {
    hide AsReadAll, Replicated;
    ReplicatedAsRead(exts);
  }

  lemma RenumberedAsRead(blocks: seq<Canonical>)
    requires |blocks| <= MAX_LEN
    ensures Renumbered(AsReadAll(blocks)) == AsReadAll(Renumbered(blocks))
  {
    var a, b := Renumbered(AsReadAll(blocks)), AsReadAll(Renumbered(blocks));
    forall k | 0 <= k < |blocks| ensures a[k] == b[k] {
      assert AsReadAll(blocks)[k] == blocks[k].AsRead();
    }
  }

  lemma NoPayloadAsRead(blocks: seq<Canonical>)
    requires NoPayload(blocks)
    ensures NoPayload(AsReadAll(blocks))
  {
    forall k | 0 <= k < |blocks| ensures AsReadAll(blocks)[k].TypeCode() != PAYLOAD {
      assert AsReadAll(blocks)[k] == blocks[k].AsRead();
    }
  }

  lemma AddAllAsRead(blocks: seq<Canonical>)
    requires |blocks| <= MAX_LEN && NoPayload(blocks)
    ensures AddAll(AsReadAll(blocks)) == AsReadAll(AddAll(blocks))
  {
    hide NoPayload, AddAll, Renumbered, AsReadAll;
    NoPayloadAsRead(blocks);
    AddAllRenumbers(blocks);
    AddAllRenumbers(AsReadAll(blocks));
    RenumberedAsRead(blocks);
  }

  /** Cutting and reading can change places. */
  lemma PieceAsRead(b: Bundle, i: nat, end: nat)
    requires b.payload.value.Payload? && |b.exts| <= MAX_LEN && NoPayload(b.exts) && i <= end <= |Data(b)|
    ensures b.AsRead().payload.value.Payload? && Data(b.AsRead()) == Data(b)
    ensures Piece(b, i, end).AsRead() == Piece(b.AsRead(), i, end)
  {
    hide NoPayload, AddAll, Carried, AsReadAll;
    CarriedAreExtensions(b.exts, i);
    CarriedAsRead(b.exts, i);
    AddAllAsRead(Carried(b.exts, i));
  }

  function AllAsRead(ps: seq<Bundle>): (qs: seq<Bundle>)
    ensures |qs| == |ps|
  {
    seq(|ps|, k requires 0 <= k < |ps| => ps[k].AsRead())
  }

  lemma TilingAsRead(ps: seq<Bundle>, b: Bundle)
    requires b.payload.value.Payload? && |b.exts| <= MAX_LEN && NoPayload(b.exts) && Tiling(ps, b, 0)
    ensures b.AsRead().payload.value.Payload? && |b.AsRead().exts| <= MAX_LEN && Tiling(AllAsRead(ps), b.AsRead(), 0)
  {
    hide Piece, NoPayload, AsReadAll;
    var qs := AllAsRead(ps);
    PieceAsRead(b, 0, 0);
    forall k | 0 <= k < |ps| ensures qs[k].payload.value.Payload? && Offset(qs[k]) == Offset(ps[k]) && End(qs[k]) == End(ps[k]) {
      assert qs[k] == ps[k].AsRead();
    }
    forall k | 0 <= k < |ps| ensures PieceAt(qs, b.AsRead(), 0, k) {
      assert PieceAt(ps, b, 0, k);
      PieceAsRead(b, Offset(ps[k]), End(ps[k]));
    }
  }

  // What is read of a written fragment

  /** Parsing looks at the clock only to decide whether the bundle is accepted. */
  lemma ParsedAtAnyTime(cs: Checksums, s: bytes, now: int, later: int)
    requires ParseBundle(cs, s, now).Got? && ParseBundle(cs, s, later).Got?
    ensures ParseBundle(cs, s, now) == ParseBundle(cs, s, later)
  {
    hide ReadPrimary, ParseBlocks, BundleValid;
  }

  /** `r` was parsed, at some time, from the bytes of `p` and whatever followed them. */
  ghost predicate ReadFrom(cs: Checksums, p: Bundle, r: Bundle) {
    Writable(p) && exists rest, after, at :: ParseBundle(cs, BundleBytes(cs, p) + rest, at) == Got(r, after)
  }

  lemma ReadIsAsRead(cs: Checksums, p: Bundle, r: Bundle, now: int)
    requires Writable(p) && Wire(p) && BundleValid(p, now)
    ensures ReadFrom(cs, p, r) <==> r == p.AsRead()
  {
    hide ParseBundle, BundleBytes, Writable, Wire, BundleValid;
    if ReadFrom(cs, p, r) {
      var rest, after, at :| ParseBundle(cs, BundleBytes(cs, p) + rest, at) == Got(r, after);
      WrittenBundleParses(cs, p, rest, now);
      ParsedAtAnyTime(cs, BundleBytes(cs, p) + rest, now, at);
    }
    if r == p.AsRead() {
      WrittenBundleParses(cs, p, [], now);
      assert ParseBundle(cs, BundleBytes(cs, p) + [], now) == Got(r, []);
    }
  }

  lemma {:induction false} PiecesAreValid(cs: Checksums, b: Bundle, mtu: i64, now: int, i: nat)
    requires b.payload.value.Payload? && |b.exts| <= MAX_LEN && FragmentFrom(cs, b, mtu, now, i).Ok?
    ensures forall p :: p in FragmentFrom(cs, b, mtu, now, i).value ==> BundleValid(p, now)
    decreases Size(b) - i
  {
    hide BundleValid, Overhead, Piece;
    if i < Size(b) {
      PiecesAreValid(cs, b, mtu, now, NextPiece(cs, b, mtu, now, i).value.1);
    }
  }

  lemma PieceIsWire(b: Bundle, i: nat, end: nat)
    requires Wire(b) && |b.exts| <= MAX_LEN && i <= end <= Size(b)
    ensures Wire(Piece(b, i, end))
  {
    hide AddAll, Value.Wire, EidWire;
    var c := Carried(b.exts, i);
    CarriedAreExtensions(b.exts, i);
    assert NoPayload(b.exts);
    AddAllRenumbers(c);
    forall k | 0 <= k < |c| ensures Renumbered(c)[k].value.Wire() && Renumbered(c)[k].TypeCode() != PAYLOAD {
      assert c[k] in b.exts;
    }
  }

  /** Every piece can be written, survives the wire and is valid when it is cut. */
  lemma PiecesTravel(cs: Checksums, b: Bundle, mtu: i64, now: int, p: Bundle)
    requires Wire(b) && Writable(b) && |b.exts| <= MAX_LEN && Fragment(cs, b, mtu, now).Ok?
    requires |Fragment(cs, b, mtu, now).value| >= 2 && p in Fragment(cs, b, mtu, now).value
    ensures Writable(p) && Wire(p) && BundleValid(p, now)
  {
    hide BundleValid, FragmentFrom, Piece, Writable, WireExts, PrimaryBlock.Wire;
    PiecesAreValid(cs, b, mtu, now, 0);
    PiecesTile(cs, b, mtu, now);
    var ps := Fragment(cs, b, mtu, now).value;
    var k :| 0 <= k < |ps| && ps[k] == p;
    assert PieceAt(ps, b, 0, k);
    PieceWritable(b, Offset(p), End(p));
    PieceIsWire(b, Offset(p), End(p));
  }

  // The theorem

  /** Each of `received` was read from a piece. */
  ghost predicate AllRead(cs: Checksums, ps: seq<Bundle>, received: seq<Bundle>) {
    forall r :: r in received ==> exists p :: p in ps && ReadFrom(cs, p, r)
  }

  /** Something was read from each piece. */
  ghost predicate NoneMissing(cs: Checksums, ps: seq<Bundle>, received: seq<Bundle>) {
    forall p :: p in ps ==> exists r :: r in received && ReadFrom(cs, p, r)
  }

  /** Nothing but `p` as a reader sees it is read from a piece `p`. */
  ghost predicate ReadAlike(cs: Checksums, ps: seq<Bundle>) {
    forall p, r :: p in ps && ReadFrom(cs, p, r) ==> r == p.AsRead()
  }

  lemma ReceivedAreRead(cs: Checksums, ps: seq<Bundle>, received: seq<Bundle>)
    requires ReadAlike(cs, ps) && AllRead(cs, ps, received) && NoneMissing(cs, ps, received)
    ensures DrawnFrom(received, AllAsRead(ps)) && forall q :: q in AllAsRead(ps) ==> q in received
  {
    hide ReadFrom, Bundle.AsRead;
    var qs := AllAsRead(ps);
    forall i | 0 <= i < |received| ensures received[i] in qs {
      assert received[i] in received;
      var p :| p in ps && ReadFrom(cs, p, received[i]);
      var k :| 0 <= k < |ps| && ps[k] == p;
      assert qs[k] == p.AsRead();
    }
    forall q | q in qs ensures q in received {
      var k :| 0 <= k < |qs| && qs[k] == q;
      assert ps[k] in ps;
      var r :| r in received && ReadFrom(cs, ps[k], r);
    }
  }

  lemma PiecesReadAlike(cs: Checksums, b: Bundle, mtu: i64, now: int)
    requires Wire(b) && Writable(b) && |b.exts| <= MAX_LEN && Fragment(cs, b, mtu, now).Ok?
    requires |Fragment(cs, b, mtu, now).value| >= 2
    ensures ReadAlike(cs, Fragment(cs, b, mtu, now).value)
  {
    hide WireExts, PrimaryBlock.Wire, Writable, Fragment, BundleValid, ReadFrom, Bundle.AsRead;
    var ps := Fragment(cs, b, mtu, now).value;
    forall p, r | p in ps && ReadFrom(cs, p, r) ensures r == p.AsRead() {
      PiecesTravel(cs, b, mtu, now, p);
      ReadIsAsRead(cs, p, r, now);
    }
  }

  /**
    * Each piece of a fragmentation is written, sent with anything behind it, and parsed, whenever,
    * any number of times but at least once; what was parsed, in whatever order, reassembles to the
    * bundle as a reader sees it, with its blocks numbered from 2.
    */
  lemma FragmentsSurviveTheWire(
      cs: Checksums, b: Bundle, mtu: i64, now: int, received: seq<Bundle>, fs: seq<Bundle>, later: int)
    requires BundleValid(b, later) && Wire(b) && Writable(b) && |b.exts| <= MAX_LEN && !b.primary.IsFragment()
    requires Fragment(cs, b, mtu, now).Ok? && |Fragment(cs, b, mtu, now).value| >= 2
    requires AllRead(cs, Fragment(cs, b, mtu, now).value, received) && NoneMissing(cs, Fragment(cs, b, mtu, now).value, received)
    requires multiset(fs) == multiset(received) && SortedBy(fs, Offset)
    ensures AllPayload(fs) && forall i :: 0 <= i < |fs| ==> |fs[i].exts| <= MAX_LEN
    ensures ReassembleSorted(fs, later) == Ok(b.AsRead().(exts := Renumbered(b.AsRead().exts)))
  {
    hide BundleValid, Writable, Fragment, ReassembleSorted, AllRead, NoneMissing, ReadAlike, SortedBy, Tiling, Complete, DrawnFrom, Renumbered;
    var qs := AllAsRead(Fragment(cs, b, mtu, now).value);
    var r := b.AsRead();
    BundleIsWhole(b, later);
    PiecesTile(cs, b, mtu, now);
    TilingAsRead(Fragment(cs, b, mtu, now).value, b);
    PiecesReadAlike(cs, b, mtu, now);
    ReceivedAreRead(cs, Fragment(cs, b, mtu, now).value, received);
    CompleteIffAllOf(qs, r, received, fs);
    AllBounded(fs, qs, r);
    PiecesReassemble(fs, qs, r, later);
  }

  lemma BundleIsWhole(b: Bundle, later: int)
    requires BundleValid(b, later) && Wire(b) && |b.exts| <= MAX_LEN && !b.primary.IsFragment()
    ensures NoPayload(b.exts) && Whole(b.AsRead()) && BundleValid(b.AsRead(), later)
    ensures !b.AsRead().primary.IsFragment() && b.AsRead().primary.offset == 0 && b.AsRead().primary.total == 0
  {
    assert NoPayload(b.exts) && b.payload.number == 1;
    NoPayloadAsRead(b.exts);
    AsReadValid(b, later);
  }

  lemma AllBounded(fs: seq<Bundle>, ps: seq<Bundle>, b: Bundle)
    requires Whole(b) && Tiling(ps, b, 0) && DrawnFrom(fs, ps)
    ensures forall i :: 0 <= i < |fs| ==> |fs[i].exts| <= MAX_LEN
  {
    hide Tiling, Whole;
    forall i | 0 <= i < |fs| ensures |fs[i].exts| <= MAX_LEN {
      PieceBlocks(ps, b, fs[i]);
    }
  }
}
