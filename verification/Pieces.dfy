/** What a fragment keeps of its bundle, and when a bundle can be fragmented at all. */
module Pieces {
  import opened Bytes
  import opened Endpoint
  import opened Block
  import opened Primary
  import opened Bundle
  import opened Numbering
  import opened Subsequences
  import opened Fragmentation
  import opened MtuBound
  import opened Reassembly

  // What a fragment keeps

  function ToReplicate(exts: seq<Canonical>): (keep: seq<bool>)
    ensures |keep| == |exts|
  {
    seq(|exts|, i requires 0 <= i < |exts| => exts[i].flags % 2 == 1)
  }

  lemma {:induction false} ReplicatedKeeps(exts: seq<Canonical>)
    ensures Replicated(exts) == Kept(exts, ToReplicate(exts))
  {
    if exts != [] {
      var n := |exts| - 1;
      ReplicatedKeeps(exts[..n]);
      assert ToReplicate(exts)[..n] == ToReplicate(exts[..n]);
    }
  }

  lemma ReplicatedPicks(exts: seq<Canonical>) returns (idx: seq<nat>)
    ensures Picks(Replicated(exts), exts, idx)
    ensures forall i :: 0 <= i < |exts| ==> (i in idx <==> exts[i].flags % 2 == 1)
  {
    hide Replicated, Kept, Picks;
    ReplicatedKeeps(exts);
    idx := KeptPicks(exts, ToReplicate(exts));
  }

  function Positions(n: nat): (idx: seq<nat>)
    ensures |idx| == n && forall i :: 0 <= i < n ==> idx[i] == i
  {
    seq(n, i => i)
  }

  lemma CarriedPicks(exts: seq<Canonical>, offset: nat) returns (idx: seq<nat>)
    ensures Picks(Carried(exts, offset), exts, idx)
    ensures forall i :: 0 <= i < |exts| ==> (i in idx <==> offset == 0 || exts[i].flags % 2 == 1)
  {
    if offset == 0 {
      idx := Positions(|exts|);
      forall i | 0 <= i < |exts| ensures i in idx {
        assert idx[i] == i;
      }
    } else {
      idx := ReplicatedPicks(exts);
    }
  }

  /** `f` is the part of `b` from its offset on, with the extension blocks `kept`, numbered from 2. */
  predicate IsPieceOf(f: Bundle, b: Bundle, kept: seq<Canonical>)
    requires b.payload.value.Payload?
  {
    && f.primary.(flags := b.primary.flags, offset := b.primary.offset, total := b.primary.total) == b.primary
    && f.primary.flags == b.primary.flags + 1 - b.primary.flags % 2
    && f.primary.total == |b.payload.value.data|
    && f.payload == Canonical(1, b.payload.flags, b.payload.crcType, f.payload.value)
    && f.payload.value.Payload?
    && var from, to := f.primary.offset, f.primary.offset + |f.payload.value.data|;
    && to <= |b.payload.value.data| && f.payload.value.data == b.payload.value.data[from..to]
    && |f.exts| == |kept| <= MAX_LEN
    && forall k :: 0 <= k < |kept| ==> f.exts[k] == kept[k].(number := k + 2)
  }

  lemma PieceIsPiece(b: Bundle, i: nat, end: nat)
    requires b.payload.value.Payload? && |b.exts| <= MAX_LEN && NoPayload(b.exts) && i <= end <= |b.payload.value.data|
    ensures IsPieceOf(Piece(b, i, end), b, Carried(b.exts, i))
  {
    hide AddAll, Carried;
    CarriedAreExtensions(b.exts, i);
    AddAllRenumbers(Carried(b.exts, i));
  }

  /**
    * Every fragment has all of the bundle's primary block but the fragment flag, offset and length;
    * its part of the payload under the same flags and checksum type; and all extension blocks, or,
    * behind the first, exactly those whose flags ask for it, in order.
    */
  lemma PiecesKeepBundle(cs: Checksums, b: Bundle, mtu: i64, now: int, f: Bundle) returns (kept: seq<Canonical>, idx: seq<nat>)
    requires b.payload.value.Payload? && |b.exts| <= MAX_LEN && NoPayload(b.exts) && Fragment(cs, b, mtu, now).Ok?
    requires |Fragment(cs, b, mtu, now).value| >= 2 && f in Fragment(cs, b, mtu, now).value
    ensures IsPieceOf(f, b, kept) && Picks(kept, b.exts, idx)
    ensures forall i :: 0 <= i < |b.exts| ==> (i in idx <==> f.primary.offset == 0 || b.exts[i].flags % 2 == 1)
  {
    hide Fragment, Piece, Picks, IsPieceOf, NoPayload;
    PiecesTile(cs, b, mtu, now);
    var ps := Fragment(cs, b, mtu, now).value;
    var k :| 0 <= k < |ps| && ps[k] == f;
    assert PieceAt(ps, b, 0, k);
    PieceIsPiece(b, Offset(f), End(f));
    kept := Carried(b.exts, Offset(f));
    idx := CarriedPicks(b.exts, Offset(f));
  }

  // When fragmentation succeeds

  /** Without a clock, the age block is what keeps a bundle valid, and it has to travel in every fragment. */
  predicate AgeTravels(b: Bundle) {
    b.primary.time == 0 ==> exists i :: 0 <= i < |b.exts| && b.exts[i].TypeCode() == BUNDLE_AGE && b.exts[i].flags % 2 == 1
  }

  lemma {:induction false} ByTypeShrinks(exts: seq<Canonical>, code: u64)
    ensures |ByType(Replicated(exts), code)| <= |ByType(exts, code)|
    decreases |exts|
  {
    if exts != [] {
      var n := |exts| - 1;
      ByTypeShrinks(exts[..n], code);
      ByTypeAppend(exts[..n], exts[n], code);
      assert exts == exts[..n] + [exts[n]];
      ByTypeAppend(Replicated(exts[..n]), exts[n], code);
      assert Replicated(exts[..n]) + [] == Replicated(exts[..n]);
    }
  }

  lemma {:induction false} ByTypeFinds(exts: seq<Canonical>, cb: Canonical)
    requires cb in exts
    ensures cb in ByType(exts, cb.TypeCode())
  {
    if exts[0] != cb {
      assert cb in exts[1..];
      ByTypeFinds(exts[1..], cb);
    }
  }

  /** Of a type that occurs once, the carried blocks have one, the same, or none. */
  lemma OneOrNone(exts: seq<Canonical>, i: nat, code: u64)
    requires |ByType(exts, code)| == 1
    ensures ByType(Carried(exts, i), code) == ByType(exts, code) || ByType(Carried(exts, i), code) == []
    ensures ByType(Carried(exts, i), code) != [] <==> i == 0 || ByType(exts, code)[0].flags % 2 == 1
  {
    hide ByType;
    var one := ByType(exts, code)[0];
    assert one in ByType(exts, code);
    var found := ByType(Carried(exts, i), code);
    if i > 0 {
      ByTypeShrinks(exts, code);
      ReplicatedSubsequence(exts);
      ReplicatedHas(exts, one);
      if one.flags % 2 == 1 {
        ByTypeFinds(Replicated(exts), one);
      }
      if found != [] {
        assert found[0] in found;
        ByTypeFinds(exts, found[0]);
        assert found == [one];
        assert one in Replicated(exts);
      }
    }
  }

  lemma {:induction false} ReplicatedHas(exts: seq<Canonical>, cb: Canonical)
    requires cb in exts
    ensures cb in Replicated(exts) <==> cb.flags % 2 == 1
  {
    var idx := ReplicatedPicks(exts);
    var i :| 0 <= i < |exts| && exts[i] == cb;
    var r := Replicated(exts);
    if cb.flags % 2 == 1 {
      var k :| 0 <= k < |idx| && idx[k] == i;
      assert r[k] == cb;
    }
    if cb in r {
      var k :| 0 <= k < |r| && r[k] == cb;
      assert idx[k] in idx;
    }
  }

  /** The carried blocks of a valid bundle are as valid as they were. */
  lemma CarriedStayValid(b: Bundle, now: int, i: nat)
    requires BundleValid(b, now)
    ensures forall k :: 0 <= k < |Carried(b.exts, i)| ==>
              Carried(b.exts, i)[k].Valid() && ContextValid(Carried(b.exts, i), Carried(b.exts, i)[k].value)
  {
    hide ByType, Carried, Canonical.Valid, LifetimeExceeded, PrimaryBlock.Valid;
    CarriedAreExtensions(b.exts, i);
    var c := Carried(b.exts, i);
    forall k | 0 <= k < |c| ensures c[k].Valid() && ContextValid(c, c[k].value) {
      assert c[k] in b.exts;
      var j :| 0 <= j < |b.exts| && b.exts[j] == c[k];
      if c[k].value.PreviousNode? || c[k].value.BundleAge? || c[k].value.HopCount? {
        OneOrNone(b.exts, i, c[k].TypeCode());
        ByTypeFinds(c, c[k]);
      }
    }
  }

  lemma AgeOf(b: Bundle, now: int)
    requires BundleValid(b, now) && b.primary.time == 0
    ensures var ages := ByType(b.exts, BUNDLE_AGE);
            |ages| == 1 && ages[0].value.BundleAge? && ages[0].value.age <= b.primary.lifetime
            && (AgeTravels(b) <==> ages[0].flags % 2 == 1)
  {
    hide Canonical.Valid, ContextValid, PrimaryBlock.Valid, ByType, Deadline, Has, DistinctNumbers;
    var ages := ByType(b.exts, BUNDLE_AGE);
    assert ages[0] in ages;
    if AgeTravels(b) {
      var i :| 0 <= i < |b.exts| && b.exts[i].TypeCode() == BUNDLE_AGE && b.exts[i].flags % 2 == 1;
      ByTypeFinds(b.exts, b.exts[i]);
      assert b.exts[i] == ages[0];
    }
    if ages[0].flags % 2 == 1 {
      assert ages[0] in b.exts;
      var i :| 0 <= i < |b.exts| && b.exts[i] == ages[0];
      assert b.exts[i].TypeCode() == BUNDLE_AGE;
    }
  }

  /** The lifetime of a fragment, by its own blocks. */
  lemma CarriedLifetime(b: Bundle, now: int, i: nat)
    requires BundleValid(b, now)
    ensures var c := Carried(b.exts, i);
            (b.primary.time == 0 ==> ByType(c, BUNDLE_AGE) != []) && !LifetimeExceeded(b.primary, c, now)
            <==> i == 0 || AgeTravels(b)
  {
    hide ByType, Carried, AgeTravels, ContextValid, Canonical.Valid, PrimaryBlock.Valid, Deadline;
    if b.primary.time == 0 {
      AgeOf(b, now);
      OneOrNone(b.exts, i, BUNDLE_AGE);
    } else {
      ClockTravels(b);
    }
  }

  lemma ClockTravels(b: Bundle)
    requires b.primary.time != 0
    ensures AgeTravels(b)
  {
  }

  lemma FragmentFlags(p: PrimaryBlock, offset: u64, total: u64)
    requires p.Valid() && !Has(p.flags, MUST_NOT_FRAGMENT)
    ensures FragmentPrimary(p, offset, total).Valid()
  {
    hide EidValid;
    var f, g := p.flags, SetFragment(p.flags);
    assert f % 2 == 0 ==> (f + 1) / 2 == f / 2;
    assert g / 2 == f / 2;
    HighBits(f, g);
  }

  lemma Multiples(a: int, d: int)
    requires d > 0
    ensures a >= 1 ==> a * d >= d
    ensures a <= -1 ==> a * d <= -d
  {
    if a >= 1 { assert a * d == (a - 1) * d + d; }
    if a <= -1 { assert a * d == (a + 1) * d - d; }
  }

  lemma QuotientIs(x: int, d: int, q: int, r: int)
    requires d > 0 && x == q * d + r && 0 <= r < d
    ensures x / d == q
  {
    var p := x / d;
    assert (p - q) * d == p * d - q * d;
    Multiples(p - q, d);
  }

  lemma HalvesFirst(x: int, k: int)
    requires k > 0
    ensures x / (2 * k) == x / 2 / k
  {
    var h := x / 2;
    var q, r := h / k, h % k;
    assert h == q * k + r;
    assert x == q * (2 * k) + (2 * r + x % 2);
    QuotientIs(x, 2 * k, q, 2 * r + x % 2);
  }

  /** Bit 0 does not touch the others. */
  lemma HighBits(f: u64, g: u64)
    requires g / 2 == f / 2
    ensures Has(g, 2) == Has(f, 2) && Has(g, 4) == Has(f, 4) && Has(g, 0x4000) == Has(f, 0x4000)
    ensures Has(g, 0x1_0000) == Has(f, 0x1_0000) && Has(g, 0x2_0000) == Has(f, 0x2_0000) && Has(g, 0x4_0000) == Has(f, 0x4_0000)
  {
    hide Has;
    HighBit(f, g, 1);
    HighBit(f, g, 2);
    HighBit(f, g, 0x2000);
    HighBit(f, g, 0x8000);
    HighBit(f, g, 0x1_0000);
    HighBit(f, g, 0x2_0000);
  }

  lemma HighBit(f: u64, g: u64, k: int)
    requires g / 2 == f / 2 && k > 0
    ensures Has(g, 2 * k) == Has(f, 2 * k)
  {
    HalvesFirst(f, k);
    HalvesFirst(g, k);
  }

  /** The blocks of a piece before they are renumbered. */
  function Unnumbered(b: Bundle, i: nat, end: nat): Bundle
    requires b.payload.value.Payload? && i <= end <= |b.payload.value.data|
  {
    Bundle(FragmentPrimary(b.primary, i, |b.payload.value.data|), Carried(b.exts, i),
           Canonical(1, b.payload.flags, b.payload.crcType, Payload(b.payload.value.data[i..end])))
  }

  lemma UnnumberedValidIff(b: Bundle, i: nat, end: nat, now: int)
    requires BundleValid(b, now) && b.payload.value.Payload? && i <= end <= |b.payload.value.data|
    requires !Has(b.primary.flags, MUST_NOT_FRAGMENT)
    ensures BundleValid(Unnumbered(b, i, end), now) <==> i == 0 || AgeTravels(b)
  {
    hide Carried, AgeTravels, ByType, ContextValid, PrimaryBlock.Valid, LifetimeExceeded, Has;
    var f := Unnumbered(b, i, end);
    CarriedStayValid(b, now, i);
    CarriedLifetime(b, now, i);
    CarriedAreExtensions(b.exts, i);
    FragmentFlags(b.primary, i, |b.payload.value.data|);
    SameLifetime(b.primary, f.primary, f.exts, now);
  }

  lemma SameLifetime(p: PrimaryBlock, q: PrimaryBlock, exts: seq<Canonical>, now: int)
    requires p.time == q.time && p.lifetime == q.lifetime
    ensures LifetimeExceeded(p, exts, now) == LifetimeExceeded(q, exts, now)
  {
  }

  lemma {:induction false} RenumberedTypes(exts: seq<Canonical>, code: u64)
    requires |exts| <= MAX_LEN
    ensures ByType(Renumbered(exts), code) == [] <==> ByType(exts, code) == []
  {
    ByTypeIgnoresNumbers(exts, Renumbered(exts), code);
  }

  /** A fragment of a valid bundle is valid exactly if it has the age block that it needs. */
  lemma PieceValidIff(b: Bundle, i: nat, end: nat, now: int)
    requires BundleValid(b, now) && b.payload.value.Payload? && i <= end <= |b.payload.value.data|
    requires |b.exts| <= MAX_LEN && NoPayload(b.exts) && !Has(b.primary.flags, MUST_NOT_FRAGMENT)
    ensures BundleValid(Piece(b, i, end), now) <==> i == 0 || AgeTravels(b)
  {
    hide BundleValid, Carried, AgeTravels, AddAll, Renumbered, NoPayload, Has;
    UnnumberedValidIff(b, i, end, now);
    CarriedAreExtensions(b.exts, i);
    AddAllRenumbers(Carried(b.exts, i));
    var f := Unnumbered(b, i, end);
    assert Piece(b, i, end) == f.(exts := Renumbered(f.exts));
    if BundleValid(f, now) {
      RenumberedStaysValid(f, now);
    } else {
      LostAge(b, now, f);
    }
  }

  lemma LostAge(b: Bundle, now: int, f: Bundle)
    requires BundleValid(b, now) && |f.exts| <= MAX_LEN && f.primary.time == b.primary.time && !AgeTravels(b)
    requires exists i: nat :: i > 0 && f.exts == Carried(b.exts, i)
    ensures !BundleValid(f.(exts := Renumbered(f.exts)), now)
  {
    hide Carried, Renumbered, ByType, ContextValid, Canonical.Valid, PrimaryBlock.Valid, LifetimeExceeded, AgeTravels;
    var i: nat :| i > 0 && f.exts == Carried(b.exts, i);
    if b.primary.time != 0 { ClockTravels(b); }
    AgeOf(b, now);
    OneOrNone(b.exts, i, BUNDLE_AGE);
    RenumberedTypes(f.exts, BUNDLE_AGE);
  }

  /** There is room in every round from offset `i` on. */
  predicate RoomInEveryRound(cs: Checksums, b: Bundle, mtu: i64, i: nat)
    requires b.payload.value.Payload? && b.primary.crcType <= CRC32
    decreases Size(b) - i
  {
    i >= Size(b) || (Room(cs, b, mtu, i) > 0 && RoomInEveryRound(cs, b, mtu, i + Room(cs, b, mtu, i)))
  }

  lemma NextPieceIff(cs: Checksums, b: Bundle, mtu: i64, now: int, i: nat)
    requires BundleValid(b, now) && b.payload.value.Payload? && |b.exts| <= MAX_LEN && NoPayload(b.exts)
    requires Writable(b) && !Has(b.primary.flags, MUST_NOT_FRAGMENT) && i < Size(b)
    ensures NextPiece(cs, b, mtu, now, i).Ok? <==> Room(cs, b, mtu, i) > 0 && (i == 0 || AgeTravels(b))
  {
    hide BundleValid, Piece, Overhead, AgeTravels, EidValid, NoPayload, Has;
    if Room(cs, b, mtu, i) > 0 {
      PieceValidIff(b, i, i + Length(cs, b, mtu, i), now);
    }
  }

  lemma {:induction false} LaterRoundsIff(cs: Checksums, b: Bundle, mtu: i64, now: int, i: nat)
    requires BundleValid(b, now) && b.payload.value.Payload? && |b.exts| <= MAX_LEN && NoPayload(b.exts)
    requires Writable(b) && !Has(b.primary.flags, MUST_NOT_FRAGMENT) && i > 0
    ensures FragmentFrom(cs, b, mtu, now, i).Ok? <==> i >= Size(b) || (RoomInEveryRound(cs, b, mtu, i) && AgeTravels(b))
    decreases Size(b) - i
  {
    hide BundleValid, NextPiece, Room, AgeTravels, Writable, NoPayload, Has;
    if i < Size(b) {
      NextPieceIff(cs, b, mtu, now, i);
      if NextPiece(cs, b, mtu, now, i).Ok? {
        NextPieceShape(cs, b, mtu, now, i);
        LaterRoundsIff(cs, b, mtu, now, i + Room(cs, b, mtu, i));
      }
    }
  }

  lemma ValidIsMeasurable(b: Bundle, now: int)
    requires BundleValid(b, now)
    ensures Measurable(b.exts)
  {
    hide EidValid, LifetimeExceeded, ContextValid, PrimaryBlock.Valid;
    forall i | 0 <= i < |b.exts| ensures Measured(b.exts[i]).Writable() {
      assert b.exts[i].Valid();
    }
  }

  /**
    * Fragmentation of a valid bundle succeeds exactly if its flags allow it, there is room in every
    * round, and either one piece is enough or a bundle without a clock has its age block replicated.
    */
  lemma FragmentSucceedsIff(cs: Checksums, b: Bundle, mtu: i64, now: int)
    requires BundleValid(b, now) && b.payload.value.Payload? && |b.exts| <= MAX_LEN && NoPayload(b.exts) && Writable(b)
    ensures Fragment(cs, b, mtu, now).Ok? <==>
              && b.primary.flags / 4 % 2 == 0
              && RoomInEveryRound(cs, b, mtu, 0)
              && (Size(b) == 0 || Size(b) <= Room(cs, b, mtu, 0) || AgeTravels(b))
  {
    hide BundleValid, NextPiece, Room, AgeTravels, Writable, NoPayload, Measurable;
    ValidIsMeasurable(b, now);
    if !Has(b.primary.flags, MUST_NOT_FRAGMENT) && Size(b) > 0 {
      NextPieceIff(cs, b, mtu, now, 0);
      if NextPiece(cs, b, mtu, now, 0).Ok? {
        NextPieceShape(cs, b, mtu, now, 0);
        LaterRoundsIff(cs, b, mtu, now, Room(cs, b, mtu, 0));
      }
    }
  }
}
