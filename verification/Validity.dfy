/** Which bundles are valid, rule by rule, and that the parser returns no other. */
module Validity {
  import opened Bytes
  import opened Endpoint
  import opened Block
  import opened Primary
  import opened Bundle
  import opened Subsequences

  // Blocks of a type

  function OfType(exts: seq<Canonical>, code: u64): (keep: seq<bool>)
    ensures |keep| == |exts|
  {
    seq(|exts|, i requires 0 <= i < |exts| => exts[i].TypeCode() == code)
  }

  lemma {:induction false} ByTypeKeeps(exts: seq<Canonical>, code: u64)
    ensures ByType(exts, code) == Kept(exts, OfType(exts, code))
    decreases |exts|
  {
    if exts != [] {
      var n := |exts| - 1;
      ByTypeKeeps(exts[..n], code);
      assert exts == exts[..n] + [exts[n]] && OfType(exts, code)[..n] == OfType(exts[..n], code);
      ByTypeAppend(exts[..n], exts[n], code);
    }
  }

  /** The blocks of a type are exactly those with its code, in order. */
  lemma ByTypePicks(exts: seq<Canonical>, code: u64) returns (idx: seq<nat>)
    ensures Picks(ByType(exts, code), exts, idx)
    ensures forall i :: 0 <= i < |exts| ==> (i in idx <==> exts[i].TypeCode() == code)
  {
    hide ByType, Kept, Picks;
    ByTypeKeeps(exts, code);
    idx := KeptPicks(exts, OfType(exts, code));
  }

  predicate NoTwo(exts: seq<Canonical>, code: u64) {
    forall i, j :: 0 <= i < j < |exts| ==> !(exts[i].TypeCode() == code && exts[j].TypeCode() == code)
  }

  lemma HowMany(exts: seq<Canonical>, code: u64)
    ensures |ByType(exts, code)| <= 1 <==> NoTwo(exts, code)
    ensures ByType(exts, code) != [] <==> exists i :: 0 <= i < |exts| && exts[i].TypeCode() == code
  {
    hide ByType, Canonical.TypeCode;
    var idx := ByTypePicks(exts, code);
    if i, j :| 0 <= i < j < |exts| && exts[i].TypeCode() == code && exts[j].TypeCode() == code {
      assert i in idx && j in idx;
    }
    if |idx| >= 2 {
      assert idx[0] in idx && idx[1] in idx && idx[0] < idx[1];
    }
    if |idx| >= 1 {
      assert idx[0] in idx;
    }
  }

  // The rules

  /** What the bundle flags and endpoints must be (sections 4.2.3 and 4.3.1 of RFC 9171). */
  predicate PrimaryRules(p: PrimaryBlock) {
    var noReports := && p.flags / 0x4000 % 2 == 0 && p.flags / 0x1_0000 % 2 == 0
                     && p.flags / 0x2_0000 % 2 == 0 && p.flags / 0x4_0000 % 2 == 0;
    && p.version == 7
    && !(p.flags % 2 == 1 && p.flags / 4 % 2 == 1)
    && (p.flags / 2 % 2 == 1 ==> noReports)
    && (p.source.DtnNone? ==> p.flags / 4 % 2 == 1 && noReports)
    && NoZeroes(p.destination) && NoZeroes(p.source) && NoZeroes(p.reportTo)
  }

  /** Numbers of ipn endpoints start at 1. */
  predicate NoZeroes(e: Eid) {
    e.Ipn? ==> e.number >= 1 && e.service >= 1
  }

  predicate BlockRules(exts: seq<Canonical>) {
    && (forall i :: 0 <= i < |exts| ==>
          && (exts[i].value.HopCount? ==> exts[i].value.count <= exts[i].value.limit)
          && (exts[i].value.PreviousNode? ==> NoZeroes(exts[i].value.eid)))
    && (forall i, j :: 0 <= i < j < |exts| ==> exts[i].number != exts[j].number)
    && NoTwo(exts, PREVIOUS_NODE) && NoTwo(exts, BUNDLE_AGE) && NoTwo(exts, HOP_COUNT)
  }

  /** Without a clock there is an age block within the lifetime; with one the deadline has not passed. */
  predicate InTime(p: PrimaryBlock, exts: seq<Canonical>, now: int) {
    if p.time == 0 then exists i :: 0 <= i < |exts| && exts[i].value.BundleAge? && exts[i].value.age <= p.lifetime
    else now <= Deadline(p.time, p.lifetime)
  }

  /** The parts of the bundle are such as a parser returns. */
  predicate Parsed(b: Bundle) {
    && EidWire(b.primary.destination) && EidWire(b.primary.source) && EidWire(b.primary.reportTo)
    && WireExts(b.exts) && b.payload.value.Payload?
  }

  lemma EidRules(e: Eid)
    requires EidWire(e)
    ensures EidValid(e) <==> NoZeroes(e)
  {
    if e.Dtn? { WireDtnIsValid(e); }
  }

  lemma PrimaryValidIff(p: PrimaryBlock)
    requires EidWire(p.destination) && EidWire(p.source) && EidWire(p.reportTo)
    ensures p.Valid() <==> PrimaryRules(p)
  {
    hide EidValid, EidWire, NoZeroes;
    EidRules(p.destination);
    EidRules(p.source);
    EidRules(p.reportTo);
  }

  lemma TheOnlyOne(exts: seq<Canonical>, code: u64)
    ensures NoTwo(exts, code) <==> forall i :: 0 <= i < |exts| && exts[i].TypeCode() == code ==> |ByType(exts, code)| == 1
  {
    hide ByType, NoTwo;
    HowMany(exts, code);
  }

  lemma ValueRules(v: Value)
    requires v.Wire()
    ensures v.Valid() <==> (v.HopCount? ==> v.count <= v.limit) && (v.PreviousNode? ==> NoZeroes(v.eid))
    ensures v.PreviousNode? <==> v.TypeCode() == PREVIOUS_NODE
    ensures v.BundleAge? <==> v.TypeCode() == BUNDLE_AGE
    ensures v.HopCount? <==> v.TypeCode() == HOP_COUNT
  {
    hide EidValid, NoZeroes, EidWire;
    if v.PreviousNode? { EidRules(v.eid); }
  }

  /** Every block meets its own rules. */
  lemma EachValidIff(exts: seq<Canonical>)
    requires WireExts(exts)
    ensures (forall i :: 0 <= i < |exts| ==> exts[i].Valid()) <==>
            (forall i :: 0 <= i < |exts| ==>
               && (exts[i].value.HopCount? ==> exts[i].value.count <= exts[i].value.limit)
               && (exts[i].value.PreviousNode? ==> NoZeroes(exts[i].value.eid)))
  {
    forall i | 0 <= i < |exts|
      ensures exts[i].Valid() <==> && (exts[i].value.HopCount? ==> exts[i].value.count <= exts[i].value.limit)
                                   && (exts[i].value.PreviousNode? ==> NoZeroes(exts[i].value.eid))
    {
      ValueRules(exts[i].value);
    }
    hide WireExts, NoZeroes, Canonical.Valid;
  }

  lemma ContextValidIff(exts: seq<Canonical>)
    requires WireExts(exts)
    ensures (forall i :: 0 <= i < |exts| ==> ContextValid(exts, exts[i].value)) <==>
              NoTwo(exts, PREVIOUS_NODE) && NoTwo(exts, BUNDLE_AGE) && NoTwo(exts, HOP_COUNT)
  {
    hide ByType, NoTwo, Value.TypeCode, Value.Valid, NoZeroes;
    TheOnlyOne(exts, PREVIOUS_NODE);
    TheOnlyOne(exts, BUNDLE_AGE);
    TheOnlyOne(exts, HOP_COUNT);
    forall i | 0 <= i < |exts|
      ensures exts[i].value.PreviousNode? <==> exts[i].TypeCode() == PREVIOUS_NODE
      ensures exts[i].value.BundleAge? <==> exts[i].TypeCode() == BUNDLE_AGE
      ensures exts[i].value.HopCount? <==> exts[i].TypeCode() == HOP_COUNT
    {
      ValueRules(exts[i].value);
    }
  }

  lemma InTimeIff(p: PrimaryBlock, exts: seq<Canonical>, now: int)
    requires WireExts(exts) && NoTwo(exts, BUNDLE_AGE)
    ensures (p.time == 0 ==> ByType(exts, BUNDLE_AGE) != []) && !LifetimeExceeded(p, exts, now) <==> InTime(p, exts, now)
  {
    hide ByType, NoTwo, Deadline;
    HowMany(exts, BUNDLE_AGE);
    var idx := ByTypePicks(exts, BUNDLE_AGE);
    var ages := ByType(exts, BUNDLE_AGE);
    if ages != [] {
      ValueRules(exts[idx[0]].value);
    }
    if i :| 0 <= i < |exts| && exts[i].value.BundleAge? {
      assert i in idx;
    }
  }

  /** A bundle as a parser returns it is valid exactly if it keeps all the rules. */
  lemma ValidIff(b: Bundle, now: int)
    requires Parsed(b)
    ensures BundleValid(b, now) <==>
              && PrimaryRules(b.primary) && BlockRules(b.exts) && InTime(b.primary, b.exts, now)
              && b.payload.number == 1 && b.payload.flags / 2 % 2 == 0
  {
    hide PrimaryBlock.Valid, PrimaryRules, ByType, ContextValid, LifetimeExceeded, InTime, NoTwo, WireExts, EidWire, NoZeroes;
    PrimaryValidIff(b.primary);
    EachValidIff(b.exts);
    ContextValidIff(b.exts);
    if NoTwo(b.exts, BUNDLE_AGE) {
      InTimeIff(b.primary, b.exts, now);
    }
  }

  /** On every stream the parser returns bundles that keep all the rules. */
  lemma ParsedIsSound(cs: Checksums, s: bytes, now: int)
    requires ParseBundle(cs, s, now).Got?
    ensures var b := ParseBundle(cs, s, now).value;
            && Parsed(b) && PrimaryRules(b.primary) && BlockRules(b.exts) && InTime(b.primary, b.exts, now)
            && b.payload.number == 1 && b.payload.flags / 2 % 2 == 0
  {
    hide ReadPrimary, ParseBlocks, BundleValid, PrimaryRules, BlockRules, InTime;
    ParsedBlocksAreWire(cs, ReadPrimary(cs, s[1..]).rest, Blocks([], None));
    ValidIff(ParseBundle(cs, s, now).value, now);
  }
}
