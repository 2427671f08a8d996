/** Bundles: validity, writing to and parsing from a byte stream (section 4.1 of RFC 9171). */
module Bundle {
  import opened Bytes
  import opened Cbor
  import opened Endpoint
  import opened Block
  import opened Primary

  datatype Bundle = Bundle(primary: PrimaryBlock, exts: seq<Canonical>, payload: Canonical) {
    /** The bundle as a reader of its bytes sees it. */
    function AsRead(): Bundle { Bundle(primary, AsReadAll(exts), payload.AsRead()) }
  }

  function AsReadAll(exts: seq<Canonical>): (r: seq<Canonical>)
    ensures |r| == |exts|
  {
    seq(|exts|, i requires 0 <= i < |exts| => exts[i].AsRead())
  }

  /** The extension blocks with a given type code, in order. */
  function ByType(exts: seq<Canonical>, code: u64): (r: seq<Canonical>)
    ensures forall cb :: cb in r ==> cb in exts && cb.TypeCode() == code
  {
    if exts == [] then []
    else (if exts[0].TypeCode() == code then [exts[0]] else []) + ByType(exts[1..], code)
  }

  predicate DistinctNumbers(exts: seq<Canonical>) {
    forall i, j :: 0 <= i < j < |exts| ==> exts[i].number != exts[j].number
  }

  /** Previous-node, age and hop-count blocks must be the only block of their type. */
  predicate ContextValid(exts: seq<Canonical>, v: Value) {
    v.PreviousNode? || v.BundleAge? || v.HopCount? ==> |ByType(exts, v.TypeCode())| == 1
  }

  /** The instant, in nanoseconds since 1970, at which a bundle with a clock-based timestamp expires. */
  function Deadline(time: u64, lifetime: u64): int {
    WrapInt64(WrapInt64(time) + 946684800000) * 1000000 + WrapInt64(lifetime * 1000000)
  }

  predicate LifetimeExceeded(p: PrimaryBlock, exts: seq<Canonical>, now: int) {
    if p.time == 0 then
      var ages := ByType(exts, BUNDLE_AGE);
      |ages| == 1 && ages[0].value.BundleAge? ==> ages[0].value.age > p.lifetime
    else now > Deadline(p.time, p.lifetime)
  }

  predicate BundleValid(b: Bundle, now: int) {
    && b.primary.Valid()
    && (forall i :: 0 <= i < |b.exts| ==> b.exts[i].Valid() && ContextValid(b.exts, b.exts[i].value))
    && b.payload.Valid()
    && !Has(b.payload.flags, STATUS_REPORT_BLOCK)
    && DistinctNumbers(b.exts)
    && (b.primary.time == 0 ==> ByType(b.exts, BUNDLE_AGE) != [])
    && !LifetimeExceeded(b.primary, b.exts, now)
  }

  predicate AllWritable(exts: seq<Canonical>) {
    forall i :: 0 <= i < |exts| ==> exts[i].Writable()
  }

  predicate Writable(b: Bundle) {
    b.primary.Writable() && AllWritable(b.exts) && b.payload.Writable()
  }

  predicate WireExts(exts: seq<Canonical>) {
    forall i :: 0 <= i < |exts| ==> exts[i].value.Wire() && exts[i].TypeCode() != PAYLOAD
  }

  /** Every part of the bundle survives a trip over the wire, in the place where it stands. */
  predicate Wire(b: Bundle) {
    b.primary.Wire() && WireExts(b.exts) && b.payload.value.Payload?
  }

  // Writing

  function BlocksBytes(cs: Checksums, exts: seq<Canonical>): (s: bytes)
    requires AllWritable(exts)
    ensures |s| == BlocksSize(exts)
  {
    if exts == [] then [] else CanonicalBytes(cs, exts[0]) + BlocksBytes(cs, exts[1..])
  }

  function BlocksSize(exts: seq<Canonical>): (n: int) {
    if exts == [] then 0 else CanonicalSize(exts[0]) + BlocksSize(exts[1..])
  }

  function BundleBytes(cs: Checksums, b: Bundle): (s: bytes)
    requires Writable(b)
    ensures |s| == 2 + |PrimaryBytes(cs, b.primary)| + BlocksSize(b.exts) + CanonicalSize(b.payload)
  {
    [INDEFINITE_ARRAY]
    + (PrimaryBytes(cs, b.primary) + (BlocksBytes(cs, b.exts) + (CanonicalBytes(cs, b.payload) + [BREAK_CODE])))
  }

  function WriteBundle(cs: Checksums, b: Bundle): (r: Result<bytes>) {
    if Writable(b) then Ok(BundleBytes(cs, b)) else Err(Malformed)
  }

  lemma Nested(primary: bytes, exts: bytes, payload: bytes, rest: bytes)
    ensures [INDEFINITE_ARRAY] + primary + exts + payload + [BREAK_CODE]
            == [INDEFINITE_ARRAY] + (primary + (exts + (payload + [BREAK_CODE])))
    ensures var s := [INDEFINITE_ARRAY] + (primary + (exts + (payload + [BREAK_CODE]))) + rest;
            s[0] == INDEFINITE_ARRAY && s[1..] == primary + (exts + (payload + ([BREAK_CODE] + rest)))
  {
  }

  lemma BlocksUnfold(cs: Checksums, exts: seq<Canonical>)
    requires exts != [] && AllWritable(exts)
    ensures exts[0].Writable() && AllWritable(exts[1..])
    ensures BlocksBytes(cs, exts) == CanonicalBytes(cs, exts[0]) + BlocksBytes(cs, exts[1..])
  {
    hide CanonicalBytes, EidValid;
  }

  lemma OneBlock(cs: Checksums, cb: Canonical)
    requires cb.Writable()
    ensures AllWritable([cb]) && BlocksBytes(cs, [cb]) == CanonicalBytes(cs, cb)
    ensures BlocksBytes(cs, []) + CanonicalBytes(cs, cb) == CanonicalBytes(cs, cb)
  {
    hide CanonicalBytes, EidValid;
    assert [cb][1..] == [];
    assert CanonicalBytes(cs, cb) + [] == CanonicalBytes(cs, cb);
  }

  lemma AppendWritable(exts: seq<Canonical>, cb: Canonical)
    requires AllWritable(exts) && cb.Writable()
    ensures AllWritable(exts + [cb])
  {
    hide EidValid;
  }

  lemma {:induction false} BlocksBytesAppend(cs: Checksums, exts: seq<Canonical>, cb: Canonical)
    requires AllWritable(exts) && cb.Writable()
    ensures AllWritable(exts + [cb])
    ensures BlocksBytes(cs, exts + [cb]) == BlocksBytes(cs, exts) + CanonicalBytes(cs, cb)
  {
    hide CanonicalBytes, EidValid, BlocksBytes, AllWritable;
    AppendWritable(exts, cb);
    if exts == [] {
      assert exts + [cb] == [cb];
      OneBlock(cs, cb);
    } else {
      BlocksUnfold(cs, exts);
      BlocksUnfold(cs, exts + [cb]);
      assert (exts + [cb])[0] == exts[0] && (exts + [cb])[1..] == exts[1..] + [cb];
      BlocksBytesAppend(cs, exts[1..], cb);
      Assoc(CanonicalBytes(cs, exts[0]), BlocksBytes(cs, exts[1..]), CanonicalBytes(cs, cb));
    }
  }

  /** Appends blocks to `w`; the first one that cannot be written is an error. */
  method MarshalBlocks(cs: Checksums, exts: seq<Canonical>, w: bytes) returns (r: Result<bytes>)
    ensures r == if AllWritable(exts) then Ok(w + BlocksBytes(cs, exts)) else Err(Malformed)
  {
    hide CanonicalBytes, EidValid;
    var out := w;
    for i := 0 to |exts|
      invariant AllWritable(exts[..i])
      invariant out == w + BlocksBytes(cs, exts[..i])
    {
      if !exts[i].Writable() { return Err(Malformed); }
      assert exts[..i + 1] == exts[..i] + [exts[i]];
      BlocksBytesAppend(cs, exts[..i], exts[i]);
      Assoc(w, BlocksBytes(cs, exts[..i]), CanonicalBytes(cs, exts[i]));
      out := out + CanonicalBytes(cs, exts[i]);
    }
    assert exts[..|exts|] == exts;
    return Ok(out);
  }

  /** Writes the parts of a bundle one after the other. */
  method MarshalBundle(cs: Checksums, b: Bundle) returns (r: Result<bytes>)
    ensures r == WriteBundle(cs, b)
  {
    hide PrimaryBytes, CanonicalBytes, BlocksBytes, EidValid;
    if !b.primary.Writable() { return Err(Malformed); }
    var w := MarshalBlocks(cs, b.exts, [INDEFINITE_ARRAY] + PrimaryBytes(cs, b.primary));
    if w.Err? || !b.payload.Writable() { return Err(Malformed); }
    Nested(PrimaryBytes(cs, b.primary), BlocksBytes(cs, b.exts), CanonicalBytes(cs, b.payload), []);
    return Ok(w.value + CanonicalBytes(cs, b.payload) + [BREAK_CODE]);
  }

  // Parsing

  datatype Blocks = Blocks(exts: seq<Canonical>, payload: Option<Canonical>)

  /** Reads blocks up to the break code. A later payload block replaces an earlier one. */
  function ParseBlocks(cs: Checksums, s: bytes, acc: Blocks): (r: Parse<Blocks>)
    ensures r.Got? ==> |r.rest| < |s|
    decreases |s|
  {
    match ReadCanonical(cs, s)
    case Got(cb, rest) => ParseBlocks(cs, rest, AddBlock(acc, cb))
    case Fail(Break(after)) => Got(acc, after)
    case Fail(_) => Fail(Malformed)
  }

  function AddBlock(acc: Blocks, cb: Canonical): Blocks {
    if cb.TypeCode() == PAYLOAD then acc.(payload := Some(cb)) else acc.(exts := acc.exts + [cb])
  }

  /** A bundle without payload block makes the final validity check dereference a missing value. */
  function FinishBundle(p: PrimaryBlock, blocks: Blocks, now: int): (r: Result<Bundle>) {
    if blocks.payload.None? then Err(Panic)
    else
      var b := Bundle(p, blocks.exts, blocks.payload.value);
      if BundleValid(b, now) then Ok(b) else Err(Malformed)
  }

  function ParseBundle(cs: Checksums, s: bytes, now: int): (r: Parse<Bundle>)
    ensures r.Got? ==> |r.rest| < |s|
  {
    if s == [] || s[0] != INDEFINITE_ARRAY then Fail(Malformed)
    else
      match ReadPrimary(cs, s[1..])
      case Fail(_) => Fail(Malformed)
      case Got(p, rest) =>
        var (blocks, after) :- ParseBlocks(cs, rest, Blocks([], None));
        match FinishBundle(p, blocks, now)
        case Ok(b) => Got(b, after)
        case Err(e) => Fail(e)
  }

  /** The parser's loop over the blocks of a stream. */
  method UnmarshalBundle(cs: Checksums, s: bytes, now: int) returns (r: Parse<Bundle>)
    ensures r == ParseBundle(cs, s, now)
  {
    if s == [] || s[0] != INDEFINITE_ARRAY { return Fail(Malformed); }
    var primary := ReadPrimary(cs, s[1..]);
    if primary.Fail? { return Fail(Malformed); }
    var rest, blocks := primary.rest, Blocks([], None);
    while true
      invariant ParseBlocks(cs, rest, blocks) == ParseBlocks(cs, primary.rest, Blocks([], None))
      decreases |rest|
    {
      match ReadCanonical(cs, rest) {
        case Got(cb, after) =>
          if cb.TypeCode() == PAYLOAD {
            blocks := blocks.(payload := Some(cb));
          } else {
            blocks := blocks.(exts := blocks.exts + [cb]);
          }
          rest := after;
        case Fail(Break(after)) =>
          match FinishBundle(primary.value, blocks, now) {
            case Ok(b) => return Got(b, after);
            case Err(e) => return Fail(e);
          }
        case Fail(_) =>
          return Fail(Malformed);
      }
    }
  }

  // Round trip

  /** The blocks of a written bundle, read into an accumulator, down to the break code. */
  lemma {:induction false} BlocksRoundTrip(cs: Checksums, exts: seq<Canonical>, payload: Canonical, rest: bytes, acc: Blocks)
    requires AllWritable(exts) && WireExts(exts) && payload.Writable() && payload.value.Payload?
    ensures ParseBlocks(cs, BlocksBytes(cs, exts) + (CanonicalBytes(cs, payload) + ([BREAK_CODE] + rest)), acc)
            == Got(Blocks(acc.exts + AsReadAll(exts), Some(payload)), rest)
  {
    hide ReadCanonical, CanonicalBytes;
    var tail := CanonicalBytes(cs, payload) + ([BREAK_CODE] + rest);
    if exts == [] {
      assert [] + tail == tail;
      CanonicalRoundTrip(cs, payload, [BREAK_CODE] + rest);
      BreakEndsBlocks(cs, rest);
      assert acc.exts + AsReadAll([]) == acc.exts;
    } else {
      var first, more := exts[0], BlocksBytes(cs, exts[1..]);
      Assoc(CanonicalBytes(cs, first), more, tail);
      CanonicalRoundTrip(cs, first, more + tail);
      assert first.AsRead().TypeCode() == first.TypeCode();
      BlocksRoundTrip(cs, exts[1..], payload, rest, AddBlock(acc, first.AsRead()));
      assert acc.exts + [first.AsRead()] + AsReadAll(exts[1..]) == acc.exts + AsReadAll(exts);
    }
  }

  lemma {:induction false} ByTypeAppend(exts: seq<Canonical>, cb: Canonical, code: u64)
    ensures ByType(exts + [cb], code) == ByType(exts, code) + if cb.TypeCode() == code then [cb] else []
  {
    if exts == [] {
      assert exts + [cb] == [cb] && [cb][1..] == [];
    } else {
      assert (exts + [cb])[1..] == exts[1..] + [cb];
      ByTypeAppend(exts[1..], cb, code);
    }
  }

  lemma {:induction false} ByTypeAsRead(exts: seq<Canonical>, code: u64)
    ensures ByType(AsReadAll(exts), code) == AsReadAll(ByType(exts, code))
  {
    if exts != [] {
      ByTypeAsRead(exts[1..], code);
      assert AsReadAll(exts)[1..] == AsReadAll(exts[1..]);
      assert exts[0].AsRead().TypeCode() == exts[0].TypeCode();
    }
  }

  /** A block and what is read of it look the same to the validity check. */
  lemma AsReadBlock(exts: seq<Canonical>, i: nat)
    requires i < |exts|
    ensures AsReadAll(exts)[i] == exts[i].AsRead() && AsReadAll(exts)[i].number == exts[i].number
    ensures AsReadAll(exts)[i].Valid() == exts[i].Valid()
    ensures ContextValid(AsReadAll(exts), AsReadAll(exts)[i].value) == ContextValid(exts, exts[i].value)
  {
    hide ByType, Has, EidValid;
    ByTypeAsRead(exts, exts[i].TypeCode());
  }

  lemma AsReadLifetime(p: PrimaryBlock, exts: seq<Canonical>, now: int)
    ensures LifetimeExceeded(p, AsReadAll(exts), now) == LifetimeExceeded(p, exts, now)
    ensures ByType(AsReadAll(exts), BUNDLE_AGE) == [] <==> ByType(exts, BUNDLE_AGE) == []
  {
    hide ByType, Deadline;
    ByTypeAsRead(exts, BUNDLE_AGE);
  }

  /** Reading does not change what the validity check looks at. */
  lemma AsReadValid(b: Bundle, now: int)
    requires b.payload.value.Payload?
    ensures BundleValid(b.AsRead(), now) == BundleValid(b, now)
  {
    hide Has, PrimaryBlock.Valid, LifetimeExceeded, ContextValid, ByType, AsReadAll, Canonical.Valid, EidValid;
    var r := AsReadAll(b.exts);
    AsReadLifetime(b.primary, b.exts, now);
    forall i | 0 <= i < |b.exts|
      ensures r[i].number == b.exts[i].number
      ensures r[i].Valid() == b.exts[i].Valid()
      ensures ContextValid(r, r[i].value) == ContextValid(b.exts, b.exts[i].value)
    {
      AsReadBlock(b.exts, i);
    }
  }

  lemma ValidBasics(b: Bundle, now: int)
    requires BundleValid(b, now)
    ensures b.primary.version == VERSION && (b.payload.value.Payload? ==> b.payload.number == 1)
  {
  }

  lemma BundleLayout(cs: Checksums, b: Bundle, rest: bytes)
    requires Writable(b)
    ensures var s := BundleBytes(cs, b) + rest;
            var blocks := BlocksBytes(cs, b.exts) + (CanonicalBytes(cs, b.payload) + ([BREAK_CODE] + rest));
            s[0] == INDEFINITE_ARRAY && s[1..] == PrimaryBytes(cs, b.primary) + blocks
  {
    hide PrimaryBytes, CanonicalBytes, BlocksBytes;
    Nested(PrimaryBytes(cs, b.primary), BlocksBytes(cs, b.exts), CanonicalBytes(cs, b.payload), rest);
  }

  /** The stages of `ParseBundle`, put together. */
  lemma ParseStages(cs: Checksums, s: bytes, now: int, b: Bundle, rest: bytes, after: bytes)
    requires s != [] && s[0] == INDEFINITE_ARRAY && ReadPrimary(cs, s[1..]) == Got(b.primary, rest)
    requires ParseBlocks(cs, rest, Blocks([], None)) == Got(Blocks(b.exts, Some(b.payload)), after)
    requires BundleValid(b, now)
    ensures ParseBundle(cs, s, now) == Got(b, after)
  {
    hide ReadPrimary, ParseBlocks, BundleValid;
  }

  lemma WrittenBundleParses(cs: Checksums, b: Bundle, rest: bytes, now: int)
    requires Writable(b) && BundleValid(b, now) && Wire(b)
    ensures ParseBundle(cs, BundleBytes(cs, b) + rest, now) == Got(b.AsRead(), rest)
  {
    hide ReadPrimary, PrimaryBytes, CanonicalBytes, BlocksBytes, BundleBytes, ParseBlocks, BundleValid, ParseBundle;
    hide EidValid, PrimaryBlock.Wire, WireExts, AsReadAll;
    ValidBasics(b, now);
    var blocks := BlocksBytes(cs, b.exts) + (CanonicalBytes(cs, b.payload) + ([BREAK_CODE] + rest));
    BundleLayout(cs, b, rest);
    PrimaryRoundTrip(cs, b.primary, blocks);
    BlocksRoundTrip(cs, b.exts, b.payload, rest, Blocks([], None));
    assert [] + AsReadAll(b.exts) == AsReadAll(b.exts);
    AsReadValid(b, now);
    ParseStages(cs, BundleBytes(cs, b) + rest, now, b.AsRead(), blocks, rest);
  }

  /** Whatever the stream, the blocks a parser collects are wire-representable and in their places. */
  lemma {:induction false} ParsedBlocksAreWire(cs: Checksums, s: bytes, acc: Blocks)
    requires WireExts(acc.exts) && (acc.payload.Some? ==> acc.payload.value.value.Payload?)
    requires ParseBlocks(cs, s, acc).Got?
    ensures var r := ParseBlocks(cs, s, acc).value;
            WireExts(r.exts) && (r.payload.Some? ==> r.payload.value.value.Payload?)
    decreases |s|
  {
    var r := ReadCanonical(cs, s);
    if r.Got? {
      ParsedBlocksAreWire(cs, r.rest, AddBlock(acc, r.value));
    }
  }

  lemma ParsedIsWire(cs: Checksums, b: Bundle, rest: bytes, now: int)
    requires Writable(b) && ParseBundle(cs, BundleBytes(cs, b) + rest, now) == Got(b.AsRead(), rest)
    ensures Wire(b)
  {
    hide ReadPrimary, PrimaryBytes, CanonicalBytes, BlocksBytes, BundleBytes, BundleValid, ReadCanonical;
    var s := BundleBytes(cs, b) + rest;
    BundleLayout(cs, b, rest);
    PrimaryLengthRead(cs, b.primary, BlocksBytes(cs, b.exts) + (CanonicalBytes(cs, b.payload) + ([BREAK_CODE] + rest)));
    var p := ReadPrimary(cs, s[1..]);
    assert p.Got? && p.value == b.primary;
    ParsedBlocksAreWire(cs, p.rest, Blocks([], None));
    var read := b.AsRead();
    assert WireExts(read.exts) && read.payload.value.Payload?;
    forall i | 0 <= i < |b.exts|
      ensures b.exts[i].value.Wire() && b.exts[i].TypeCode() != PAYLOAD
    {
      assert read.exts[i] == b.exts[i].AsRead();
    }
  }

  /**
    * For a valid bundle that can be written, parsing the written bytes returns the bundle and leaves
    * what follows unread exactly when the bundle is wire-representable.
    */
  lemma ParseUndoesWrite(cs: Checksums, b: Bundle, rest: bytes, now: int)
    requires BundleValid(b, now) && WriteBundle(cs, b).Ok?
    ensures ParseBundle(cs, WriteBundle(cs, b).value + rest, now) == Got(b.AsRead(), rest) <==> Wire(b)
  {
    if Wire(b) {
      WrittenBundleParses(cs, b, rest, now);
    }
    if ParseBundle(cs, BundleBytes(cs, b) + rest, now) == Got(b.AsRead(), rest) {
      ParsedIsWire(cs, b, rest, now);
    }
  }

  lemma {:induction false} BlocksAsReadBytes(cs: Checksums, exts: seq<Canonical>)
    requires AllWritable(exts)
    ensures AllWritable(AsReadAll(exts)) && BlocksBytes(cs, AsReadAll(exts)) == BlocksBytes(cs, exts)
  {
    hide CanonicalBytes;
    if exts != [] {
      AsReadBytes(cs, exts[0]);
      BlocksAsReadBytes(cs, exts[1..]);
      assert AsReadAll(exts)[1..] == AsReadAll(exts[1..]);
      forall i | 0 <= i < |exts| ensures AsReadAll(exts)[i].Writable() {
        assert exts[i].Writable();
      }
    }
  }

  /** Writing what was parsed gives the bytes it was parsed from. */
  lemma RewriteIsStable(cs: Checksums, b: Bundle, rest: bytes, now: int)
    requires BundleValid(b, now) && Writable(b) && Wire(b)
    ensures var parsed := ParseBundle(cs, BundleBytes(cs, b) + rest, now);
            parsed.Got? && WriteBundle(cs, parsed.value) == WriteBundle(cs, b)
  {
    WrittenBundleParses(cs, b, rest, now);
    BlocksAsReadBytes(cs, b.exts);
    AsReadBytes(cs, b.payload);
  }
}
