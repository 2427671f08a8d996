/** The skipping parser: it decodes only wanted block types and agrees with the full parser on them. */
module PartialParse {
  import opened Bytes
  import opened Cbor
  import opened Block
  import opened Primary
  import opened Bundle
  import opened Subsequences

  const I64_LIMIT := 0x8000_0000_0000_0000

  datatype Partial = Partial(primary: PrimaryBlock, exts: seq<Canonical>)

  /** One round of the skipping parser: a block, the end of the blocks, or a failure. */
  datatype Round =
    | Seen(wanted: bool, block: Canonical, rest: bytes)
    | Ended
    | Failed(error: Error)

  /**
    * A failure after the block's value is known: the caller takes the break code, and any failure
    * inside a payload block, for the end of the blocks.
    */
  function LateFailure(code: u64, e: Error): Round {
    if e.Break? || code == PAYLOAD then Ended else Failed(Malformed)
  }

  /**
    * Skips `n` bytes, where the code has a signed length. A seekable reader may be moved behind the
    * end of the stream; any other one has to discard all the bytes, and none for a negative length.
    */
  function Skip(seek: bool, n: u64, s: bytes): (r: Option<bytes>)
    ensures r.Some? ==> |r.value| <= |s|
    ensures n <= |s| && n < I64_LIMIT ==> r == Some(s[n..])
  {
    if n >= I64_LIMIT then (if seek then None else Some(s))
    else if n <= |s| then Some(s[n..])
    else if seek then Some([])
    else None
  }

  /** Steps over a value and its checksum without decoding either. */
  function SkipBlock(seek: bool, h: Header, s: bytes): (r: Round)
    requires 5 <= h.len <= 6
    ensures r.Seen? ==> |r.rest| < |s|
  {
    match ReadTyped(BYTE_STRING, s)
    case Fail(e) => if e.Break? then Ended else Failed(Panic)
    case Got(n, rest) =>
      match Skip(seek, n, rest)
      case None => Failed(Panic)
      case Some(rest) =>
        var block := h.Block(Generic(h.code, []));
        if h.len == 5 then Seen(false, block, rest)
        else
          match ReadByteString(rest)
          case Fail(e) => LateFailure(h.code, e)
          case Got(_, after) => Seen(false, block, after)
  }

  /** A failure before the value is known makes the caller dereference a missing value. */
  function ReadWanted(seek: bool, cs: Checksums, s: bytes, wanted: seq<u64>): (r: Round)
    ensures r.Seen? ==> |r.rest| < |s|
  {
    match ReadHeader(s)
    case Fail(e) => if e.Break? then Ended else Failed(Panic)
    case Got(h, rest) =>
      if h.code !in wanted then SkipBlock(seek, h, rest)
      else
        match ReadValue(h.code, rest)
        case Fail(_) => Failed(Panic)
        case Got(value, rest) =>
          match ReadCrc(cs, h, rest)
          case Fail(e) => LateFailure(h.code, e)
          case Got(_, rest) => Seen(true, h.Block(value), rest)
  }

  /** Index of the first occurrence, or the length. */
  function IndexOf(xs: seq<u64>, x: u64): (i: nat)
    ensures i <= |xs| && (i < |xs| <==> x in xs)
    ensures i < |xs| ==> xs[i] == x
  {
    if xs == [] || xs[0] == x then 0 else 1 + IndexOf(xs[1..], x)
  }

  function Without(xs: seq<u64>, x: u64): (r: seq<u64>)
    requires x in xs
    ensures |r| == |xs| - 1
  {
    xs[..IndexOf(xs, x)] + xs[IndexOf(xs, x) + 1..]
  }

  function CollectWanted(seek: bool, cs: Checksums, s: bytes, wanted: seq<u64>, exts: seq<Canonical>): (r: Result<seq<Canonical>>)
    decreases |s|
  {
    match ReadWanted(seek, cs, s, wanted)
    case Ended => Ok(exts)
    case Failed(e) => Err(e)
    case Seen(take, cb, rest) =>
      if cb.TypeCode() == PAYLOAD then Ok(exts)
      else if !take || cb.TypeCode() !in wanted then CollectWanted(seek, cs, rest, wanted, exts)
      else
        var left := Without(wanted, cb.TypeCode());
        if left == [] then Ok(exts + [cb]) else CollectWanted(seek, cs, rest, left, exts + [cb])
  }

  function ParsePartial(seek: bool, cs: Checksums, s: bytes, wanted: seq<u64>): (r: Result<Partial>) {
    if s == [] || s[0] != INDEFINITE_ARRAY then Err(Malformed)
    else
      match ReadPrimary(cs, s[1..])
      case Fail(_) => Err(Malformed)
      case Got(p, rest) =>
        var exts :- CollectWanted(seek, cs, rest, wanted, []);
        if p.Valid() && forall i :: 0 <= i < |exts| ==> exts[i].Valid() then Ok(Partial(p, exts)) else Err(Malformed)
  }

  /** The loop of the skipping parser. The list of wanted codes shrinks as blocks are found. */
  method UnmarshalPartial(seek: bool, cs: Checksums, s: bytes, wanted: seq<u64>) returns (r: Result<Partial>)
    ensures r == ParsePartial(seek, cs, s, wanted)
  {
    hide ReadPrimary, ReadWanted;
    if s == [] || s[0] != INDEFINITE_ARRAY { return Err(Malformed); }
    var primary := ReadPrimary(cs, s[1..]);
    if primary.Fail? { return Err(Malformed); }
    var rest, left, exts := primary.rest, wanted, [];
    ghost var goal := CollectWanted(seek, cs, rest, wanted, []);
    while true
      invariant CollectWanted(seek, cs, rest, left, exts) == goal
      invariant primary.Got? && goal == CollectWanted(seek, cs, primary.rest, wanted, [])
      decreases |rest|
    {
      var round := ReadWanted(seek, cs, rest, left);
      if round.Failed? { return Err(round.error); }
      if round.Ended? || round.block.TypeCode() == PAYLOAD {
        break;
      }
      rest := round.rest;
      if round.wanted && round.block.TypeCode() in left {
        exts := exts + [round.block];
        left := Without(left, round.block.TypeCode());
        if left == [] { break; }
      }
    }
    assert goal == Ok(exts);
    if primary.value.Valid() && forall i :: 0 <= i < |exts| ==> exts[i].Valid() {
      return Ok(Partial(primary.value, exts));
    }
    return Err(Malformed);
  }

  // Agreement with the full parser

  /** The extension blocks a stream holds in front of its first payload block. */
  function ExtsBeforePayload(cs: Checksums, s: bytes): (r: seq<Canonical>)
    decreases |s|
  {
    match ReadCanonical(cs, s)
    case Got(cb, rest) => if cb.TypeCode() == PAYLOAD then [] else [cb] + ExtsBeforePayload(cs, rest)
    case Fail(_) => []
  }

  /** Is block `i` the first one of a wanted type? */
  predicate FirstWanted(exts: seq<Canonical>, wanted: seq<u64>, i: nat)
    requires i < |exts|
  {
    exts[i].TypeCode() in wanted && forall j :: 0 <= j < i ==> exts[j].TypeCode() != exts[i].TypeCode()
  }

  /** The first block of each wanted type among the first `n`, in order. */
  function FirstOfEach(exts: seq<Canonical>, wanted: seq<u64>, n: nat): (r: seq<Canonical>)
    requires n <= |exts|
    ensures forall cb :: cb in r ==> cb in exts
  {
    if n == 0 then [] else FirstOfEach(exts, wanted, n - 1) + if FirstWanted(exts, wanted, n - 1) then [exts[n - 1]] else []
  }

  /** Where the full reader sees a block, the skipping reader sees the same block or skips exactly it. */
  lemma SameStep(seek: bool, cs: Checksums, s: bytes, wanted: seq<u64>)
    ensures var full := ReadCanonical(cs, s);
            var round := ReadWanted(seek, cs, s, wanted);
            && (full.Got? ==> round.Seen? && round.rest == full.rest && round.block.TypeCode() == full.value.TypeCode()
                              && round.wanted == (full.value.TypeCode() in wanted)
                              && (round.wanted ==> round.block == full.value))
            && (full.Fail? && full.error.Break? ==> round.Ended?)
  {
    hide CrcField, ReadContent, ReadHead, Header.Covered;
    var h := ReadHeader(s);
    if h.Got? && h.value.code !in wanted {
      var n := ReadTyped(BYTE_STRING, h.rest);
    }
  }

  /** The codes still wanted after the first `n` blocks: those not met yet. */
  ghost predicate StillWanted(exts: seq<Canonical>, wanted: seq<u64>, n: nat, left: seq<u64>)
    requires n <= |exts|
  {
    && Distinct(left)
    && forall c :: c in left <==> c in wanted && forall j :: 0 <= j < n ==> exts[j].TypeCode() != c
  }

  lemma WithoutKeeps(xs: seq<u64>, x: u64)
    requires Distinct(xs) && x in xs
    ensures Distinct(Without(xs, x)) && forall c :: c in Without(xs, x) <==> c in xs && c != x
  {
    var i := IndexOf(xs, x);
    var r := Without(xs, x);
    assert forall k :: 0 <= k < |r| ==> r[k] == if k < i then xs[k] else xs[k + 1];
    forall c | c in xs && c != x ensures c in r {
      var k :| 0 <= k < |xs| && xs[k] == c;
      assert k < i ==> r[k] == c;
      assert k > i ==> r[k - 1] == c;
    }
  }

  lemma {:induction false} NothingLeft(exts: seq<Canonical>, wanted: seq<u64>, n: nat, m: nat)
    requires n <= m <= |exts| && StillWanted(exts, wanted, n, [])
    ensures FirstOfEach(exts, wanted, m) == FirstOfEach(exts, wanted, n)
  {
    if n < m {
      NothingLeft(exts, wanted, n, m - 1);
      var none: seq<u64> := [];
      assert exts[m - 1].TypeCode() !in none;
    }
  }

  /** The skipping loop, started behind the first `n` blocks of `exts`, ends with the first of each. */
  lemma {:induction false} CollectsFirstOfEach(
      seek: bool, cs: Checksums, s: bytes, exts: seq<Canonical>, wanted: seq<u64>, n: nat, left: seq<u64>, acc: Blocks)
    requires n <= |exts| && exts[n..] == ExtsBeforePayload(cs, s) && StillWanted(exts, wanted, n, left)
    requires ParseBlocks(cs, s, acc).Got?
    ensures CollectWanted(seek, cs, s, left, FirstOfEach(exts, wanted, n)) == Ok(FirstOfEach(exts, wanted, |exts|))
    decreases |s|
  {
    hide ReadCanonical, ReadWanted;
    SameStep(seek, cs, s, left);
    var full := ReadCanonical(cs, s);
    if full.Got? && full.value.TypeCode() != PAYLOAD {
      var code := full.value.TypeCode();
      assert exts[n] == exts[n..][0] == full.value;
      assert exts[n + 1..] == exts[n..][1..];
      var next := if code in left then Without(left, code) else left;
      if code in left { WithoutKeeps(left, code); }
      assert FirstWanted(exts, wanted, n) <==> code in left;
      assert StillWanted(exts, wanted, n + 1, next);
      assert FirstOfEach(exts, wanted, n + 1) == FirstOfEach(exts, wanted, n) + if code in left then [exts[n]] else [];
      if next == [] && code in left {
        NothingLeft(exts, wanted, n + 1, |exts|);
      } else {
        var done := FirstOfEach(exts, wanted, n);
        if code in left {
          assert CollectWanted(seek, cs, s, left, done) == CollectWanted(seek, cs, full.rest, next, done + [full.value]);
        } else {
          assert done + [] == done;
          assert CollectWanted(seek, cs, s, left, done) == CollectWanted(seek, cs, full.rest, left, done);
        }
        CollectsFirstOfEach(seek, cs, full.rest, exts, wanted, n + 1, next, AddBlock(acc, full.value));
      }
    } else {
      assert exts[n..] == [];
    }
  }

  lemma {:induction false} FullParseKeepsPrefix(cs: Checksums, s: bytes, acc: Blocks)
    requires ParseBlocks(cs, s, acc).Got?
    ensures acc.exts <= ParseBlocks(cs, s, acc).value.exts
    ensures acc.exts + ExtsBeforePayload(cs, s) <= ParseBlocks(cs, s, acc).value.exts
    decreases |s|
  {
    hide ReadCanonical;
    var full := ReadCanonical(cs, s);
    if full.Got? {
      FullParseKeepsPrefix(cs, full.rest, AddBlock(acc, full.value));
      if full.value.TypeCode() != PAYLOAD {
        assert acc.exts + [full.value] + ExtsBeforePayload(cs, full.rest) == acc.exts + ExtsBeforePayload(cs, s);
      }
    }
  }

  /**
    * On every stream the full parser accepts, whoever wrote it, and for distinct wanted codes, the
    * skipping parser returns the full parser's primary block and the first block of each wanted
    * type, in stream order, among those in front of the payload.
    */
  lemma SkippingAgreesWithFull(seek: bool, cs: Checksums, s: bytes, wanted: seq<u64>, now: int)
    requires Distinct(wanted) && ParseBundle(cs, s, now).Got?
    ensures var b := ParseBundle(cs, s, now).value;
            var exts := ExtsBeforePayload(cs, ReadPrimary(cs, s[1..]).rest);
            && exts <= b.exts
            && ParsePartial(seek, cs, s, wanted) == Ok(Partial(b.primary, FirstOfEach(exts, wanted, |exts|)))
  {
    hide ReadPrimary, LifetimeExceeded, ContextValid, PrimaryBlock.Valid, Canonical.Valid, DistinctNumbers, CollectWanted, ParseBlocks;
    var b := ParseBundle(cs, s, now).value;
    var rest := ReadPrimary(cs, s[1..]).rest;
    var exts := ExtsBeforePayload(cs, rest);
    FullParseKeepsPrefix(cs, rest, Blocks([], None));
    assert [] + exts == exts;
    assert exts[0..] == exts;
    CollectsFirstOfEach(seek, cs, rest, exts, wanted, 0, wanted, Blocks([], None));
    var picked := FirstOfEach(exts, wanted, |exts|);
    forall i | 0 <= i < |picked| ensures picked[i].Valid() {
      assert picked[i] in picked;
      assert picked[i] in b.exts;
    }
  }

  /** The blocks in front of the payload of a written bundle are all its extension blocks. */
  lemma {:induction false} WrittenExtsBeforePayload(cs: Checksums, exts: seq<Canonical>, payload: Canonical, rest: bytes)
    requires AllWritable(exts) && WireExts(exts) && payload.Writable() && payload.value.Payload?
    ensures ExtsBeforePayload(cs, BlocksBytes(cs, exts) + (CanonicalBytes(cs, payload) + rest)) == AsReadAll(exts)
  {
    hide ReadCanonical, CanonicalBytes;
    var tail := CanonicalBytes(cs, payload) + rest;
    if exts == [] {
      assert [] + tail == tail;
      CanonicalRoundTrip(cs, payload, rest);
    } else {
      var first, more := exts[0], BlocksBytes(cs, exts[1..]);
      Assoc(CanonicalBytes(cs, first), more, tail);
      CanonicalRoundTrip(cs, first, more + tail);
      assert first.AsRead().TypeCode() == first.TypeCode();
      WrittenExtsBeforePayload(cs, exts[1..], payload, rest);
      assert [first.AsRead()] + AsReadAll(exts[1..]) == AsReadAll(exts);
    }
  }

  /** For a written bundle: the first extension block of each wanted type, of all its blocks. */
  lemma SkippingOnWrittenBundle(seek: bool, cs: Checksums, b: Bundle, rest: bytes, wanted: seq<u64>, now: int)
    requires Distinct(wanted) && BundleValid(b, now) && Writable(b) && Wire(b)
    ensures var full := ParseBundle(cs, BundleBytes(cs, b) + rest, now);
            && full.Got?
            && ParsePartial(seek, cs, BundleBytes(cs, b) + rest, wanted)
               == Ok(Partial(full.value.primary, FirstOfEach(full.value.exts, wanted, |full.value.exts|)))
  {
    hide ReadPrimary, PrimaryBytes, CanonicalBytes, BlocksBytes, BundleBytes, ParseBundle, ParsePartial, BundleValid;
    ValidBasics(b, now);
    var s := BundleBytes(cs, b) + rest;
    var blocks := BlocksBytes(cs, b.exts) + (CanonicalBytes(cs, b.payload) + ([BREAK_CODE] + rest));
    WrittenBundleParses(cs, b, rest, now);
    BundleLayout(cs, b, rest);
    PrimaryRoundTrip(cs, b.primary, blocks);
    WrittenExtsBeforePayload(cs, b.exts, b.payload, [BREAK_CODE] + rest);
    SkippingAgreesWithFull(seek, cs, s, wanted, now);
  }
}
