/** Exactly which streams the parser accepts, in terms of the CBOR data on them. */
module Acceptance {
  import opened Bytes
  import opened Cbor
  import opened Block
  import opened Primary
  import opened Bundle
  import opened Subsequences
  import opened Decoding
  import opened BlockStreams

  // Where the blocks end

  predicate BreakIn(s: bytes, after: bytes) {
    s != [] && s[0] == 0xFF && after == s[1..]
  }

  /** All of the first `k` elements of the list are numbers, and the break code follows them. */
  predicate BreakBehind(body: bytes, k: nat, after: bytes) {
    && DecodeAll(k, body).Got? && (forall i :: 0 <= i < k ==> DecodeAll(k, body).value[i].Int?)
    && BreakIn(DecodeAll(k, body).rest, after)
  }

  /** The first five elements are those of a block whose checksum is to follow, but the break code does. */
  ghost predicate BreakForChecksum(body: bytes, after: bytes) {
    && DecodeAll(5, body).Got?
    && var items := DecodeAll(5, body).value;
    && items[0].Int? && items[1].Int? && items[2].Int? && items[3].Int? && items[4].Data?
    && (exists v :: IsContent(items[0].n, items[4].data, v)) && items[3].n <= CRC32
    && BreakIn(DecodeAll(5, body).rest, after)
  }

  /**
    * The break code in front of a block ends the blocks. So it does inside a block, in place of any
    * of the first four elements or of the checksum.
    */
  ghost predicate EndsAt(s: bytes, after: bytes) {
    || BreakIn(s, after)
    || (&& ReadTyped(ARRAY, s).Got? && (ReadTyped(ARRAY, s).value == 5 || ReadTyped(ARRAY, s).value == 6)
        && var body := ReadTyped(ARRAY, s).rest;
        || BreakBehind(body, 0, after) || BreakBehind(body, 1, after)
        || BreakBehind(body, 2, after) || BreakBehind(body, 3, after)
        || (ReadTyped(ARRAY, s).value == 6 && BreakForChecksum(body, after)))
  }

  lemma BreakHead(s: bytes, after: bytes)
    ensures ReadHead(s) == Fail(Break(after)) <==> BreakIn(s, after)
  {
  }

  lemma BreakTyped(major: byte, s: bytes, after: bytes)
    ensures ReadTyped(major, s) == Fail(Break(after)) <==> BreakIn(s, after)
  {
    hide ReadHead;
    BreakHead(s, after);
  }

  lemma BreakNumber(s: bytes, after: bytes)
    ensures ReadUInt(s) == Fail(Break(after)) <==> BreakIn(s, after)
  {
    hide ReadTyped;
    BreakTyped(UINT, s, after);
  }

  lemma BreakString(s: bytes, after: bytes)
    ensures ReadByteString(s) == Fail(Break(after)) <==> BreakIn(s, after)
  {
    hide ReadTyped, BreakIn;
    BreakTyped(BYTE_STRING, s, after);
  }

  lemma BreakAfterNone(s: bytes, after: bytes)
    ensures BreakBehind(s, 0, after) <==> BreakIn(s, after)
  {
  }

  lemma BreakAfterNumber(s: bytes, k: nat, after: bytes)
    ensures BreakBehind(s, k + 1, after) <==> ReadUInt(s).Got? && BreakBehind(ReadUInt(s).rest, k, after)
  {
    hide Decode, ReadUInt, BreakIn;
    if ReadUInt(s).Got? { NumberRead(s, ReadUInt(s).value, ReadUInt(s).rest); }
    if Decode(s).Got? && Decode(s).value.Int? { NumberRead(s, Decode(s).value.n, Decode(s).rest); }
    if BreakBehind(s, k + 1, after) {
      assert DecodeAll(k + 1, s).value[0].Int?;
      var more := DecodeAll(k, Decode(s).rest).value;
      forall i | 0 <= i < k ensures more[i].Int? {
        assert DecodeAll(k + 1, s).value[i + 1] == more[i];
      }
    }
  }

  lemma BreakInHeader(s: bytes, after: bytes)
    ensures ReadHeader(s) == Fail(Break(after)) <==>
              || BreakIn(s, after)
              || (&& ReadTyped(ARRAY, s).Got? && (ReadTyped(ARRAY, s).value == 5 || ReadTyped(ARRAY, s).value == 6)
                  && var body := ReadTyped(ARRAY, s).rest;
                  || BreakBehind(body, 0, after) || BreakBehind(body, 1, after)
                  || BreakBehind(body, 2, after) || BreakBehind(body, 3, after))
  {
    hide ReadTyped, ReadUInt, BreakIn, BreakBehind;
    BreakTyped(ARRAY, s, after);
    if ReadTyped(ARRAY, s).Got? {
      BreakBehindNumbers(ReadTyped(ARRAY, s).rest, after);
    }
  }

  lemma BreakBehindNumbers(s: bytes, after: bytes)
    ensures BreakBehind(s, 0, after) <==> ReadUInt(s) == Fail(Break(after))
    ensures BreakBehind(s, 1, after) <==> ReadUInt(s).Got? && ReadUInt(ReadUInt(s).rest) == Fail(Break(after))
    ensures BreakBehind(s, 2, after) <==>
              && ReadUInt(s).Got? && var s1 := ReadUInt(s).rest;
              && ReadUInt(s1).Got? && ReadUInt(ReadUInt(s1).rest) == Fail(Break(after))
    ensures BreakBehind(s, 3, after) <==>
              && ReadUInt(s).Got? && var s1 := ReadUInt(s).rest;
              && ReadUInt(s1).Got? && var s2 := ReadUInt(s1).rest;
              && ReadUInt(s2).Got? && ReadUInt(ReadUInt(s2).rest) == Fail(Break(after))
  {
    hide ReadUInt, BreakIn, BreakBehind;
    BreakAfterNone(s, after);
    BreakNumber(s, after);
    BreakAfterNumber(s, 0, after);
    BreakAfterNumber(s, 1, after);
    BreakAfterNumber(s, 2, after);
    if ReadUInt(s).Got? {
      var s1 := ReadUInt(s).rest;
      BreakAfterNone(s1, after);
      BreakNumber(s1, after);
      BreakAfterNumber(s1, 0, after);
      BreakAfterNumber(s1, 1, after);
      if ReadUInt(s1).Got? {
        var s2 := ReadUInt(s1).rest;
        BreakAfterNone(s2, after);
        BreakNumber(s2, after);
        BreakAfterNumber(s2, 0, after);
        if ReadUInt(s2).Got? {
          BreakAfterNone(ReadUInt(s2).rest, after);
          BreakNumber(ReadUInt(s2).rest, after);
        }
      }
    }
  }

  lemma HasContent(code: u64, data: Blob)
    ensures ReadContent(code, data).Some? <==> exists v :: IsContent(code, data, v)
  {
    hide *;
    if ReadContent(code, data).Some? {
      ContentReadIff(code, data, ReadContent(code, data).value);
    }
    if exists v :: IsContent(code, data, v) {
      var v :| IsContent(code, data, v);
      ContentReadIff(code, data, v);
    }
  }

  lemma BreakInChecksum(body: bytes, after: bytes)
    ensures BreakForChecksum(body, after) <==>
              && ReadElements(body).Got?
              && var e := ReadElements(body).value;
              && ReadContent(e.code, e.data).Some? && e.crcType <= CRC32
              && ReadByteString(ReadElements(body).rest) == Fail(Break(after))
  {
    hide DecodeAll, ReadElements, ReadContent, ReadByteString, BreakIn, IsContent;
    if ReadElements(body).Got? {
      var e := ReadElements(body).value;
      FiveElements(body, e);
      ElementsRead(5, body, e, [], ReadElements(body).rest);
      NoItem(ReadElements(body).rest, ReadElements(body).rest);
      assert e.Items() + [] == e.Items();
      BreakString(ReadElements(body).rest, after);
      HasContent(e.code, e.data);
    }
    if BreakForChecksum(body, after) {
      var items := DecodeAll(5, body).value;
      var e := Element(items[0].n, items[1].n, items[2].n, items[3].n, items[4].data);
      assert items == e.Items() + [];
      ElementsRead(5, body, e, [], DecodeAll(5, body).rest);
    }
  }

  /** The reader takes the break code for the end of the blocks exactly there. */
  lemma BreakReadIff(cs: Checksums, s: bytes, after: bytes)
    ensures ReadCanonical(cs, s) == Fail(Break(after)) <==> EndsAt(s, after)
  {
    hide ReadTyped, ReadUInt, ReadByteString, ReadContent, BreakIn, BreakBehind, BreakForChecksum;
    BreakInHeader(s, after);
    if ReadTyped(ARRAY, s).Got? {
      BreakInChecksum(ReadTyped(ARRAY, s).rest, after);
    }
  }

  // The whole bundle

  /** The blocks `bs` follow each other on the stream; `at[i]` is what there is of it in front of block `i`. */
  predicate Chain(cs: Checksums, at: seq<bytes>, bs: seq<Canonical>) {
    |at| == |bs| + 1 && forall i :: 0 <= i < |bs| ==> Link(cs, at[i], bs[i], at[i + 1])
  }

  predicate Link(cs: Checksums, s: bytes, cb: Canonical, rest: bytes) {
    BlockAt(cs, s, cb) && Decode(s).rest == rest
  }

  lemma ChainFront(cs: Checksums, s: bytes, cb: Canonical, at: seq<bytes>, bs: seq<Canonical>)
    requires Chain(cs, at, bs) && Link(cs, s, cb, at[0])
    ensures Chain(cs, [s] + at, [cb] + bs)
  {
    hide Link;
    forall i | 0 <= i < |bs| + 1 ensures Link(cs, ([s] + at)[i], ([cb] + bs)[i], ([s] + at)[i + 1]) {
      if i > 0 { assert Link(cs, at[i - 1], bs[i - 1], at[i]); }
    }
  }

  lemma {:induction false} ParsedIsChain(cs: Checksums, s: bytes, acc: Blocks) returns (at: seq<bytes>, bs: seq<Canonical>)
    requires ParseBlocks(cs, s, acc).Got?
    ensures Chain(cs, at, bs) && at[0] == s && EndsAt(at[|bs|], ParseBlocks(cs, s, acc).rest)
    ensures ParseBlocks(cs, s, acc).value == Collect(acc, bs)
    decreases |s|
  {
    hide ReadCanonical, BlockAt, EndsAt, AddBlock, Decode;
    match ReadCanonical(cs, s) {
      case Got(cb, rest) =>
        BlockReadIff(cs, s, cb, rest);
        at, bs := ParsedIsChain(cs, rest, AddBlock(acc, cb));
        ChainFront(cs, s, cb, at, bs);
        assert ([cb] + bs)[1..] == bs;
        at, bs := [s] + at, [cb] + bs;
      case Fail(e) =>
        BreakReadIff(cs, s, e.after);
        at, bs := [s], [];
    }
  }

  lemma {:induction false} ChainIsParsed(cs: Checksums, at: seq<bytes>, bs: seq<Canonical>, rest: bytes, acc: Blocks)
    requires Chain(cs, at, bs) && EndsAt(at[|bs|], rest)
    ensures ParseBlocks(cs, at[0], acc) == Got(Collect(acc, bs), rest)
    decreases |bs|
  {
    hide ReadCanonical, BlockAt, EndsAt, AddBlock, Decode;
    if bs == [] {
      BreakReadIff(cs, at[0], rest);
    } else {
      assert Link(cs, at[0], bs[0], at[1]);
      BlockReadIff(cs, at[0], bs[0], at[1]);
      forall i | 0 <= i < |bs[1..]| ensures Link(cs, at[1..][i], bs[1..][i], at[1..][i + 1]) {
        assert Link(cs, at[i + 1], bs[i + 1], at[i + 2]);
      }
      ChainIsParsed(cs, at[1..], bs[1..], rest, AddBlock(acc, bs[0]));
    }
  }

  /**
    * The stream holds the bundle `b`: the head of an indefinite-length array, the primary block, and
    * a chain of blocks up to the break code. The last payload block is the bundle's, and the others
    * that are none are its extension blocks, in order.
    */
  ghost predicate BundleAt(cs: Checksums, s: bytes, b: Bundle, rest: bytes, at: seq<bytes>, bs: seq<Canonical>) {
    && s != [] && s[0] == 0x9F && PrimaryAt(cs, s[1..], b.primary)
    && Chain(cs, at, bs) && at[0] == Decode(s[1..]).rest && EndsAt(at[|bs|], rest)
    && b.exts == Kept(bs, Extensions(bs))
    && exists k: nat :: k < |bs| && IsLastPayload(bs, k) && b.payload == bs[k]
  }

  lemma {:induction false} LastPayloadExists(bs: seq<Canonical>) returns (k: nat)
    requires exists i :: 0 <= i < |bs| && bs[i].TypeCode() == PAYLOAD
    ensures k < |bs| && IsLastPayload(bs, k)
    decreases |bs|
  {
    hide Canonical.TypeCode;
    var n := |bs| - 1;
    if bs[n].TypeCode() == PAYLOAD {
      k := n;
    } else {
      var i :| 0 <= i < |bs| && bs[i].TypeCode() == PAYLOAD;
      assert bs[..n][i].TypeCode() == PAYLOAD;
      k := LastPayloadExists(bs[..n]);
      assert bs[..n][k] == bs[k];
      forall j | k < j < |bs| ensures bs[j].TypeCode() != PAYLOAD {
        if j < n { assert bs[..n][j].TypeCode() != PAYLOAD; }
      }
    }
  }

  lemma ParsedIsOnStream(cs: Checksums, s: bytes, now: int, b: Bundle, rest: bytes) returns (at: seq<bytes>, bs: seq<Canonical>)
    requires ParseBundle(cs, s, now) == Got(b, rest)
    ensures BundleValid(b, now) && BundleAt(cs, s, b, rest, at, bs)
  {
    hide ReadPrimary, ParseBlocks, BundleValid, PrimaryAt, Chain, EndsAt, Collect, Kept, IsLastPayload, Decode, Canonical.TypeCode;
    var primary := ReadPrimary(cs, s[1..]);
    PrimaryReadIff(cs, s[1..], primary.value, primary.rest);
    at, bs := ParsedIsChain(cs, primary.rest, Blocks([], None));
    CollectExtensions(bs);
    CollectPayload(bs);
    var k := LastPayloadExists(bs);
  }

  lemma OnStreamIsParsed(cs: Checksums, s: bytes, now: int, b: Bundle, rest: bytes, at: seq<bytes>, bs: seq<Canonical>)
    requires BundleValid(b, now) && BundleAt(cs, s, b, rest, at, bs)
    ensures ParseBundle(cs, s, now) == Got(b, rest)
  {
    hide ReadPrimary, ParseBlocks, BundleValid, PrimaryAt, Link, EndsAt, Collect, Kept, Decode, Canonical.TypeCode;
    PrimaryReadIff(cs, s[1..], b.primary, at[0]);
    ChainIsParsed(cs, at, bs, rest, Blocks([], None));
    CollectExtensions(bs);
    CollectPayload(bs);
    var k: nat :| k < |bs| && IsLastPayload(bs, k) && b.payload == bs[k];
  }

  /** The parser returns a bundle exactly for the streams that hold it, if it is valid. */
  lemma ParseIff(cs: Checksums, s: bytes, now: int, b: Bundle, rest: bytes)
    ensures ParseBundle(cs, s, now) == Got(b, rest) <==>
              BundleValid(b, now) && exists at, bs :: BundleAt(cs, s, b, rest, at, bs)
  {
    hide *;
    if ParseBundle(cs, s, now) == Got(b, rest) {
      var at, bs := ParsedIsOnStream(cs, s, now, b, rest);
    }
    if BundleValid(b, now) && exists at, bs :: BundleAt(cs, s, b, rest, at, bs) {
      var at, bs :| BundleAt(cs, s, b, rest, at, bs);
      OnStreamIsParsed(cs, s, now, b, rest, at, bs);
    }
  }
}
