/** The parser on streams of arbitrary blocks, with payload blocks in any number and place. */
module BlockStreams {
  import opened Bytes
  import opened Cbor
  import opened Block
  import opened Primary
  import opened Bundle
  import opened Subsequences
  import opened PartialParse

  /** Blocks that can be written and read back. */
  predicate Readable(bs: seq<Canonical>) {
    AllWritable(bs) && forall i :: 0 <= i < |bs| ==> bs[i].value.Wire()
  }

  function Collect(acc: Blocks, bs: seq<Canonical>): (r: Blocks)
    decreases |bs|
  {
    if bs == [] then acc else Collect(AddBlock(acc, bs[0]), bs[1..])
  }

  lemma {:induction false} StreamCollects(cs: Checksums, bs: seq<Canonical>, rest: bytes, acc: Blocks)
    requires Readable(bs)
    ensures ParseBlocks(cs, BlocksBytes(cs, bs) + ([BREAK_CODE] + rest), acc) == Got(Collect(acc, AsReadAll(bs)), rest)
    decreases |bs|
  {
    hide ReadCanonical, CanonicalBytes, AddBlock;
    var tail := [BREAK_CODE] + rest;
    if bs == [] {
      assert BlocksBytes(cs, bs) + tail == tail;
      BreakEndsBlocks(cs, rest);
    } else {
      BlocksUnfold(cs, bs);
      hide BlocksBytes, AllWritable;
      var more := BlocksBytes(cs, bs[1..]);
      Assoc(CanonicalBytes(cs, bs[0]), more, tail);
      CanonicalRoundTrip(cs, bs[0], more + tail);
      assert AsReadAll(bs)[1..] == AsReadAll(bs[1..]);
      StreamCollects(cs, bs[1..], rest, AddBlock(acc, bs[0].AsRead()));
    }
  }

  lemma {:induction false} CollectAppend(acc: Blocks, bs: seq<Canonical>, cb: Canonical)
    ensures Collect(acc, bs + [cb]) == AddBlock(Collect(acc, bs), cb)
    decreases |bs|
  {
    hide AddBlock;
    if bs == [] {
      assert bs + [cb] == [cb] && [cb][1..] == [];
    } else {
      assert (bs + [cb])[1..] == bs[1..] + [cb];
      CollectAppend(AddBlock(acc, bs[0]), bs[1..], cb);
    }
  }

  function Extensions(bs: seq<Canonical>): (keep: seq<bool>)
    ensures |keep| == |bs|
  {
    seq(|bs|, i requires 0 <= i < |bs| => bs[i].TypeCode() != PAYLOAD)
  }

  /** Block `i` is the last payload block. */
  predicate IsLastPayload(bs: seq<Canonical>, i: nat)
    requires i < |bs|
  {
    bs[i].TypeCode() == PAYLOAD && forall j :: i < j < |bs| ==> bs[j].TypeCode() != PAYLOAD
  }

  lemma {:induction false} CollectExtensions(bs: seq<Canonical>)
    ensures Collect(Blocks([], None), bs).exts == Kept(bs, Extensions(bs))
  {
    if bs != [] {
      var n := |bs| - 1;
      CollectExtensions(bs[..n]);
      CollectAppend(Blocks([], None), bs[..n], bs[n]);
      assert bs == bs[..n] + [bs[n]];
      assert Extensions(bs)[..n] == Extensions(bs[..n]);
      hide Collect, Canonical.TypeCode;
      var before := Kept(bs[..n], Extensions(bs[..n]));
      assert before + [] == before;
    }
  }

  lemma {:induction false} CollectPayload(bs: seq<Canonical>)
    ensures var p := Collect(Blocks([], None), bs).payload;
            && (p.None? <==> forall i :: 0 <= i < |bs| ==> bs[i].TypeCode() != PAYLOAD)
            && forall i :: 0 <= i < |bs| && IsLastPayload(bs, i) ==> p == Some(bs[i])
  {
    if bs != [] {
      var n := |bs| - 1;
      CollectPayload(bs[..n]);
      CollectAppend(Blocks([], None), bs[..n], bs[n]);
      assert bs == bs[..n] + [bs[n]];
      hide Collect, Canonical.TypeCode;
      assert forall i :: 0 <= i < n ==> bs[..n][i] == bs[i];
      forall i | 0 <= i < |bs| && IsLastPayload(bs, i)
        ensures Collect(Blocks([], None), bs).payload == Some(bs[i])
      {
        if i < n { assert IsLastPayload(bs[..n], i); }
      }
    }
  }

  lemma SameTypes(bs: seq<Canonical>)
    ensures Extensions(AsReadAll(bs)) == Extensions(bs)
    ensures forall i :: 0 <= i < |bs| ==>
              AsReadAll(bs)[i].TypeCode() == bs[i].TypeCode() && (IsLastPayload(bs, i) ==> IsLastPayload(AsReadAll(bs), i))
  {
    assert forall i :: 0 <= i < |bs| ==> AsReadAll(bs)[i].TypeCode() == bs[i].TypeCode();
    hide Canonical.TypeCode, Canonical.AsRead;
  }

  /**
    * From a stream of any blocks the parser takes the extension blocks, in order, and the last of
    * the payload blocks, and leaves what follows the break code.
    */
  lemma StreamParses(cs: Checksums, bs: seq<Canonical>, rest: bytes) returns (idx: seq<nat>)
    requires Readable(bs)
    ensures var r := ParseBlocks(cs, BlocksBytes(cs, bs) + ([BREAK_CODE] + rest), Blocks([], None));
            && r.Got? && r.rest == rest
            && Picks(r.value.exts, AsReadAll(bs), idx)
            && (forall i :: 0 <= i < |bs| ==> (i in idx <==> bs[i].TypeCode() != PAYLOAD))
            && (r.value.payload.None? <==> forall i :: 0 <= i < |bs| ==> bs[i].TypeCode() != PAYLOAD)
            && forall i :: 0 <= i < |bs| && IsLastPayload(bs, i) ==> r.value.payload == Some(bs[i].AsRead())
  {
    hide ParseBlocks, BlocksBytes, Collect, Kept, Picks, IsLastPayload, Canonical.AsRead, Canonical.TypeCode;
    StreamCollects(cs, bs, rest, Blocks([], None));
    CollectExtensions(AsReadAll(bs));
    CollectPayload(AsReadAll(bs));
    SameTypes(bs);
    idx := KeptPicks(AsReadAll(bs), Extensions(bs));
  }

  /** A bundle without any payload block makes the parser panic, whatever follows. */
  lemma NoPayloadPanics(cs: Checksums, p: PrimaryBlock, bs: seq<Canonical>, rest: bytes, now: int)
    requires Readable(bs) && p.crcType <= CRC32 && p.version == VERSION && p.Wire()
    requires forall i :: 0 <= i < |bs| ==> bs[i].TypeCode() != PAYLOAD
    ensures var blocks := BlocksBytes(cs, bs) + ([BREAK_CODE] + rest);
            ParseBundle(cs, [INDEFINITE_ARRAY] + (PrimaryBytes(cs, p) + blocks), now) == Fail(Panic)
  {
    hide ParseBlocks, BlocksBytes, PrimaryBytes, ReadPrimary, Picks, IsLastPayload, PrimaryBlock.Wire, AllWritable;
    var blocks := BlocksBytes(cs, bs) + ([BREAK_CODE] + rest);
    var s := [INDEFINITE_ARRAY] + (PrimaryBytes(cs, p) + blocks);
    assert s[1..] == PrimaryBytes(cs, p) + blocks;
    PrimaryRoundTrip(cs, p, blocks);
    var _ := StreamParses(cs, bs, rest);
  }

  // The skipping parser

  function FirstOnes(exts: seq<Canonical>, wanted: seq<u64>): (keep: seq<bool>)
    ensures |keep| == |exts|
  {
    seq(|exts|, i requires 0 <= i < |exts| => FirstWanted(exts, wanted, i))
  }

  lemma {:induction false} FirstKeeps(exts: seq<Canonical>, wanted: seq<u64>, n: nat)
    requires n <= |exts|
    ensures FirstOfEach(exts, wanted, n) == Kept(exts[..n], FirstOnes(exts, wanted)[..n])
  {
    hide FirstWanted;
    if n > 0 {
      FirstKeeps(exts, wanted, n - 1);
      var keep := FirstOnes(exts, wanted);
      assert exts[..n][..n - 1] == exts[..n - 1] && keep[..n][..n - 1] == keep[..n - 1];
    }
  }

  /** The skipping parser takes, in order, exactly the blocks of wanted types that no other of the type precedes. */
  lemma FirstOfEachPicks(exts: seq<Canonical>, wanted: seq<u64>) returns (idx: seq<nat>)
    ensures Picks(FirstOfEach(exts, wanted, |exts|), exts, idx)
    ensures forall i :: 0 <= i < |exts| ==>
              (i in idx <==> && exts[i].TypeCode() in wanted
                             && forall j :: 0 <= j < i ==> exts[j].TypeCode() != exts[i].TypeCode())
  {
    hide FirstOfEach, Kept, Picks;
    FirstKeeps(exts, wanted, |exts|);
    assert exts[..|exts|] == exts && FirstOnes(exts, wanted)[..|exts|] == FirstOnes(exts, wanted);
    idx := KeptPicks(exts, FirstOnes(exts, wanted));
  }
}
