/** Block numbers: adding and removing extension blocks, and the rewrite done before forwarding. */
module Numbering {
  import opened Bytes
  import opened Endpoint
  import opened Block
  import opened Primary
  import opened Bundle
  import opened Sorting

  predicate Used(exts: seq<Canonical>, n: int) {
    exists i :: 0 <= i < |exts| && exts[i].number == n
  }

  /** How many blocks have a number of at least `n`. */
  function CountFrom(exts: seq<Canonical>, n: int): (c: nat)
    ensures c <= |exts|
  {
    if exts == [] then 0 else (if exts[0].number >= n then 1 else 0) + CountFrom(exts[1..], n)
  }

  lemma {:induction false} CountDrops(exts: seq<Canonical>, n: int)
    ensures CountFrom(exts, n + 1) <= CountFrom(exts, n)
    ensures Used(exts, n) ==> CountFrom(exts, n + 1) < CountFrom(exts, n)
  {
    if exts != [] {
      CountDrops(exts[1..], n);
      if Used(exts, n) && exts[0].number != n {
        var i :| 0 <= i < |exts| && exts[i].number == n;
        assert exts[1..][i - 1].number == n;
      }
    }
  }

  /** The least number from `start` on that no block uses. */
  function FreeNumber(exts: seq<Canonical>, start: nat): (n: nat)
    ensures start <= n <= start + CountFrom(exts, start)
    ensures !Used(exts, n) && forall k :: start <= k < n ==> Used(exts, k)
    decreases CountFrom(exts, start)
  {
    CountDrops(exts, start);
    if Used(exts, start) then FreeNumber(exts, start + 1) else start
  }

  /** Blocks are ordered by number, except that number 1 comes last. */
  function SortKey(cb: Canonical): int {
    if cb.number == 1 then U64_LIMIT else cb.number
  }

  predicate Sorted(exts: seq<Canonical>) {
    SortedBy(exts, SortKey)
  }

  lemma DistinctNumbersAreKeys(exts: seq<Canonical>)
    ensures DistinctNumbers(exts) <==> DistinctKeys(exts, SortKey)
  {
    if DistinctKeys(exts, SortKey) {
      forall i, j | 0 <= i < j < |exts| ensures exts[i].number != exts[j].number {
        assert SortKey(exts[i]) != SortKey(exts[j]);
      }
    }
  }

  /** Sorted means ascending numbers, with a block that has the payload's number last. */
  lemma SortedMeans(exts: seq<Canonical>)
    ensures Sorted(exts) <==>
              forall i, j :: 0 <= i < j < |exts| ==>
                exts[j].number == 1 || (exts[i].number != 1 && exts[i].number <= exts[j].number)
  {
    if Sorted(exts) {
      forall i, j | 0 <= i < j < |exts|
        ensures exts[j].number == 1 || (exts[i].number != 1 && exts[i].number <= exts[j].number)
      {
        assert SortKey(exts[i]) <= SortKey(exts[j]);
      }
    }
  }

  /** The search for a block number starts at 1 for a payload block and at 2 for any other. */
  function FirstNumber(cb: Canonical): nat {
    if cb.TypeCode() == PAYLOAD then 1 else 2
  }

  /** The extension blocks after adding one, which is renumbered. */
  function Add(exts: seq<Canonical>, cb: Canonical): (r: seq<Canonical>)
    requires |exts| <= MAX_LEN
    ensures |r| == |exts| + 1
  {
    SortBy(exts + [cb.(number := FreeNumber(exts, FirstNumber(cb)))], SortKey)
  }

  /** Adding gives the block the least free number, keeps all others, and keeps numbers distinct and in order. */
  lemma AddKeepsNumbering(exts: seq<Canonical>, cb: Canonical)
    requires |exts| <= MAX_LEN && DistinctNumbers(exts)
    ensures var from := if cb.TypeCode() == PAYLOAD then 1 else 2;
            var n := FreeNumber(exts, from);
            && DistinctNumbers(Add(exts, cb)) && Sorted(Add(exts, cb))
            && multiset(Add(exts, cb)) == multiset(exts) + multiset{cb.(number := n)}
            && !Used(exts, n) && (forall k :: from <= k < n ==> Used(exts, k))
  {
    var n := FreeNumber(exts, FirstNumber(cb));
    var all := exts + [cb.(number := n)];
    assert DistinctNumbers(all);
    DistinctNumbersAreKeys(all);
    SortByCorrect(all, SortKey);
    PermutationStaysDistinct(all, Add(exts, cb), SortKey);
    DistinctNumbersAreKeys(Add(exts, cb));
  }

  /** Blocks added one after the other to an empty list. */
  function AddAll(blocks: seq<Canonical>): (r: seq<Canonical>)
    requires |blocks| <= MAX_LEN
    ensures |r| == |blocks|
  {
    if blocks == [] then [] else Add(AddAll(blocks[..|blocks| - 1]), blocks[|blocks| - 1])
  }

  lemma AddAllAppend(blocks: seq<Canonical>, cb: Canonical)
    requires |blocks| < MAX_LEN
    ensures AddAll(blocks + [cb]) == Add(AddAll(blocks), cb)
  {
    assert (blocks + [cb])[..|blocks|] == blocks;
  }

  /** The blocks in their order, numbered from 2. */
  function Renumbered(blocks: seq<Canonical>): (r: seq<Canonical>)
    requires |blocks| <= MAX_LEN
    ensures |r| == |blocks|
  {
    seq(|blocks|, i requires 0 <= i < |blocks| => blocks[i].(number := i + 2))
  }

  predicate NoPayload(blocks: seq<Canonical>) {
    forall i :: 0 <= i < |blocks| ==> blocks[i].TypeCode() != PAYLOAD
  }

  /** The next block after numbers 2 to n + 1 gets number n + 2 and stays at the end. */
  lemma AddAppends(done: seq<Canonical>, cb: Canonical)
    requires |done| < MAX_LEN && cb.TypeCode() != PAYLOAD
    ensures Add(Renumbered(done), cb) == Renumbered(done + [cb])
  {
    var exts := Renumbered(done);
    var n := FreeNumber(exts, 2);
    forall k | 2 <= k < |exts| + 2 ensures Used(exts, k) {
      assert exts[k - 2].number == k;
    }
    assert !Used(exts, |exts| + 2);
    var next := Renumbered(done + [cb]);
    assert next == exts + [cb.(number := n)];
    SortByCorrect(next, SortKey);
    SortedIsUnique(next, SortBy(next, SortKey), SortKey);
  }

  /** Copying blocks into an empty bundle keeps their order and numbers them from 2. */
  lemma {:induction false} AddAllRenumbers(blocks: seq<Canonical>)
    requires |blocks| <= MAX_LEN && NoPayload(blocks)
    ensures AddAll(blocks) == Renumbered(blocks)
  {
    if blocks == [] {
      assert Renumbered([]) == [];
    } else {
      var n := |blocks| - 1;
      assert blocks == blocks[..n] + [blocks[n]];
      AddAllRenumbers(blocks[..n]);
      AddAppends(blocks[..n], blocks[n]);
    }
  }

  /** Removes the first block with the given number, if there is one. */
  function Remove(exts: seq<Canonical>, n: u64): (r: seq<Canonical>)
    ensures |r| <= |exts|
  {
    if exts == [] then [] else if exts[0].number == n then exts[1..] else [exts[0]] + Remove(exts[1..], n)
  }

  lemma {:induction false} RemoveAt(exts: seq<Canonical>, i: nat)
    requires i < |exts| && forall j :: 0 <= j < i ==> exts[j].number != exts[i].number
    ensures Remove(exts, exts[i].number) == exts[..i] + exts[i + 1..]
  {
    if i > 0 {
      RemoveAt(exts[1..], i - 1);
    }
  }

  lemma RemoveTakesOne(exts: seq<Canonical>, cb: Canonical)
    requires DistinctNumbers(exts) && cb in exts
    ensures multiset(Remove(exts, cb.number)) == multiset(exts) - multiset{cb}
    ensures DistinctNumbers(Remove(exts, cb.number))
  {
    var i :| 0 <= i < |exts| && exts[i] == cb;
    RemoveAt(exts, i);
    DropMultiset(exts, i);
  }

  /** Step 4.1 of forwarding: the previous-node block is removed if it is the only one. */
  function WithoutPreviousNode(exts: seq<Canonical>): (r: seq<Canonical>)
    ensures |r| <= |exts|
  {
    var prev := ByType(exts, PREVIOUS_NODE);
    if |prev| == 1 then Remove(exts, prev[0].number) else exts
  }

  /** Step 4.2: a previous-node block naming this node is added. */
  function Forwarded(exts: seq<Canonical>, self: Eid): (r: seq<Canonical>)
    requires |exts| <= MAX_LEN
  {
    Add(WithoutPreviousNode(exts), Canonical(0, 0, CRC_NO, PreviousNode(self)))
  }

  lemma {:induction false} ByTypeCounts(exts: seq<Canonical>, code: u64)
    ensures forall x :: multiset(ByType(exts, code))[x] == if x.TypeCode() == code then multiset(exts)[x] else 0
  {
    if exts != [] {
      assert exts == [exts[0]] + exts[1..];
      ByTypeCounts(exts[1..], code);
    }
  }

  lemma AtMostOnePreviousNode(b: Bundle, now: int)
    requires BundleValid(b, now) && WireExts(b.exts)
    ensures |ByType(b.exts, PREVIOUS_NODE)| <= 1
  {
    var all := ByType(b.exts, PREVIOUS_NODE);
    if |all| >= 1 {
      assert all[0] in all;
      var i :| 0 <= i < |b.exts| && b.exts[i] == all[0];
      assert b.exts[i].value.PreviousNode?;
      assert ContextValid(b.exts, b.exts[i].value);
    }
  }

  /** If only `added` has the type among the elements of `r`, it is all that a search by type finds. */
  lemma OnlyOne(left: seq<Canonical>, r: seq<Canonical>, added: Canonical)
    requires multiset(r) == multiset(left) + multiset{added}
    requires added.TypeCode() == PREVIOUS_NODE && ByType(left, PREVIOUS_NODE) == []
    ensures ByType(r, PREVIOUS_NODE) == [added]
    ensures multiset(r) - multiset(ByType(r, PREVIOUS_NODE)) == multiset(left)
  {
    var found := ByType(r, PREVIOUS_NODE);
    assert multiset(found) == multiset{added} by {
      ByTypeCounts(left, PREVIOUS_NODE);
      ByTypeCounts(r, PREVIOUS_NODE);
    }
    assert |found| == |multiset(found)| == 1;
    assert found[0] in multiset(found);
  }

  lemma NoneLeft(exts: seq<Canonical>, left: seq<Canonical>)
    requires multiset(left) == multiset(exts) - multiset(ByType(exts, PREVIOUS_NODE))
    ensures ByType(left, PREVIOUS_NODE) == []
  {
    ByTypeCounts(exts, PREVIOUS_NODE);
    ByTypeCounts(left, PREVIOUS_NODE);
    assert multiset(ByType(left, PREVIOUS_NODE)) == multiset{};
  }

  lemma OnePreviousNodeRemoved(exts: seq<Canonical>, prev: Canonical)
    requires DistinctNumbers(exts) && ByType(exts, PREVIOUS_NODE) == [prev]
    ensures var left := WithoutPreviousNode(exts);
            && DistinctNumbers(left) && multiset(left) == multiset(exts) - multiset(ByType(exts, PREVIOUS_NODE))
  {
    hide DistinctNumbers, Remove, ByType;
    assert prev in ByType(exts, PREVIOUS_NODE);
    RemoveTakesOne(exts, prev);
  }

  lemma NoPreviousNode(exts: seq<Canonical>)
    requires ByType(exts, PREVIOUS_NODE) == []
    ensures WithoutPreviousNode(exts) == exts
    ensures multiset(exts) == multiset(exts) - multiset(ByType(exts, PREVIOUS_NODE))
  {
    hide Remove, ByType;
  }

  lemma ValidNumbers(b: Bundle, now: int)
    requires BundleValid(b, now)
    ensures DistinctNumbers(b.exts)
  {
  }

  lemma PreviousNodeRemoved(b: Bundle, now: int)
    requires BundleValid(b, now) && WireExts(b.exts)
    ensures var left := WithoutPreviousNode(b.exts);
            && DistinctNumbers(left) && ByType(left, PREVIOUS_NODE) == []
            && multiset(left) == multiset(b.exts) - multiset(ByType(b.exts, PREVIOUS_NODE))
  {
    hide BundleValid, WireExts, DistinctNumbers, WithoutPreviousNode, ByType;
    ValidNumbers(b, now);
    AtMostOnePreviousNode(b, now);
    var prev := ByType(b.exts, PREVIOUS_NODE);
    if |prev| == 1 {
      assert prev == [prev[0]];
      OnePreviousNodeRemoved(b.exts, prev[0]);
    } else {
      NoPreviousNode(b.exts);
    }
    NoneLeft(b.exts, WithoutPreviousNode(b.exts));
  }

  /**
    * After the rewrite a valid bundle has exactly one previous-node block, and it names this node;
    * every other extension block is still there with its number and content; the order is kept.
    */
  lemma ForwardingReplacesPreviousNode(b: Bundle, now: int, self: Eid)
    requires BundleValid(b, now) && WireExts(b.exts) && |b.exts| <= MAX_LEN
    ensures var r := Forwarded(b.exts, self);
            && DistinctNumbers(r) && Sorted(r)
            && |ByType(r, PREVIOUS_NODE)| == 1
            && ByType(r, PREVIOUS_NODE)[0].(number := 0) == Canonical(0, 0, CRC_NO, PreviousNode(self))
            && multiset(r) - multiset(ByType(r, PREVIOUS_NODE))
               == multiset(b.exts) - multiset(ByType(b.exts, PREVIOUS_NODE))
  {
    hide BundleValid, WithoutPreviousNode, ByType, FreeNumber, Add, DistinctNumbers, Sorted, Used, WireExts;
    PreviousNodeRemoved(b, now);
    var left := WithoutPreviousNode(b.exts);
    var block := Canonical(0, 0, CRC_NO, PreviousNode(self));
    var added := block.(number := FreeNumber(left, 2));
    AddKeepsNumbering(left, block);
    var r := Forwarded(b.exts, self);
    OnlyOne(left, r, added);
  }

  /** A bundle in memory, whose extension blocks are changed in place. */
  class BundleObject {
    var primary: PrimaryBlock
    var exts: seq<Canonical>
    var payload: Canonical

    constructor (b: Bundle)
      ensures primary == b.primary && exts == b.exts && payload == b.payload
    {
      primary, exts, payload := b.primary, b.exts, b.payload;
    }

    method AddExtensionBlock(block: Canonical)
      requires |exts| <= MAX_LEN
      modifies this`exts
      ensures exts == Add(old(exts), block)
    {
      var numbers: seq<u64> := [];
      for i := 0 to |exts|
        invariant exts == old(exts) && |numbers| == i
        invariant forall k :: 0 <= k < i ==> numbers[k] == exts[k].number
      {
        numbers := numbers + [exts[i].number];
      }
      var number := FirstNumber(block);
      ghost var goal := FreeNumber(exts, number);
      while true
        invariant exts == old(exts) && number <= goal && FreeNumber(exts, number) == goal
        decreases goal - number
      {
        var free := true;
        for i := 0 to |numbers|
          invariant free ==> forall k :: 0 <= k < i ==> numbers[k] != number
          invariant !free ==> Used(exts, number)
        {
          if numbers[i] == number {
            assert exts[i].number == number;
            free := false;
            break;
          }
        }
        if free { break; }
        number := number + 1;
      }
      exts := SortBy(exts + [block.(number := number)], SortKey);
    }

    method RemoveExtensionBlockByBlockNumber(number: u64)
      modifies this`exts
      ensures exts == Remove(old(exts), number)
    {
      for i := 0 to |exts|
        invariant exts == old(exts) && Remove(exts, number) == exts[..i] + Remove(exts[i..], number)
      {
        if exts[i].number == number {
          assert exts[i..][1..] == exts[i + 1..];
          exts := exts[..i] + exts[i + 1..];
          return;
        }
        assert exts[i..][1..] == exts[i + 1..];
      }
    }

    /** Steps 4.1 and 4.2 of the forwarding procedure. */
    method ReplacePreviousNode(self: Eid)
      requires |exts| <= MAX_LEN
      modifies this`exts
      ensures exts == Forwarded(old(exts), self)
    {
      var prev := ByType(exts, PREVIOUS_NODE);
      if |prev| == 1 {
        RemoveExtensionBlockByBlockNumber(prev[0].number);
      }
      AddExtensionBlock(Canonical(0, 0, CRC_NO, PreviousNode(self)));
    }
  }
}
