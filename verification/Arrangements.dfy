/** Reassembly of overlapping slices, whichever way an unstable sort arranges them. */
module Arrangements {
  import opened Bytes
  import opened Primary
  import opened Bundle
  import opened Sorting
  import opened Reassembly

  /** An outcome of sorting `c` by offset. */
  ghost predicate ArrangementOf(fs: seq<Bundle>, c: seq<Bundle>) {
    multiset(fs) == multiset(c) && SortedBy(fs, Offset)
  }

  /** Slices of one payload, in any order, each announcing its length. */
  predicate Slices(c: seq<Bundle>, whole: Blob) {
    AllPayload(c) && SlicesOf(c, whole) && forall i :: 0 <= i < |c| ==> c[i].primary.total == |whole|
  }

  /** No slice that starts not behind another one ends behind it. */
  predicate NoNesting(c: seq<Bundle>)
    requires AllPayload(c)
  {
    forall i, j :: 0 <= i < |c| && 0 <= j < |c| && Offset(c[i]) <= Offset(c[j]) ==> End(c[i]) <= End(c[j])
  }

  lemma ArrangedSlices(fs: seq<Bundle>, c: seq<Bundle>, whole: Blob)
    requires ArrangementOf(fs, c) && Slices(c, whole)
    ensures Slices(fs, whole)
  {
    hide SortedBy;
    SameElements(fs, c);
    forall i | 0 <= i < |fs|
      ensures fs[i].payload.value.Payload? && fs[i].primary.total == |whole|
      ensures End(fs[i]) <= |whole| && Data(fs[i]) == whole[Offset(fs[i])..End(fs[i])]
    {
      assert fs[i] in c;
    }
  }

  lemma ArrangedNoNesting(fs: seq<Bundle>, c: seq<Bundle>)
    requires ArrangementOf(fs, c) && AllPayload(c) && NoNesting(c)
    ensures AllPayload(fs) && NoNesting(fs) && EndsNeverGoBack(fs)
  {
    SameElements(fs, c);
    forall i | 0 <= i < |fs| ensures fs[i].payload.value.Payload? {
      assert fs[i] in c;
    }
    forall i, j | 0 <= i < |fs| && 0 <= j < |fs| && Offset(fs[i]) <= Offset(fs[j]) ensures End(fs[i]) <= End(fs[j]) {
      assert fs[i] in c && fs[j] in c;
    }
  }

  // The gap check does not depend on the arrangement

  ghost predicate AllFragments(fs: seq<Bundle>) {
    forall i :: 0 <= i < |fs| ==> fs[i].primary.IsFragment()
  }

  lemma {:induction false} ScannedAreFragments(fs: seq<Bundle>, last: u64)
    requires AllPayload(fs) && Scan(fs, last).Some?
    ensures AllFragments(fs)
    decreases |fs|
  {
    hide PrimaryBlock.IsFragment;
    if fs != [] {
      ScannedAreFragments(fs[1..], End(fs[0]) % U64_LIMIT);
      forall i | 0 <= i < |fs| ensures fs[i].primary.IsFragment() {
        if i > 0 { assert fs[1..][i - 1].primary.IsFragment(); }
      }
    }
  }

  /** The fragments start and end in the same places. */
  predicate SameExtents(a: seq<Bundle>, b: seq<Bundle>)
    requires AllPayload(a) && AllPayload(b)
  {
    |a| == |b| && forall i :: 0 <= i < |a| ==> Offset(a[i]) == Offset(b[i]) && End(a[i]) == End(b[i])
  }

  lemma {:induction false} ScanByExtents(a: seq<Bundle>, b: seq<Bundle>, last: u64)
    requires AllPayload(a) && AllPayload(b) && SameExtents(a, b) && AllFragments(a) && AllFragments(b)
    ensures Scan(a, last) == Scan(b, last)
    decreases |a|
  {
    hide PrimaryBlock.IsFragment;
    if a != [] {
      ScanByExtents(a[1..], b[1..], End(a[0]) % U64_LIMIT);
    }
  }

  lemma ArrangementsAlike(a: seq<Bundle>, b: seq<Bundle>, c: seq<Bundle>)
    requires ArrangementOf(a, c) && ArrangementOf(b, c) && AllPayload(c) && NoNesting(c)
    ensures AllPayload(a) && AllPayload(b) && SameExtents(a, b)
  {
    hide SortedBy, EndsNeverGoBack;
    ArrangedNoNesting(a, c);
    ArrangedNoNesting(b, c);
    SameElements(a, b);
    forall k | 0 <= k < |a| ensures Offset(a[k]) == Offset(b[k]) && End(a[k]) == End(b[k]) {
      SortedKeysAgree(a, b, Offset, k);
      assert b[k] in a;
      var m :| 0 <= m < |a| && a[m] == b[k];
      assert End(a[k]) <= End(a[m]) && End(a[m]) <= End(a[k]);
    }
  }

  lemma ArrangedFragments(fs: seq<Bundle>, a: seq<Bundle>)
    requires multiset(fs) == multiset(a) && AllFragments(a)
    ensures AllFragments(fs)
  {
    SameElements(fs, a);
    forall i | 0 <= i < |fs| ensures fs[i].primary.IsFragment() {
      assert fs[i] in a;
    }
  }

  /** Without nesting, one arrangement passes the gap check exactly if any other one does. */
  lemma CompleteTogether(a: seq<Bundle>, fs: seq<Bundle>, c: seq<Bundle>, whole: Blob)
    requires ArrangementOf(a, c) && ArrangementOf(fs, c) && Slices(c, whole) && NoNesting(c)
    ensures AllPayload(a) && AllPayload(fs) && (Complete(a) ==> Complete(fs))
  {
    hide SortedBy, Scan, SlicesOf, NoNesting, AllFragments;
    ArrangedSlices(a, c, whole);
    ArrangedSlices(fs, c, whole);
    ArrangementsAlike(a, fs, c);
    if Complete(a) {
      ScannedAreFragments(a, 0);
      ArrangedFragments(fs, a);
      ScanByExtents(a, fs, 0);
    }
  }

  // Nesting shows in some arrangement

  /** If `x` starts not behind `y` but ends behind it, some arrangement has `x` in front of `y`. */
  lemma NestedArrangement(a: seq<Bundle>, c: seq<Bundle>, i: nat, j: nat) returns (fs: seq<Bundle>)
    requires ArrangementOf(a, c) && AllPayload(c) && i < |c| && j < |c|
    requires Offset(c[i]) <= Offset(c[j]) && End(c[i]) > End(c[j])
    ensures ArrangementOf(fs, c) && AllPayload(fs) && !EndsNeverGoBack(fs)
  {
    hide SortedBy;
    SameElements(a, c);
    assert c[i] in a && c[j] in a;
    var m :| 0 <= m < |a| && a[m] == c[i];
    var n :| 0 <= n < |a| && a[n] == c[j];
    StillPayload(c, a);
    if m < n {
      assert End(a[m]) > End(a[n]);
      return a;
    }
    SortedPair(a, n, m);
    SwapEqualKeys(a, Offset, n, m);
    fs := a[n := a[m]][m := a[n]];
    StillPayload(c, fs);
    assert fs[n] == c[i] && fs[m] == c[j];
  }

  lemma SortedPair(a: seq<Bundle>, i: nat, j: nat)
    requires SortedBy(a, Offset) && i < j < |a|
    ensures Offset(a[i]) <= Offset(a[j])
  {
  }

  // The theorem

  ghost predicate Reassembles(fs: seq<Bundle>, whole: Blob) {
    AllPayload(fs) && Complete(fs) && Merge(fs, 0) == Ok(whole)
  }

  lemma EveryOne(c: seq<Bundle>, whole: Blob, a: seq<Bundle>, fs: seq<Bundle>)
    requires Slices(c, whole) && NoNesting(c) && ArrangementOf(a, c) && AllPayload(a) && Complete(a)
    requires ArrangementOf(fs, c)
    ensures Reassembles(fs, whole)
  {
    hide SortedBy, SlicesOf, Merge, NoNesting;
    CompleteTogether(a, fs, c, whole);
    ArrangedSlices(fs, c, whole);
    ArrangedNoNesting(fs, c);
    MergeRestoresPayload(fs, whole);
  }

  lemma SomeOneFails(c: seq<Bundle>, whole: Blob, a: seq<Bundle>)
    requires Slices(c, whole) && !NoNesting(c) && ArrangementOf(a, c)
    ensures exists fs :: ArrangementOf(fs, c) && !Reassembles(fs, whole)
  {
    hide SortedBy, SlicesOf, Merge, EndsNeverGoBack;
    var i, j :| 0 <= i < |c| && 0 <= j < |c| && Offset(c[i]) <= Offset(c[j]) && End(c[i]) > End(c[j]);
    var fs := NestedArrangement(a, c, i, j);
    ArrangedSlices(fs, c, whole);
    if Complete(fs) {
      MergeRestoresPayload(fs, whole);
    }
  }

  /**
    * Slices of one payload reassemble to it whichever way they are sorted exactly if one arrangement
    * passes the gap check and no slice that starts not behind another one ends behind it.
    */
  lemma EveryArrangementReassembles(c: seq<Bundle>, whole: Blob)
    requires Slices(c, whole)
    ensures (forall fs :: ArrangementOf(fs, c) ==> Reassembles(fs, whole))
            <==> AllPayload(SortBy(c, Offset)) && Complete(SortBy(c, Offset)) && NoNesting(c)
  {
    hide SortedBy, SlicesOf, Merge, Complete, NoNesting, AllPayload;
    var a := SortBy(c, Offset);
    SortByCorrect(c, Offset);
    assert ArrangementOf(a, c);
    if AllPayload(a) && Complete(a) && NoNesting(c) {
      forall fs | ArrangementOf(fs, c) ensures Reassembles(fs, whole) {
        EveryOne(c, whole, a, fs);
      }
    }
    if !NoNesting(c) {
      SomeOneFails(c, whole, a);
    }
  }

  // Completeness is coverage

  /** Some fragment has payload byte `x`. */
  predicate HasByte(fs: seq<Bundle>, x: int)
    requires AllPayload(fs)
  {
    exists i :: 0 <= i < |fs| && Offset(fs[i]) <= x < End(fs[i])
  }

  predicate HasBytes(fs: seq<Bundle>, from: int, to: int)
    requires AllPayload(fs)
  {
    forall x :: from <= x < to ==> HasByte(fs, x)
  }

  lemma FirstHasByte(fs: seq<Bundle>, x: int)
    requires fs != [] && AllPayload(fs)
    ensures HasByte(fs, x) <==> Offset(fs[0]) <= x < End(fs[0]) || HasByte(fs[1..], x)
  {
    if HasByte(fs[1..], x) {
      var i :| 0 <= i < |fs[1..]| && Offset(fs[1..][i]) <= x < End(fs[1..][i]);
      assert fs[i + 1] == fs[1..][i];
    }
    if HasByte(fs, x) {
      var i :| 0 <= i < |fs| && Offset(fs[i]) <= x < End(fs[i]);
      if i > 0 { assert fs[1..][i - 1] == fs[i]; }
    }
  }

  lemma FirstHasBytes(fs: seq<Bundle>, last: int, total: int)
    requires fs != [] && AllPayload(fs) && Offset(fs[0]) <= last <= End(fs[0]) <= total
    ensures HasBytes(fs, last, total) <==> HasBytes(fs[1..], End(fs[0]), total)
  {
    hide HasByte;
    if HasBytes(fs, last, total) {
      forall x | End(fs[0]) <= x < total ensures HasByte(fs[1..], x) {
        assert HasByte(fs, x);
        FirstHasByte(fs, x);
      }
    }
    if HasBytes(fs[1..], End(fs[0]), total) {
      forall x | last <= x < total ensures HasByte(fs, x) {
        FirstHasByte(fs, x);
        if x >= End(fs[0]) { assert HasByte(fs[1..], x); }
      }
    }
  }

  lemma GapMisses(fs: seq<Bundle>, last: int, total: int)
    requires fs != [] && AllPayload(fs) && SortedBy(fs, Offset) && last < Offset(fs[0]) && last < total
    ensures !HasBytes(fs, last, total)
  {
    assert !HasByte(fs, last);
  }

  lemma SortedTail(fs: seq<Bundle>, total: int)
    requires fs != [] && AllPayload(fs) && SortedBy(fs, Offset) && EndsNeverGoBack(fs) && AllFragments(fs)
    requires forall i :: 0 <= i < |fs| ==> End(fs[i]) <= total
    ensures SortedBy(fs[1..], Offset) && EndsNeverGoBack(fs[1..]) && AllFragments(fs[1..])
    ensures forall i :: 0 <= i < |fs[1..]| ==> End(fs[1..][i]) <= total && End(fs[0]) <= End(fs[1..][i])
  {
  }

  /** With fragments in order and ends that never go back, the gap check finds exactly whether a byte is missing. */
  lemma {:induction false} ScanIffCovered(fs: seq<Bundle>, last: u64, total: u64)
    requires AllPayload(fs) && SortedBy(fs, Offset) && EndsNeverGoBack(fs) && AllFragments(fs) && last <= total
    requires forall i :: 0 <= i < |fs| ==> last <= End(fs[i]) <= total
    ensures Scan(fs, last) == Some(total) <==> HasBytes(fs, last, total)
    decreases |fs|
  {
    if fs == [] {
      if last < total { assert !HasByte(fs, last); }
    } else {
      SortedTail(fs, total);
      assert fs[0].primary.IsFragment();
      hide SortedBy, EndsNeverGoBack, AllFragments, HasBytes, PrimaryBlock.IsFragment;
      var end := End(fs[0]);
      if Offset(fs[0]) > last {
        GapMisses(fs, last, total);
      } else {
        ScanIffCovered(fs[1..], end, total);
        FirstHasBytes(fs, last, total);
      }
    }
  }

  lemma SameBytes(a: seq<Bundle>, b: seq<Bundle>, total: int)
    requires multiset(a) == multiset(b) && AllPayload(a) && AllPayload(b)
    ensures HasBytes(a, 0, total) ==> HasBytes(b, 0, total)
  {
    SameElements(a, b);
    if HasBytes(a, 0, total) {
      forall x | 0 <= x < total ensures HasByte(b, x) {
        assert HasByte(a, x);
        var i :| 0 <= i < |a| && Offset(a[i]) <= x < End(a[i]);
        assert a[i] in b;
      }
    }
  }

  lemma CompleteIffCovered(fs: seq<Bundle>, whole: Blob)
    requires Slices(fs, whole) && SortedBy(fs, Offset) && EndsNeverGoBack(fs)
    ensures Complete(fs) <==> fs != [] && AllFragments(fs) && HasBytes(fs, 0, |whole|)
  {
    if fs != [] && AllFragments(fs) {
      ScanIffCovered(fs, 0, |whole|);
    }
    if Complete(fs) {
      ScannedAreFragments(fs, 0);
    }
  }

  /**
    * A non-empty collection of slices of one payload reassembles to it, whichever way an unstable
    * sort arranges them, exactly if all are fragments, no byte is missing, and no slice that starts
    * not behind another one ends behind it.
    */
  lemma ReassemblesIffCovered(c: seq<Bundle>, whole: Blob)
    requires Slices(c, whole)
    ensures (forall fs :: ArrangementOf(fs, c) ==> Reassembles(fs, whole))
            <==> c != [] && AllFragments(c) && NoNesting(c) && HasBytes(c, 0, |whole|)
  {
    var a := SortBy(c, Offset);
    EveryArrangementReassembles(c, whole);
    SortByCorrect(c, Offset);
    assert ArrangementOf(a, c);
    ArrangedSlices(a, c, whole);
    hide SortedBy, SlicesOf, Merge, Complete, NoNesting, HasBytes, AllFragments, SortBy;
    if NoNesting(c) {
      ArrangedNoNesting(a, c);
      CompleteIffCovered(a, whole);
      SameBytes(a, c, |whole|);
      SameBytes(c, a, |whole|);
      FragmentsTogether(a, c);
    }
  }

  lemma FragmentsTogether(a: seq<Bundle>, c: seq<Bundle>)
    requires multiset(a) == multiset(c)
    ensures AllFragments(a) <==> AllFragments(c)
    ensures a == [] <==> c == []
  {
    hide AllFragments;
    SameElements(a, c);
    if AllFragments(a) { ArrangedFragments(c, a); }
    if AllFragments(c) { ArrangedFragments(a, c); }
  }
}
