/** Putting fragments back together (section 5.9 of RFC 9171). */
module Reassembly {
  import opened Bytes
  import opened Endpoint
  import opened Block
  import opened Primary
  import opened Bundle
  import opened Numbering
  import opened Sorting
  import opened Fragmentation

  function Offset(f: Bundle): int { f.primary.offset }

  function Data(f: Bundle): (d: Blob)
    requires f.payload.value.Payload?
  {
    f.payload.value.data
  }

  function End(f: Bundle): int
    requires f.payload.value.Payload?
  {
    Offset(f) + |Data(f)|
  }

  predicate AllPayload(fs: seq<Bundle>) {
    forall i :: 0 <= i < |fs| ==> fs[i].payload.value.Payload?
  }

  /**
    * The gap check over sorted fragments: where the last fragment ends, or nothing if a fragment is
    * none or starts behind the end of its predecessor. The end is overwritten, not a maximum.
    */
  function Scan(fs: seq<Bundle>, last: u64): (r: Option<u64>)
    requires AllPayload(fs)
    decreases |fs|
  {
    if fs == [] then Some(last)
    else if !fs[0].primary.IsFragment() || Offset(fs[0]) > last then None
    else Scan(fs[1..], End(fs[0]) % U64_LIMIT)
  }

  /** Is a sorted slice of fragments complete? */
  predicate Complete(fs: seq<Bundle>)
    requires AllPayload(fs)
  {
    fs != [] && Scan(fs, 0) == Some(fs[0].primary.total)
  }

  /** Joins the payloads of sorted fragments. Slicing a payload out of range panics. */
  function Merge(fs: seq<Bundle>, last: int): (r: Result<bytes>)
    requires AllPayload(fs)
    ensures r.Err? ==> r.error == Panic
    decreases |fs|
  {
    if fs == [] then Ok([])
    else
      var start := WrapInt64(Offset(fs[0]));
      if !(0 <= last - start <= |Data(fs[0])|) then Err(Panic)
      else
        var more :- Merge(fs[1..], start + |Data(fs[0])|);
        Ok(Data(fs[0])[last - start..] + more)
  }

  function ClearFragment(flags: u64): u64 {
    if Has(flags, IS_FRAGMENT) then flags - 1 else flags
  }

  /** Reassembly of a slice that has been sorted already. */
  function ReassembleSorted(fs: seq<Bundle>, now: int): (r: Result<Bundle>)
    requires AllPayload(fs) && forall i :: 0 <= i < |fs| ==> |fs[i].exts| <= MAX_LEN
  {
    if !Complete(fs) then Err(Malformed)
    else
      var f := fs[0];
      var data :- Merge(fs, 0);
      if |data| > MAX_LEN then Err(Panic)
      else
        var b := Bundle(f.primary.(flags := ClearFragment(f.primary.flags), offset := 0, total := 0),
                        AddAll(f.exts),
                        Canonical(1, f.payload.flags, f.payload.crcType, Payload(data)));
        if BundleValid(b, now) then Ok(b) else Err(Malformed)
  }

  /**
    * The reassembled bundle has everything but its payload, and what says that it is a fragment,
    * from the first of the sorted fragments; its blocks are numbered anew.
    */
  lemma ReassembledFromFirst(fs: seq<Bundle>, now: int)
    requires AllPayload(fs) && forall i :: 0 <= i < |fs| ==> |fs[i].exts| <= MAX_LEN
    requires ReassembleSorted(fs, now).Ok? && NoPayload(fs[0].exts)
    ensures var b, f := ReassembleSorted(fs, now).value, fs[0];
            && b.primary.(flags := f.primary.flags, offset := f.primary.offset, total := f.primary.total) == f.primary
            && b.primary.flags == f.primary.flags - f.primary.flags % 2 && b.primary.offset == b.primary.total == 0
            && b.payload == Canonical(1, f.payload.flags, f.payload.crcType, b.payload.value)
            && |b.exts| == |f.exts| && forall k :: 0 <= k < |b.exts| ==> b.exts[k] == f.exts[k].(number := k + 2)
  {
    hide AddAll, Scan, Merge, BundleValid;
    AddAllRenumbers(fs[0].exts);
  }

  // The code, in place

  lemma StillPayload(before: seq<Bundle>, after: seq<Bundle>)
    requires multiset(before) == multiset(after) && AllPayload(before)
    ensures AllPayload(after)
  {
    SameElements(before, after);
    forall i | 0 <= i < |after| ensures after[i].payload.value.Payload? {
      assert after[i] in before;
    }
  }

  /** Sorts the slice and checks for gaps. */
  method PrepareReassembly(a: array<Bundle>) returns (ok: bool)
    requires AllPayload(a[..])
    modifies a
    ensures multiset(a[..]) == old(multiset(a[..])) && SortedBy(a[..], Offset) && AllPayload(a[..])
    ensures ok == Complete(a[..])
  {
    if a.Length == 0 { return false; }
    SortSlice(a, Offset);
    ghost var fs := a[..];
    StillPayload(old(a[..]), fs);
    var last: u64 := 0;
    assert fs[0..] == fs;
    for i := 0 to a.Length
      invariant a[..] == fs && Scan(fs, 0) == Scan(fs[i..], last)
    {
      assert fs[i] == a[i] && fs[i..][1..] == fs[i + 1..];
      if !a[i].primary.IsFragment() || a[i].primary.offset > last { return false; }
      last := (a[i].primary.offset + |a[i].payload.value.data|) % U64_LIMIT;
    }
    ok := a[0].primary.total == last;
  }

  function Join(data: bytes, r: Result<bytes>): Result<bytes> {
    if r.Ok? then Ok(data + r.value) else r
  }

  /** One round of the merge, behind the bytes collected so far. */
  lemma MergeRound(fs: seq<Bundle>, last: int, data: bytes)
    requires fs != [] && AllPayload(fs)
    ensures var start, payload := WrapInt64(Offset(fs[0])), Data(fs[0]);
            Join(data, Merge(fs, last)) ==
              if 0 <= last - start <= |payload|
              then Join(data + payload[last - start..], Merge(fs[1..], start + |payload|)) else Err(Panic)
  {
    hide WrapInt64;
    var start, payload := WrapInt64(Offset(fs[0])), Data(fs[0]);
    var more := Merge(fs[1..], start + |payload|);
    if 0 <= last - start <= |payload| && more.Ok? {
      assert data + (payload[last - start..] + more.value) == data + payload[last - start..] + more.value;
    }
  }

  lemma MergeEnds(fs: seq<Bundle>, last: int, data: bytes)
    requires AllPayload(fs)
    ensures Join([], Merge(fs, 0)) == Merge(fs, 0)
    ensures fs == [] ==> Join(data, Merge(fs, last)) == Ok(data)
  {
    assert Merge(fs, 0).Ok? ==> [] + Merge(fs, 0).value == Merge(fs, 0).value;
    assert data + [] == data;
  }

  method MergePayload(a: array<Bundle>) returns (r: Result<bytes>)
    requires AllPayload(a[..])
    ensures r == Merge(a[..], 0)
  {
    hide WrapInt64, Merge, Join;
    ghost var fs := a[..];
    var last, data: bytes := 0, [];
    assert fs[0..] == fs;
    MergeEnds(fs, last, data);
    for i := 0 to a.Length
      invariant Merge(fs, 0) == Join(data, Merge(fs[i..], last))
    {
      var f := a[i];
      assert fs[i..][0] == f && fs[i..][1..] == fs[i + 1..];
      MergeRound(fs[i..], last, data);
      var start := WrapInt64(f.primary.offset);
      var payload := f.payload.value.data;
      if !(0 <= last - start <= |payload|) { return Err(Panic); }
      data := data + payload[last - start..];
      last := start + |payload|;
    }
    MergeEnds(fs[a.Length..], last, data);
    return Ok(data);
  }

  /** Reassembles fragments, sorting the given slice on the way. */
  method ReassembleFragments(a: array<Bundle>, now: int) returns (r: Result<Bundle>)
    requires AllPayload(a[..]) && forall i :: 0 <= i < a.Length ==> |a[i].exts| <= MAX_LEN
    modifies a
    ensures multiset(a[..]) == old(multiset(a[..])) && SortedBy(a[..], Offset)
    ensures AllPayload(a[..]) && (forall i :: 0 <= i < a.Length ==> |a[i].exts| <= MAX_LEN)
    ensures r == ReassembleSorted(a[..], now)
  {
    hide BundleValid, AddAll, Scan, Merge, SortedBy, Has;
    var ok := PrepareReassembly(a);
    SameElements(a[..], old(a[..]));
    forall i | 0 <= i < a.Length ensures |a[i].exts| <= MAX_LEN {
      assert a[i] in a[..];
      assert a[i] in old(a[..]);
    }
    if !ok { return Err(Malformed); }
    var f := a[0];
    var exts := CopyBlocks(f, 0);
    var data := MergePayload(a);
    if data.Err? { return Err(data.error); }
    if |data.value| > MAX_LEN { return Err(Panic); }
    var b := Bundle(f.primary.(flags := ClearFragment(f.primary.flags), offset := 0, total := 0), exts,
                    Canonical(1, f.payload.flags, f.payload.crcType, Payload(data.value)));
    if !BundleValid(b, now) { return Err(Malformed); }
    return Ok(b);
  }

  // Arbitrary slices of one payload

  predicate SlicesOf(fs: seq<Bundle>, whole: Blob)
    requires AllPayload(fs)
  {
    forall i :: 0 <= i < |fs| ==> End(fs[i]) <= |whole| && Data(fs[i]) == whole[Offset(fs[i])..End(fs[i])]
  }

  /** No fragment ends in front of the end of an earlier one. */
  predicate EndsNeverGoBack(fs: seq<Bundle>)
    requires AllPayload(fs)
  {
    forall i, j :: 0 <= i < j < |fs| ==> End(fs[i]) <= End(fs[j])
  }

  lemma EndsUnfold(fs: seq<Bundle>)
    requires fs != [] && AllPayload(fs)
    ensures EndsNeverGoBack(fs) <==> EndsNeverGoBack(fs[1..]) && (|fs| > 1 ==> End(fs[0]) <= End(fs[1]))
  {
    var tail := fs[1..];
    if EndsNeverGoBack(tail) && (|fs| > 1 ==> End(fs[0]) <= End(fs[1])) {
      forall i, j | 0 <= i < j < |fs| ensures End(fs[i]) <= End(fs[j]) {
        if i > 0 { assert End(tail[i - 1]) <= End(tail[j - 1]); }
        if i == 0 && j > 1 { assert End(tail[0]) <= End(tail[j - 1]); }
      }
    }
    if EndsNeverGoBack(fs) {
      forall i, j | 0 <= i < j < |tail| ensures End(tail[i]) <= End(tail[j]) {
        assert End(fs[i + 1]) <= End(fs[j + 1]);
      }
    }
  }

  lemma MergeUnfold(fs: seq<Bundle>, last: int)
    requires fs != [] && AllPayload(fs) && Offset(fs[0]) <= MAX_LEN
    ensures Merge(fs, last) ==
      if 0 <= last - Offset(fs[0]) <= |Data(fs[0])|
      then Join(Data(fs[0])[last - Offset(fs[0])..], Merge(fs[1..], End(fs[0]))) else Err(Panic)
  {
    assert WrapInt64(Offset(fs[0])) == Offset(fs[0]);
    hide WrapInt64;
  }

  lemma ScanUnfold(fs: seq<Bundle>, last: u64)
    requires fs != [] && AllPayload(fs) && Scan(fs, last).Some? && End(fs[0]) <= MAX_LEN
    ensures Offset(fs[0]) <= last && Scan(fs, last) == Scan(fs[1..], End(fs[0]))
  {
    hide PrimaryBlock.IsFragment;
  }

  lemma SlicesUnfold(fs: seq<Bundle>, whole: Blob)
    requires fs != [] && AllPayload(fs) && SlicesOf(fs, whole)
    ensures SlicesOf(fs[1..], whole) && End(fs[0]) <= |whole| && Data(fs[0]) == whole[Offset(fs[0])..End(fs[0])]
  {
  }

  lemma JoinSlice(whole: bytes, from: nat, last: nat, end: nat)
    requires from <= last <= end <= |whole|
    ensures whole[from..end][last - from..] + whole[end..] == whole[last..]
  {
  }

  lemma {:induction false} MergeFrom(fs: seq<Bundle>, whole: Blob, last: u64)
    requires AllPayload(fs) && SlicesOf(fs, whole) && last <= |whole| && Scan(fs, last) == Some(|whole|)
    ensures Merge(fs, last).Ok? <==> EndsNeverGoBack(fs) && (fs != [] ==> last <= End(fs[0]))
    ensures Merge(fs, last).Ok? ==> Merge(fs, last).value == whole[last..]
    decreases |fs|
  {
    if fs != [] {
      EndsUnfold(fs);
      SlicesUnfold(fs, whole);
      ScanUnfold(fs, last);
      MergeUnfold(fs, last);
      hide EndsNeverGoBack, SlicesOf, Scan, Merge;
      var end := End(fs[0]);
      MergeFrom(fs[1..], whole, end);
      if last <= end {
        JoinSlice(whole, Offset(fs[0]), last, end);
      }
    }
  }

  /**
    * For overlapping slices of one payload, wherever they came from, that pass the gap check:
    * merging slices in range exactly when the end offsets never go backwards, and then it returns
    * the payload.
    */
  lemma MergeRestoresPayload(fs: seq<Bundle>, whole: Blob)
    requires AllPayload(fs) && SlicesOf(fs, whole) && Complete(fs) && fs[0].primary.total == |whole|
    ensures Merge(fs, 0).Ok? <==> EndsNeverGoBack(fs)
    ensures Merge(fs, 0).Ok? ==> Merge(fs, 0).value == whole
  {
    MergeFrom(fs, whole, 0);
    assert whole[0..] == whole;
  }

  function SliceFragment(base: Bundle, whole: Blob, from: nat, to: nat): (f: Bundle)
    requires from <= to <= |whole|
  {
    Bundle(base.primary.(offset := from, total := |whole|), base.exts,
           Canonical(1, base.payload.flags, base.payload.crcType, Payload(whole[from..to])))
  }

  /** A fragment nested in its predecessor passes the gap check and panics in the merge. */
  lemma NestedFragmentPanics(base: Bundle, whole: Blob)
    requires base.primary.IsFragment() && |whole| == 10
    ensures var fs := [SliceFragment(base, whole, 0, 10), SliceFragment(base, whole, 2, 4), SliceFragment(base, whole, 3, 10)];
            SortedBy(fs, Offset) && AllPayload(fs) && SlicesOf(fs, whole) && Complete(fs) && Merge(fs, 0) == Err(Panic)
  {
    var fs := [SliceFragment(base, whole, 0, 10), SliceFragment(base, whole, 2, 4), SliceFragment(base, whole, 3, 10)];
    assert fs[1..] == [fs[1], fs[2]] && fs[1..][1..] == [fs[2]] && fs[1..][1..][1..] == [];
    assert Scan(fs[1..][1..], 4) == Some(10);
    assert Scan(fs[1..], 10) == Some(10);
    MergeRestoresPayload(fs, whole);
    assert End(fs[1]) < End(fs[0]);
  }

  // Fragments of one fragmentation

  /** Where piece `k` starts, if the first one starts at `from`. */
  function Start(ps: seq<Bundle>, from: nat, k: nat): int
    requires AllPayload(ps) && k <= |ps|
  {
    if k == 0 then from else End(ps[k - 1])
  }

  /** Piece `k` is the fragment of `b` for its offsets, and starts where its predecessor ends. */
  ghost predicate PieceAt(ps: seq<Bundle>, b: Bundle, from: nat, k: nat)
    requires b.payload.value.Payload? && |b.exts| <= MAX_LEN && AllPayload(ps) && k < |ps|
  {
    && Offset(ps[k]) == Start(ps, from, k) < End(ps[k]) <= |Data(b)|
    && ps[k] == Piece(b, Offset(ps[k]), End(ps[k]))
  }

  /** The pieces cover the payload of `b` from `from` to its end, each one non-empty, without gap or overlap. */
  ghost predicate Tiling(ps: seq<Bundle>, b: Bundle, from: nat)
    requires b.payload.value.Payload? && |b.exts| <= MAX_LEN
  {
    && AllPayload(ps)
    && (forall k :: 0 <= k < |ps| ==> PieceAt(ps, b, from, k))
    && (if ps == [] then from >= |Data(b)| else End(ps[|ps| - 1]) == |Data(b)|)
  }

  lemma {:induction false} FragmentFromTiles(cs: Checksums, b: Bundle, mtu: i64, now: int, i: nat)
    requires b.payload.value.Payload? && |b.exts| <= MAX_LEN && FragmentFrom(cs, b, mtu, now, i).Ok?
    ensures Tiling(FragmentFrom(cs, b, mtu, now, i).value, b, i)
    decreases |b.payload.value.data| - i
  {
    hide BundleValid, Overhead, PrimaryBytes, AddAll, Carried, EidValid;
    if i < |Data(b)| {
      var next := NextPiece(cs, b, mtu, now, i).value;
      FragmentFromTiles(cs, b, mtu, now, next.1);
      var more := FragmentFrom(cs, b, mtu, now, next.1).value;
      var ps := [next.0] + more;
      assert next.0 == Piece(b, i, End(next.0));
      forall k | 0 <= k < |ps| ensures PieceAt(ps, b, i, k) {
        if k > 0 { assert ps[k] == more[k - 1] && PieceAt(more, b, next.1, k - 1); }
      }
    }
  }

  lemma PieceFacts(ps: seq<Bundle>, b: Bundle, j: nat)
    requires b.payload.value.Payload? && |b.exts| <= MAX_LEN && Tiling(ps, b, 0) && j < |ps|
    ensures Offset(ps[j]) == Start(ps, 0, j) < End(ps[j]) <= |Data(b)|
    ensures ps[j].primary.IsFragment() && ps[j].primary.total == |Data(b)|
  {
    hide AddAll, Carried;
    assert PieceAt(ps, b, 0, j);
  }

  lemma {:induction false} OffsetsIncrease(ps: seq<Bundle>, b: Bundle, i: nat, j: nat)
    requires b.payload.value.Payload? && |b.exts| <= MAX_LEN && Tiling(ps, b, 0) && i < j < |ps|
    ensures End(ps[i]) <= Offset(ps[j])
    decreases j
  {
    hide Piece;
    assert PieceAt(ps, b, 0, j);
    if i < j - 1 {
      OffsetsIncrease(ps, b, i, j - 1);
      assert PieceAt(ps, b, 0, j - 1);
    }
  }

  /** Pieces are told apart, and ordered, by their offsets. */
  lemma PiecesByOffset(ps: seq<Bundle>, b: Bundle, i: nat, j: nat)
    requires b.payload.value.Payload? && |b.exts| <= MAX_LEN && Tiling(ps, b, 0) && i < |ps| && j < |ps|
    ensures Offset(ps[i]) <= Offset(ps[j]) <==> i <= j
    ensures Offset(ps[i]) <= Offset(ps[j]) ==> End(ps[i]) <= End(ps[j])
  {
    hide Piece;
    assert PieceAt(ps, b, 0, i) && PieceAt(ps, b, 0, j);
    if i < j { OffsetsIncrease(ps, b, i, j); }
    if j < i { OffsetsIncrease(ps, b, j, i); }
  }

  ghost predicate DrawnFrom(fs: seq<Bundle>, ps: seq<Bundle>) {
    forall i :: 0 <= i < |fs| ==> fs[i] in ps
  }

  /** Every piece from `k` on occurs. */
  ghost predicate AllFrom(ps: seq<Bundle>, k: nat, fs: seq<Bundle>) {
    forall m :: k <= m < |ps| ==> ps[m] in fs
  }

  /** A later piece in front: the check meets a gap, and piece `k` cannot come any more. */
  lemma GapSeen(fs: seq<Bundle>, ps: seq<Bundle>, b: Bundle, k: nat, j: nat)
    requires b.payload.value.Payload? && |b.exts| <= MAX_LEN && Tiling(ps, b, 0) && k < j < |ps|
    requires fs != [] && fs[0] == ps[j] && SortedBy(fs, Offset)
    ensures Offset(fs[0]) > Start(ps, 0, k) && !AllFrom(ps, k, fs)
  {
    PieceFacts(ps, b, k);
    OffsetsIncrease(ps, b, k, j);
    hide Tiling;
    forall i | 0 <= i < |fs| ensures fs[i] != ps[k] {
      assert Offset(fs[0]) <= Offset(fs[i]);
    }
  }

  lemma TailIsDrawn(fs: seq<Bundle>, ps: seq<Bundle>)
    requires fs != [] && DrawnFrom(fs, ps) && AllPayload(fs) && SortedBy(fs, Offset)
    ensures DrawnFrom(fs[1..], ps) && AllPayload(fs[1..]) && SortedBy(fs[1..], Offset)
    ensures forall i :: 0 <= i < |fs[1..]| ==> Offset(fs[1..][i]) >= Offset(fs[0])
    ensures exists j :: 0 <= j < |ps| && ps[j] == fs[0]
  {
    assert fs[0] in ps;
  }

  lemma ScanFirst(fs: seq<Bundle>, last: u64)
    requires fs != [] && AllPayload(fs)
    ensures Offset(fs[0]) > last ==> Scan(fs, last).None?
    ensures fs[0].primary.IsFragment() && Offset(fs[0]) <= last && End(fs[0]) < U64_LIMIT ==>
              Scan(fs, last) == Scan(fs[1..], End(fs[0]))
  {
  }

  lemma NothingLeftToScan(fs: seq<Bundle>, ps: seq<Bundle>, b: Bundle, k: nat, last: u64)
    requires b.payload.value.Payload? && |b.exts| <= MAX_LEN && Tiling(ps, b, 0) && ps != [] && k <= |ps|
    requires last == Start(ps, 0, k) && fs == []
    ensures Scan(fs, last) == Some(|Data(b)|) <==> AllFrom(ps, k, fs)
  {
    if k < |ps| {
      PieceFacts(ps, b, k);
      assert ps[k] !in fs;
    }
  }

  /** Having seen pieces below `k`, the gap check succeeds exactly when all pieces from `k` on are still to come. */
  lemma {:induction false} ScanNeedsAllPieces(fs: seq<Bundle>, ps: seq<Bundle>, b: Bundle, k: nat, last: u64)
    requires b.payload.value.Payload? && |b.exts| <= MAX_LEN && Tiling(ps, b, 0) && ps != [] && k <= |ps|
    requires last == Start(ps, 0, k)
    requires DrawnFrom(fs, ps) && AllPayload(fs) && SortedBy(fs, Offset)
    requires k > 0 ==> forall i :: 0 <= i < |fs| ==> Offset(fs[i]) >= Offset(ps[k - 1])
    ensures Scan(fs, last) == Some(|Data(b)|) <==> AllFrom(ps, k, fs)
    decreases |fs|
  {
    hide Tiling, Piece, PieceAt, DrawnFrom, SortedBy, AllFrom, Scan;
    if fs == [] {
      NothingLeftToScan(fs, ps, b, k, last);
    } else {
      TailIsDrawn(fs, ps);
      ScanFirst(fs, last);
      var j :| 0 <= j < |ps| && ps[j] == fs[0];
      if k > 0 { PiecesByOffset(ps, b, k - 1, j); }
      if j > k {
        GapSeen(fs, ps, b, k, j);
      } else {
        PieceFacts(ps, b, j);
        ScanNeedsAllPieces(fs[1..], ps, b, j + 1, End(fs[0]));
        SameRemaining(fs, ps, b, j, k);
      }
    }
  }

  lemma SameRemaining(fs: seq<Bundle>, ps: seq<Bundle>, b: Bundle, j: nat, k: nat)
    requires b.payload.value.Payload? && |b.exts| <= MAX_LEN && Tiling(ps, b, 0)
    requires fs != [] && j < |ps| && fs[0] == ps[j] && j <= k <= j + 1
    ensures AllFrom(ps, k, fs) <==> AllFrom(ps, j + 1, fs[1..])
  {
    hide Tiling;
    forall m | j + 1 <= m < |ps| ensures ps[m] in fs <==> ps[m] in fs[1..] {
      PiecesByOffset(ps, b, m, j);
      assert fs == [fs[0]] + fs[1..];
    }
  }

  /** The pieces of a fragmentation into two or more. */
  lemma PiecesTile(cs: Checksums, b: Bundle, mtu: i64, now: int)
    requires b.payload.value.Payload? && |b.exts| <= MAX_LEN
    requires Fragment(cs, b, mtu, now).Ok? && |Fragment(cs, b, mtu, now).value| >= 2
    ensures Tiling(Fragment(cs, b, mtu, now).value, b, 0)
  {
    hide FragmentFrom;
    FragmentFromTiles(cs, b, mtu, now, 0);
  }

  lemma CompleteIffAllOf(ps: seq<Bundle>, b: Bundle, drawn: seq<Bundle>, fs: seq<Bundle>)
    requires b.payload.value.Payload? && |b.exts| <= MAX_LEN && Tiling(ps, b, 0) && ps != []
    requires DrawnFrom(drawn, ps) && multiset(fs) == multiset(drawn) && SortedBy(fs, Offset)
    ensures AllPayload(fs) && DrawnFrom(fs, ps)
    ensures Complete(fs) <==> forall p :: p in ps ==> p in drawn
  {
    hide Piece, SortedBy, Scan;
    SameElements(fs, drawn);
    forall i | 0 <= i < |fs| ensures fs[i] in ps && fs[i].payload.value.Payload? {
      assert fs[i] in drawn;
    }
    ScanNeedsAllPieces(fs, ps, b, 0, 0);
    if fs != [] {
      assert fs[0] in ps;
      var j :| 0 <= j < |ps| && ps[j] == fs[0];
      PieceFacts(ps, b, j);
    } else {
      assert ps[0] !in drawn;
    }
  }

  /**
    * A collection drawn, with repetition, from the two or more pieces of a fragmentation is found
    * complete exactly when every piece occurs in it. `fs` is the collection in any sorted order.
    */
  lemma CompleteIffAllPieces(cs: Checksums, b: Bundle, mtu: i64, now: int, drawn: seq<Bundle>, fs: seq<Bundle>)
    requires b.payload.value.Payload? && |b.exts| <= MAX_LEN
    requires Fragment(cs, b, mtu, now).Ok? && |Fragment(cs, b, mtu, now).value| >= 2
    requires DrawnFrom(drawn, Fragment(cs, b, mtu, now).value)
    requires multiset(fs) == multiset(drawn) && SortedBy(fs, Offset)
    ensures AllPayload(fs)
    ensures Complete(fs) <==> forall p :: p in Fragment(cs, b, mtu, now).value ==> p in drawn
  {
    hide Fragment, Tiling, Complete, DrawnFrom, SortedBy;
    PiecesTile(cs, b, mtu, now);
    CompleteIffAllOf(Fragment(cs, b, mtu, now).value, b, drawn, fs);
  }

  // Reassembly undoes fragmentation

  lemma {:induction false} ByTypeIgnoresNumbers(a: seq<Canonical>, b: seq<Canonical>, code: u64)
    requires |a| == |b| && forall i :: 0 <= i < |a| ==> a[i].(number := 0) == b[i].(number := 0)
    ensures var x, y := ByType(a, code), ByType(b, code);
            |x| == |y| && forall i :: 0 <= i < |x| ==> x[i].value == y[i].value
  {
    hide Canonical.TypeCode;
    if a != [] {
      NumberIgnored(a[0], b[0]);
      ByTypeIgnoresNumbers(a[1..], b[1..], code);
    }
  }

  lemma NumberIgnored(x: Canonical, y: Canonical)
    requires x.(number := 0) == y.(number := 0)
    ensures x.value == y.value && x.TypeCode() == y.TypeCode()
  {
  }

  /** A bundle with its payload, and only that, in the payload's place. */
  predicate Whole(b: Bundle) {
    b.payload.value.Payload? && b.payload.number == 1 && |b.exts| <= MAX_LEN && NoPayload(b.exts)
  }

  /** Renumbering blocks does not change whether a bundle is valid. */
  lemma RenumberedStaysValid(b: Bundle, now: int)
    requires BundleValid(b, now) && Whole(b)
    ensures BundleValid(b.(exts := Renumbered(b.exts)), now)
  {
    hide Deadline, Has, PrimaryBlock.Valid, EidValid;
    var r := Renumbered(b.exts);
    ByTypeIgnoresNumbers(b.exts, r, BUNDLE_AGE);
    forall i | 0 <= i < |r| ensures r[i].Valid() && ContextValid(r, r[i].value) {
      ByTypeIgnoresNumbers(b.exts, r, r[i].TypeCode());
      assert b.exts[i].Valid() && ContextValid(b.exts, b.exts[i].value);
    }
    assert LifetimeExceeded(b.primary, r, now) == LifetimeExceeded(b.primary, b.exts, now);
  }

  lemma PiecesMerge(fs: seq<Bundle>, ps: seq<Bundle>, b: Bundle)
    requires b.payload.value.Payload? && |b.exts| <= MAX_LEN && Tiling(ps, b, 0) && ps != []
    requires AllPayload(fs) && DrawnFrom(fs, ps) && SortedBy(fs, Offset) && Complete(fs)
    ensures fs[0] == ps[0] && Merge(fs, 0) == Ok(Data(b))
  {
    hide AddAll;
    forall i | 0 <= i < |fs|
      ensures End(fs[i]) <= |Data(b)| && Data(fs[i]) == Data(b)[Offset(fs[i])..End(fs[i])]
    {
      var k :| 0 <= k < |ps| && ps[k] == fs[i];
      assert PieceAt(ps, b, 0, k);
    }
    forall i, j | 0 <= i < j < |fs| ensures End(fs[i]) <= End(fs[j]) {
      var k :| 0 <= k < |ps| && ps[k] == fs[i];
      var l :| 0 <= l < |ps| && ps[l] == fs[j];
      PiecesByOffset(ps, b, k, l);
    }
    var j :| 0 <= j < |ps| && ps[j] == fs[0];
    PieceFacts(ps, b, j);
    assert Offset(fs[0]) == 0;
    assert PieceAt(ps, b, 0, 0);
    PiecesByOffset(ps, b, j, 0);
    MergeRestoresPayload(fs, Data(b));
  }

  /** What the first piece keeps of the bundle: everything but the rest of the payload. */
  lemma FirstPiece(ps: seq<Bundle>, b: Bundle)
    requires Whole(b) && Tiling(ps, b, 0) && ps != []
    requires !b.primary.IsFragment() && b.primary.offset == 0 && b.primary.total == 0
    ensures var f := ps[0];
            && f.primary.(flags := ClearFragment(f.primary.flags), offset := 0, total := 0) == b.primary
            && f.exts == Renumbered(b.exts) && AddAll(f.exts) == Renumbered(b.exts)
            && f.payload.flags == b.payload.flags && f.payload.crcType == b.payload.crcType
  {
    hide AddAll, Renumbered, NoPayload;
    assert PieceAt(ps, b, 0, 0);
    AddAllRenumbers(b.exts);
    RenumberedTwice(b.exts);
  }

  lemma RenumberedTwice(exts: seq<Canonical>)
    requires |exts| <= MAX_LEN && NoPayload(exts)
    ensures AddAll(Renumbered(exts)) == Renumbered(exts)
  {
    hide AddAll;
    var r := Renumbered(exts);
    AddAllRenumbers(r);
    assert Renumbered(r) == r;
  }

  lemma PieceBlocks(ps: seq<Bundle>, b: Bundle, f: Bundle)
    requires Whole(b) && Tiling(ps, b, 0) && f in ps
    ensures |f.exts| <= MAX_LEN
  {
    hide AddAll;
    var k :| 0 <= k < |ps| && ps[k] == f;
    assert PieceAt(ps, b, 0, k);
  }

  lemma PiecesReassemble(fs: seq<Bundle>, ps: seq<Bundle>, b: Bundle, later: int)
    requires Whole(b) && BundleValid(b, later) && Tiling(ps, b, 0) && ps != []
    requires !b.primary.IsFragment() && b.primary.offset == 0 && b.primary.total == 0
    requires AllPayload(fs) && DrawnFrom(fs, ps) && SortedBy(fs, Offset) && Complete(fs)
    requires forall i :: 0 <= i < |fs| ==> |fs[i].exts| <= MAX_LEN
    ensures ReassembleSorted(fs, later) == Ok(b.(exts := Renumbered(b.exts)))
  {
    RenumberedStaysValid(b, later);
    PiecesMerge(fs, ps, b);
    FirstPiece(ps, b);
    hide BundleValid, AddAll, Merge, Complete, Tiling, PrimaryBlock.IsFragment, DistinctNumbers;
  }

  lemma RenumberingFixes(exts: seq<Canonical>)
    requires |exts| <= MAX_LEN
    ensures Renumbered(exts) == exts <==> forall i :: 0 <= i < |exts| ==> exts[i].number == i + 2
  {
    var r := Renumbered(exts);
    assert |r| == |exts| && forall i :: 0 <= i < |r| ==> r[i] == exts[i].(number := i + 2);
    if r == exts {
      forall i | 0 <= i < |exts| ensures exts[i].number == i + 2 {
        assert r[i].number == i + 2;
      }
    } else {
      var i :| 0 <= i < |exts| && r[i] != exts[i];
    }
  }

  /**
    * Any arrangement of the two or more pieces of a fragmentation, with any piece repeated,
    * reassembles to the bundle with its extension blocks numbered from 2 in order; to the very same
    * bundle exactly when its blocks were numbered so from the start.
    */
  lemma ReassemblyUndoesFragmentation(
      cs: Checksums, b: Bundle, mtu: i64, now: int, drawn: seq<Bundle>, fs: seq<Bundle>, later: int)
    requires BundleValid(b, later) && b.payload.value.Payload? && NoPayload(b.exts) && |b.exts| <= MAX_LEN
    requires !b.primary.IsFragment() && b.primary.offset == 0 && b.primary.total == 0
    requires Fragment(cs, b, mtu, now).Ok? && |Fragment(cs, b, mtu, now).value| >= 2
    requires DrawnFrom(drawn, Fragment(cs, b, mtu, now).value)
    requires forall p :: p in Fragment(cs, b, mtu, now).value ==> p in drawn
    requires multiset(fs) == multiset(drawn) && SortedBy(fs, Offset)
    ensures AllPayload(fs) && forall i :: 0 <= i < |fs| ==> |fs[i].exts| <= MAX_LEN
    ensures ReassembleSorted(fs, later) == Ok(b.(exts := Renumbered(b.exts)))
    ensures ReassembleSorted(fs, later) == Ok(b) <==> forall i :: 0 <= i < |b.exts| ==> b.exts[i].number == i + 2
  {
    assert Whole(b);
    CompleteIffAllPieces(cs, b, mtu, now, drawn, fs);
    PiecesTile(cs, b, mtu, now);
    var ps := Fragment(cs, b, mtu, now).value;
    hide Fragment, BundleValid, AddAll, Merge, Scan, Complete, PrimaryBlock.IsFragment;
    SameElements(fs, drawn);
    forall i | 0 <= i < |fs| ensures fs[i] in ps && |fs[i].exts| <= MAX_LEN {
      assert fs[i] in drawn;
      PieceBlocks(ps, b, fs[i]);
    }
    PiecesReassemble(fs, ps, b, later);
    RenumberingFixes(b.exts);
    hide Renumbered;
    assert b.(exts := Renumbered(b.exts)).exts == Renumbered(b.exts);
  }
}
