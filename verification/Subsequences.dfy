/** Which elements of a sequence another one takes over, and that it keeps their order. */
module Subsequences {
  predicate Increasing(idx: seq<nat>) {
    forall i, j :: 0 <= i < j < |idx| ==> idx[i] < idx[j]
  }

  /** `r` has the elements of `s` at the positions `idx`, in the order of `s`. */
  predicate Picks<T(==)>(r: seq<T>, s: seq<T>, idx: seq<nat>) {
    && |idx| == |r| && Increasing(idx)
    && forall k :: 0 <= k < |r| ==> idx[k] < |s| && r[k] == s[idx[k]]
  }

  predicate Distinct<T(==)>(s: seq<T>) {
    forall i, j :: 0 <= i < j < |s| ==> s[i] != s[j]
  }

  lemma PicksDistinct<T>(r: seq<T>, s: seq<T>, idx: seq<nat>)
    requires Picks(r, s, idx) && Distinct(s)
    ensures Distinct(r)
  {
    forall i, j | 0 <= i < j < |r| ensures r[i] != r[j] {
      assert idx[i] < idx[j];
    }
  }

  /** One more element, which is taken or left. */
  lemma PickLast<T>(r: seq<T>, s: seq<T>, idx: seq<nat>, taken: bool)
    requires s != [] && Picks(r, s[..|s| - 1], idx)
    ensures var n := |s| - 1;
            var more := if taken then idx + [n] else idx;
            && Picks(r + (if taken then [s[n]] else []), s, more)
            && n !in idx && forall i :: i in more <==> i in idx || (taken && i == n)
  {
    var n := |s| - 1;
    forall k | 0 <= k < |idx| ensures idx[k] < n && s[idx[k]] == r[k] {
      assert s[..n][idx[k]] == s[idx[k]];
    }
    if taken {
      var more := idx + [n];
      assert more[|idx|] == n;
    } else {
      assert r + [] == r;
    }
  }

  /** The elements of `s` that are marked. */
  function Kept<T>(s: seq<T>, keep: seq<bool>): (r: seq<T>)
    requires |keep| == |s|
  {
    if s == [] then []
    else
      var n := |s| - 1;
      Kept(s[..n], keep[..n]) + if keep[n] then [s[n]] else []
  }

  ghost predicate MarkedBy(idx: seq<nat>, keep: seq<bool>) {
    forall i :: 0 <= i < |keep| ==> (i in idx <==> keep[i])
  }

  lemma MarkLast(before: seq<nat>, idx: seq<nat>, keep: seq<bool>)
    requires keep != [] && MarkedBy(before, keep[..|keep| - 1]) && |keep| - 1 !in before
    requires forall i :: i in idx <==> i in before || (keep[|keep| - 1] && i == |keep| - 1)
    ensures MarkedBy(idx, keep)
  {
    forall i | 0 <= i < |keep| ensures i in idx <==> keep[i] {
      if i < |keep| - 1 { assert keep[..|keep| - 1][i] == keep[i]; }
    }
  }

  lemma {:induction false} KeptPicks<T>(s: seq<T>, keep: seq<bool>) returns (idx: seq<nat>)
    requires |keep| == |s|
    ensures Picks(Kept(s, keep), s, idx) && MarkedBy(idx, keep)
  {
    if s == [] {
      idx := [];
    } else {
      hide Picks, MarkedBy;
      var n := |s| - 1;
      var before := KeptPicks(s[..n], keep[..n]);
      PickLast(Kept(s[..n], keep[..n]), s, before, keep[n]);
      idx := if keep[n] then before + [n] else before;
      MarkLast(before, idx, keep);
    }
  }
}
