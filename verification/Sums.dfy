/** Sums and counts over sequences of numbers. */
module Sums {
  function Sum(xs: seq<int>): (n: int)
    ensures (forall i :: 0 <= i < |xs| ==> xs[i] >= 0) ==> n >= 0
  {
    if xs == [] then 0 else xs[0] + Sum(xs[1..])
  }

  lemma {:induction false} SumConcat(xs: seq<int>, ys: seq<int>)
    ensures Sum(xs + ys) == Sum(xs) + Sum(ys)
  {
    if xs == [] {
      assert xs + ys == ys;
    } else {
      assert (xs + ys)[1..] == xs[1..] + ys;
      SumConcat(xs[1..], ys);
    }
  }

  lemma SumSplit(xs: seq<int>, i: nat)
    requires i < |xs|
    ensures Sum(xs) == Sum(xs[..i]) + xs[i] + Sum(xs[i + 1..])
  {
    assert xs == xs[..i] + xs[i..];
    SumConcat(xs[..i], xs[i..]);
    assert xs[i..][1..] == xs[i + 1..];
  }

  lemma SumUpdate(xs: seq<int>, i: nat, x: int)
    requires i < |xs|
    ensures Sum(xs[i := x]) == Sum(xs) - xs[i] + x
  {
    SumSplit(xs, i);
    SumSplit(xs[i := x], i);
    assert xs[i := x][..i] == xs[..i] && xs[i := x][i + 1..] == xs[i + 1..];
  }

  lemma SumRemove(xs: seq<int>, i: nat)
    requires i < |xs|
    ensures Sum(xs[..i] + xs[i + 1..]) == Sum(xs) - xs[i]
  {
    SumSplit(xs, i);
    SumConcat(xs[..i], xs[i + 1..]);
  }

  lemma {:induction false} SumAtLeast(xs: seq<int>, ys: seq<int>)
    requires |xs| == |ys| && forall i :: 0 <= i < |xs| ==> xs[i] >= ys[i]
    ensures Sum(xs) >= Sum(ys)
  {
    if xs != [] {
      SumAtLeast(xs[1..], ys[1..]);
    }
  }
}
