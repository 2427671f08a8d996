/** Sorting by an integer key: a reference sort, and what every sorted arrangement has in common. */
module Sorting {
  predicate SortedBy<T>(s: seq<T>, key: T -> int) {
    forall i, j :: 0 <= i < j < |s| ==> key(s[i]) <= key(s[j])
  }

  predicate DistinctKeys<T>(s: seq<T>, key: T -> int) {
    forall i, j :: 0 <= i < j < |s| ==> key(s[i]) != key(s[j])
  }

  /** Puts `x` behind every element whose key is not larger. */
  function InsertBy<T>(s: seq<T>, x: T, key: T -> int): (r: seq<T>)
    ensures |r| == |s| + 1
    ensures forall y :: y in r ==> y in s || y == x
  {
    if s == [] || key(x) < key(s[0]) then [x] + s else [s[0]] + InsertBy(s[1..], x, key)
  }

  function SortBy<T>(s: seq<T>, key: T -> int): (r: seq<T>)
    ensures |r| == |s|
    ensures forall y :: y in r ==> y in s
  {
    if s == [] then [] else InsertBy(SortBy(s[..|s| - 1], key), s[|s| - 1], key)
  }

  lemma {:induction false} InsertMultiset<T>(s: seq<T>, x: T, key: T -> int)
    ensures multiset(InsertBy(s, x, key)) == multiset(s) + multiset{x}
  {
    if !(s == [] || key(x) < key(s[0])) {
      assert s == [s[0]] + s[1..];
      InsertMultiset(s[1..], x, key);
    }
  }

  lemma {:induction false} InsertSorted<T>(s: seq<T>, x: T, key: T -> int)
    requires SortedBy(s, key)
    ensures SortedBy(InsertBy(s, x, key), key)
  {
    if !(s == [] || key(x) < key(s[0])) {
      InsertSorted(s[1..], x, key);
      var r := InsertBy(s[1..], x, key);
      forall i | 0 <= i < |r| ensures key(s[0]) <= key(r[i]) {
        assert r[i] in r;
      }
    }
  }

  lemma {:induction false} SortByCorrect<T>(s: seq<T>, key: T -> int)
    ensures multiset(SortBy(s, key)) == multiset(s) && SortedBy(SortBy(s, key), key)
  {
    if s != [] {
      var n := |s| - 1;
      assert s == s[..n] + [s[n]];
      SortByCorrect(s[..n], key);
      InsertMultiset(SortBy(s[..n], key), s[n], key);
      InsertSorted(SortBy(s[..n], key), s[n], key);
    }
  }

  /** The elements with key `v`, in order. */
  function WithKey<T>(s: seq<T>, key: T -> int, v: int): (r: seq<T>) {
    if s == [] then [] else (if key(s[0]) == v then [s[0]] else []) + WithKey(s[1..], key, v)
  }

  lemma {:induction false} NoneWithKey<T>(s: seq<T>, key: T -> int, v: int)
    requires forall i :: 0 <= i < |s| ==> key(s[i]) > v
    ensures WithKey(s, key, v) == []
  {
    if s != [] {
      NoneWithKey(s[1..], key, v);
    }
  }

  lemma {:induction false} WithKeyAppend<T>(s: seq<T>, x: T, key: T -> int, v: int)
    ensures WithKey(s + [x], key, v) == WithKey(s, key, v) + if key(x) == v then [x] else []
  {
    if s == [] {
      assert s + [x] == [x] && [x][1..] == [];
    } else {
      assert (s + [x])[1..] == s[1..] + [x];
      WithKeyAppend(s[1..], x, key, v);
      var first, last := if key(s[0]) == v then [s[0]] else [], if key(x) == v then [x] else [];
      assert (first + WithKey(s[1..], key, v)) + last == first + (WithKey(s[1..], key, v) + last);
    }
  }

  lemma {:induction false} InsertStable<T>(s: seq<T>, x: T, key: T -> int, v: int)
    requires SortedBy(s, key)
    ensures WithKey(InsertBy(s, x, key), key, v) == WithKey(s, key, v) + if key(x) == v then [x] else []
  {
    if s == [] || key(x) < key(s[0]) {
      assert ([x] + s)[1..] == s;
      if key(x) == v {
        NoneWithKey(s, key, v);
      }
    } else {
      var r := InsertBy(s[1..], x, key);
      assert ([s[0]] + r)[1..] == r;
      InsertStable(s[1..], x, key, v);
    }
  }

  /** Elements with the same key stay in their order. */
  lemma {:induction false} SortStable<T>(s: seq<T>, key: T -> int, v: int)
    ensures WithKey(SortBy(s, key), key, v) == WithKey(s, key, v)
  {
    if s != [] {
      var n := |s| - 1;
      SortStable(s[..n], key, v);
      SortByCorrect(s[..n], key);
      InsertStable(SortBy(s[..n], key), s[n], key, v);
      WithKeyAppend(s[..n], s[n], key, v);
      assert s == s[..n] + [s[n]];
    }
  }

  lemma {:induction false} InsertAgrees<T>(s: seq<T>, x: T, key: T -> int, other: T -> int)
    requires key(x) == other(x) && forall y :: y in s ==> key(y) == other(y)
    ensures InsertBy(s, x, key) == InsertBy(s, x, other)
  {
    if s != [] {
      assert s[0] in s && forall y :: y in s[1..] ==> y in s;
      InsertAgrees(s[1..], x, key, other);
    }
  }

  /** Sorting looks at the keys of the elements only. */
  lemma {:induction false} SortAgrees<T>(s: seq<T>, key: T -> int, other: T -> int)
    requires forall y :: y in s ==> key(y) == other(y)
    ensures SortBy(s, key) == SortBy(s, other)
  {
    if s != [] {
      var n := |s| - 1;
      SortAgrees(s[..n], key, other);
      assert s[n] in s && forall y :: y in s[..n] ==> y in s;
      InsertAgrees(SortBy(s[..n], key), s[n], key, other);
    }
  }

  lemma SameElements<T>(a: seq<T>, b: seq<T>)
    requires multiset(a) == multiset(b)
    ensures |a| == |b| && forall x :: x in a <==> x in b
  {
    assert |a| == |multiset(a)| && |b| == |multiset(b)|;
    forall x ensures x in a <==> x in b {
      assert x in a <==> x in multiset(a);
      assert x in b <==> x in multiset(b);
    }
  }

  /** Where a key occurs only once, its element occurs only once. */
  lemma {:induction false} OccursOnce<T>(s: seq<T>, key: T -> int, i: nat)
    requires i < |s| && DistinctKeys(s, key)
    ensures multiset(s)[s[i]] == 1
    ensures forall x :: x in s && key(x) == key(s[i]) ==> x == s[i]
  {
    assert s == s[..i] + [s[i]] + s[i + 1..];
    assert s[i] !in s[..i] && s[i] !in s[i + 1..];
  }

  lemma OccursTwice<T>(s: seq<T>, i: nat, j: nat)
    requires i < j < |s| && s[i] == s[j]
    ensures multiset(s)[s[i]] >= 2
  {
    assert s == s[..i] + [s[i]] + s[i + 1..j] + [s[j]] + s[j + 1..];
  }

  lemma PermutationStaysDistinct<T>(a: seq<T>, b: seq<T>, key: T -> int)
    requires multiset(a) == multiset(b) && DistinctKeys(a, key)
    ensures DistinctKeys(b, key)
  {
    SameElements(a, b);
    forall i, j | 0 <= i < j < |b| ensures key(b[i]) != key(b[j]) {
      assert b[i] in b && b[j] in b;
      assert b[i] in a;
      var k :| 0 <= k < |a| && a[k] == b[i];
      OccursOnce(a, key, k);
      assert b[j] in a;
      if b[i] == b[j] { OccursTwice(b, i, j); }
    }
  }

  lemma TailMultiset<T>(s: seq<T>)
    requires s != []
    ensures multiset(s[1..]) == multiset(s) - multiset{s[0]}
  {
    assert s == [s[0]] + s[1..];
  }

  lemma DropMultiset<T>(s: seq<T>, i: nat)
    requires i < |s|
    ensures multiset(s[..i] + s[i + 1..]) == multiset(s) - multiset{s[i]}
  {
    assert s == s[..i] + [s[i]] + s[i + 1..];
  }

  /** With distinct keys there is only one sorted order, whichever algorithm finds it. */
  lemma {:induction false} SortedIsUnique<T>(a: seq<T>, b: seq<T>, key: T -> int)
    requires multiset(a) == multiset(b) && DistinctKeys(a, key) && SortedBy(a, key) && SortedBy(b, key)
    ensures a == b
  {
    SameElements(a, b);
    if a != [] {
      assert a[0] in b && b[0] in a;
      assert key(a[0]) == key(b[0]);
      OccursOnce(a, key, 0);
      TailMultiset(a);
      TailMultiset(b);
      SortedIsUnique(a[1..], b[1..], key);
    }
  }

  function Cut<T>(s: seq<T>, m: nat): (r: seq<T>)
    requires m < |s|
    ensures |r| == |s| - 1
  {
    s[..m] + s[m + 1..]
  }

  /** Taking out an element with the least key moves no key behind it. */
  lemma CutLeast<T>(s: seq<T>, key: T -> int, m: nat, k: nat)
    requires SortedBy(s, key) && m < |s| && key(s[m]) == key(s[0]) && 0 < k < |s|
    ensures key(Cut(s, m)[k - 1]) == key(s[k])
  {
    if k <= m {
      assert Cut(s, m)[k - 1] == s[k - 1];
      assert key(s[0]) <= key(s[k - 1]) <= key(s[m]) && key(s[0]) <= key(s[k]) <= key(s[m]);
    } else {
      assert Cut(s, m)[k - 1] == s[k];
    }
  }

  lemma CutSorted<T>(s: seq<T>, key: T -> int, m: nat)
    requires SortedBy(s, key) && m < |s|
    ensures SortedBy(Cut(s, m), key)
  {
    var r := Cut(s, m);
    forall i, j | 0 <= i < j < |r| ensures key(r[i]) <= key(r[j]) {
      assert r[i] == s[if i < m then i else i + 1] && r[j] == s[if j < m then j else j + 1];
    }
  }

  lemma CutMultiset<T>(a: seq<T>, b: seq<T>, m: nat)
    requires multiset(a) == multiset(b) && a != [] && m < |b| && b[m] == a[0]
    ensures multiset(a[1..]) == multiset(Cut(b, m))
  {
    TailMultiset(a);
    DropMultiset(b, m);
  }

  lemma TailSorted<T>(s: seq<T>, key: T -> int)
    requires SortedBy(s, key) && s != []
    ensures SortedBy(s[1..], key)
  {
  }

  lemma LeastKeysAgree<T>(a: seq<T>, b: seq<T>, key: T -> int)
    requires multiset(a) == multiset(b) && SortedBy(a, key) && SortedBy(b, key) && a != []
    ensures |a| == |b| && key(a[0]) == key(b[0]) && exists m :: 0 <= m < |b| && b[m] == a[0]
  {
    SameElements(a, b);
    assert a[0] in b && b[0] in a;
  }

  /** All sorted arrangements of the same elements have the same keys in the same places. */
  lemma {:induction false} SortedKeysAgree<T>(a: seq<T>, b: seq<T>, key: T -> int, k: nat)
    requires multiset(a) == multiset(b) && SortedBy(a, key) && SortedBy(b, key) && k < |a|
    ensures |a| == |b| && key(a[k]) == key(b[k])
    decreases |a|
  {
    hide SortedBy, Cut;
    LeastKeysAgree(a, b, key);
    if k > 0 {
      var m :| 0 <= m < |b| && b[m] == a[0];
      TailSorted(a, key);
      CutSorted(b, key, m);
      CutMultiset(a, b, m);
      SortedKeysAgree(a[1..], Cut(b, m), key, k - 1);
      CutLeast(b, key, m, k);
    }
  }

  /** Two elements with the same key can change places. */
  lemma SwapEqualKeys<T>(s: seq<T>, key: T -> int, i: nat, j: nat)
    requires SortedBy(s, key) && i < j < |s| && key(s[i]) == key(s[j])
    ensures SortedBy(s[i := s[j]][j := s[i]], key) && multiset(s[i := s[j]][j := s[i]]) == multiset(s)
  {
    var t := s[i := s[j]][j := s[i]];
    assert forall k :: 0 <= k < |s| ==> key(t[k]) == key(s[k]);
  }

  /** `s[..n + 1]` is sorted apart from the element at `k`, which is not above what follows it. */
  ghost predicate Sinking<T>(s: seq<T>, k: nat, n: nat, key: T -> int) {
    && k <= n < |s|
    && (forall i, j :: 0 <= i < j <= n && i != k && j != k ==> key(s[i]) <= key(s[j]))
    && (forall j :: k < j <= n ==> key(s[k]) <= key(s[j]))
  }

  lemma SwapDown<T>(s: seq<T>, k: nat, n: nat, key: T -> int)
    requires 0 < k && Sinking(s, k, n, key) && key(s[k]) < key(s[k - 1])
    ensures Sinking(s[k - 1 := s[k]][k := s[k - 1]], k - 1, n, key)
    ensures multiset(s[k - 1 := s[k]][k := s[k - 1]]) == multiset(s)
  {
  }

  lemma SinkStarts<T>(s: seq<T>, n: nat, key: T -> int)
    requires n < |s| && SortedBy(s[..n], key)
    ensures Sinking(s, n, n, key)
  {
    assert forall i :: 0 <= i < n ==> s[i] == s[..n][i];
  }

  lemma SinkEnds<T>(s: seq<T>, k: nat, n: nat, key: T -> int)
    requires Sinking(s, k, n, key) && (k == 0 || key(s[k - 1]) <= key(s[k]))
    ensures SortedBy(s[..n + 1], key)
  {
    forall i, j | 0 <= i < j <= n ensures key(s[i]) <= key(s[j]) {
      if j == k && i < k - 1 {
        assert key(s[i]) <= key(s[k - 1]);
      }
    }
  }

  method SwapWithPrevious<T>(a: array<T>, k: nat)
    requires 0 < k < a.Length
    modifies a
    ensures a[..] == old(a[..][k - 1 := a[k]][k := a[k - 1]])
  {
    a[k - 1], a[k] := a[k], a[k - 1];
  }

  /** Moves the element at `n` down to its place in the sorted prefix in front of it. */
  method SinkInto<T>(a: array<T>, n: nat, key: T -> int)
    requires n < a.Length && SortedBy(a[..n], key)
    modifies a
    ensures SortedBy(a[..n + 1], key) && multiset(a[..]) == old(multiset(a[..]))
  {
    hide Sinking, SortedBy;
    var k := n;
    assert a[..][..n] == a[..n];
    SinkStarts(a[..], n, key);
    while k > 0 && key(a[k]) < key(a[k - 1])
      invariant 0 <= k <= n && multiset(a[..]) == old(multiset(a[..]))
      invariant Sinking(a[..], k, n, key)
    {
      SwapDown(a[..], k, n, key);
      SwapWithPrevious(a, k);
      k := k - 1;
    }
    SinkEnds(a[..], k, n, key);
    assert a[..][..n + 1] == a[..n + 1];
  }

  /** Sorts a slice in place. */
  method SortSlice<T>(a: array<T>, key: T -> int)
    modifies a
    ensures multiset(a[..]) == old(multiset(a[..])) && SortedBy(a[..], key)
  {
    for n := 0 to a.Length
      invariant SortedBy(a[..n], key) && multiset(a[..]) == old(multiset(a[..]))
    {
      SinkInto(a, n, key);
    }
    assert a[..a.Length] == a[..];
  }
}
