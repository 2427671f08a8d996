/** Highest-random-weight placement: the ranking of nodes for a key, and its stability. */
module Hrw {
  import opened Sorting
  import opened Subsequences

  /** The weight of a node for a key, by a hash of both. */
  function Weight(hash: string -> int, key: string, node: string): int {
    hash(key + ":" + node)
  }

  /** The sort key that puts larger weights first. */
  function Priority(hash: string -> int, key: string): string -> int {
    node => -Weight(hash, key, node)
  }

  /** The nodes in the order in which they first occur. */
  function Dedup(nodes: seq<string>): (r: seq<string>)
    ensures forall n :: n in r <==> n in nodes
    ensures DistinctNodes(r)
  {
    if nodes == [] then []
    else
      var n := |nodes| - 1;
      var r := Dedup(nodes[..n]);
      assert nodes == nodes[..n] + [nodes[n]];
      if nodes[n] in r then r else r + [nodes[n]]
  }

  /** All nodes, the heaviest first; equal weights keep their order. */
  function Ranking(hash: string -> int, key: string, nodes: seq<string>): (r: seq<string>) {
    SortBy(Dedup(nodes), Priority(hash, key))
  }

  function Take(s: seq<string>, k: int): (r: seq<string>) {
    if k <= 0 then [] else if k < |s| then s[..k] else s
  }

  function HrwSelect(hash: string -> int, key: string, nodes: seq<string>, replicas: int): (r: seq<string>) {
    Take(Ranking(hash, key, nodes), replicas)
  }

  /** Fills the table of weights; the order of its keys is the order of insertion. */
  method RankNodes(hash: string -> int, key: string, nodes: seq<string>) returns (order: seq<string>, weights: map<string, int>)
    ensures order == Dedup(nodes)
    ensures forall n :: n in weights <==> n in nodes
    ensures forall n :: n in weights ==> weights[n] == Weight(hash, key, n)
  {
    order, weights := [], map[];
    for i := 0 to |nodes|
      invariant order == Dedup(nodes[..i])
      invariant forall n :: n in weights <==> n in nodes[..i]
      invariant forall n :: n in weights ==> weights[n] == Weight(hash, key, n)
    {
      assert nodes[..i + 1] == nodes[..i] + [nodes[i]];
      assert nodes[..i + 1][..i] == nodes[..i];
      if nodes[i] !in weights {
        order := order + [nodes[i]];
      }
      weights := weights[nodes[i] := Weight(hash, key, nodes[i])];
    }
    assert nodes[..|nodes|] == nodes;
  }

  method Select(hash: string -> int, key: string, nodes: seq<string>, replicas: int) returns (r: seq<string>)
    ensures r == HrwSelect(hash, key, nodes, replicas)
  {
    if replicas <= 0 { return []; }
    var order, weights := RankNodes(hash, key, nodes);
    var byWeight := (node: string) => if node in weights then -weights[node] else 0;
    SortAgrees(order, byWeight, Priority(hash, key));
    var sorted := SortBy(order, byWeight);
    if replicas < |sorted| { return sorted[..replicas]; }
    return sorted;
  }

  /** No two of the nodes have the same weight for the key. */
  predicate DistinctWeights(hash: string -> int, key: string, nodes: seq<string>) {
    forall m, n :: m in nodes && n in nodes && m != n ==> Weight(hash, key, m) != Weight(hash, key, n)
  }

  ghost predicate SameNodes(a: seq<string>, b: seq<string>) {
    forall n :: n in a <==> n in b
  }

  /** `less` has the nodes of `nodes` without `x`. */
  ghost predicate Lacks(less: seq<string>, nodes: seq<string>, x: string) {
    x in nodes && forall n :: n in less <==> n in nodes && n != x
  }

  predicate DistinctNodes(s: seq<string>) {
    forall i, j :: 0 <= i < j < |s| ==> s[i] != s[j]
  }

  function Members(s: seq<string>): (r: set<string>) {
    set n | n in s
  }

  lemma {:induction false} DistinctMultiset(s: seq<string>)
    requires DistinctNodes(s)
    ensures multiset(s) == multiset(Members(s))
  {
    if s != [] {
      var k := |s| - 1;
      DistinctMultiset(s[..k]);
      assert s == s[..k] + [s[k]];
      assert s[k] !in s[..k];
      assert Members(s) == Members(s[..k]) + {s[k]};
    }
  }

  lemma DedupMultiset(nodes: seq<string>)
    ensures multiset(Dedup(nodes)) == multiset(Members(nodes))
  {
    DistinctMultiset(Dedup(nodes));
    assert Members(Dedup(nodes)) == Members(nodes);
  }

  /** The ranking is the one arrangement of the nodes in which weights never rise. */
  lemma RankingCorrect(hash: string -> int, key: string, nodes: seq<string>)
    ensures var r := Ranking(hash, key, nodes);
            multiset(r) == multiset(Members(nodes)) && SortedBy(r, Priority(hash, key)) && SameNodes(r, nodes)
  {
    var d := Dedup(nodes);
    hide SortBy, SortedBy;
    SortByCorrect(d, Priority(hash, key));
    DedupMultiset(nodes);
    SameElements(d, Ranking(hash, key, nodes));
  }

  lemma RankingDistinct(hash: string -> int, key: string, nodes: seq<string>)
    requires DistinctWeights(hash, key, nodes)
    ensures DistinctKeys(Ranking(hash, key, nodes), Priority(hash, key)) && DistinctNodes(Ranking(hash, key, nodes))
  {
    var d, p, r := Dedup(nodes), Priority(hash, key), Ranking(hash, key, nodes);
    forall i, j | 0 <= i < j < |d| ensures p(d[i]) != p(d[j]) {
      assert d[i] in nodes && d[j] in nodes;
    }
    hide SortBy, Dedup;
    SortByCorrect(d, p);
    PermutationStaysDistinct(d, r, p);
    forall i, j | 0 <= i < j < |r| ensures r[i] != r[j] {
      assert p(r[i]) != p(r[j]);
    }
  }

  /** With distinct weights the selection depends on the set of nodes only, not on order or repetition. */
  lemma SelectionIgnoresOrder(hash: string -> int, key: string, a: seq<string>, b: seq<string>, k: int)
    requires SameNodes(a, b) && DistinctWeights(hash, key, a)
    ensures HrwSelect(hash, key, a, k) == HrwSelect(hash, key, b, k)
  {
    RankingCorrect(hash, key, a);
    RankingCorrect(hash, key, b);
    RankingDistinct(hash, key, a);
    assert Members(a) == Members(b);
    hide Ranking;
    SortedIsUnique(Ranking(hash, key, a), Ranking(hash, key, b), Priority(hash, key));
  }

  /** A node is selected exactly when fewer than k nodes have a larger weight. */
  lemma SelectedIffFewHeavier(hash: string -> int, key: string, nodes: seq<string>, k: nat, n: string)
    requires DistinctWeights(hash, key, nodes) && n in nodes
    ensures n in HrwSelect(hash, key, nodes, k) <==>
              |set m | m in nodes && Weight(hash, key, m) > Weight(hash, key, n)| < k
  {
    RankingCorrect(hash, key, nodes);
    RankingDistinct(hash, key, nodes);
    hide Ranking;
    var r, p := Ranking(hash, key, nodes), Priority(hash, key);
    assert n in r;
    var i :| 0 <= i < |r| && r[i] == n;
    var heavier := set m | m in nodes && Weight(hash, key, m) > Weight(hash, key, n);
    HeavierAreInFront(r, p, i);
    assert heavier == Members(r[..i]);
    DistinctPrefixSize(r[..i]);
    Positions(r, i, k);
  }

  lemma HeavierAreInFront(r: seq<string>, p: string -> int, i: nat)
    requires i < |r| && SortedBy(r, p) && DistinctKeys(r, p)
    ensures forall m :: m in r && p(m) < p(r[i]) <==> m in r[..i]
    ensures DistinctNodes(r[..i])
  {
    forall m | m in r && p(m) < p(r[i]) ensures m in r[..i] {
      var j :| 0 <= j < |r| && r[j] == m;
      assert j < i;
      assert r[..i][j] == m;
    }
    forall a, b | 0 <= a < b < |r[..i]| ensures r[..i][a] != r[..i][b] {
      assert p(r[a]) != p(r[b]);
    }
  }

  lemma {:induction false} DistinctPrefixSize(s: seq<string>)
    requires DistinctNodes(s)
    ensures |Members(s)| == |s|
  {
    if s != [] {
      var k := |s| - 1;
      DistinctPrefixSize(s[..k]);
      assert s[k] !in s[..k];
      assert Members(s) == Members(s[..k]) + {s[k]};
    }
  }

  lemma Positions(r: seq<string>, i: nat, k: nat)
    requires i < |r| && DistinctNodes(r)
    ensures r[i] in Take(r, k) <==> i < k
  {
    if i < k { assert Take(r, k)[i] == r[i]; }
  }

  // Membership changes

  function Drop(s: seq<string>, i: nat): (r: seq<string>)
    requires i < |s|
  {
    s[..i] + s[i + 1..]
  }

  lemma DropStaysSorted(r: seq<string>, p: string -> int, i: nat)
    requires i < |r| && SortedBy(r, p) && DistinctKeys(r, p)
    ensures SortedBy(Drop(r, i), p) && DistinctKeys(Drop(r, i), p)
  {
  }

  /** Taking a node away takes it out of the ranking, and nothing else moves. */
  lemma RankingWithout(hash: string -> int, key: string, nodes: seq<string>, less: seq<string>, i: nat)
    requires DistinctWeights(hash, key, nodes) && i < |Ranking(hash, key, nodes)|
    requires Lacks(less, nodes, Ranking(hash, key, nodes)[i])
    ensures Ranking(hash, key, less) == Drop(Ranking(hash, key, nodes), i)
  {
    hide Ranking, SortedBy, DistinctKeys;
    var r, p := Ranking(hash, key, nodes), Priority(hash, key);
    RankingCorrect(hash, key, nodes);
    RankingCorrect(hash, key, less);
    RankingDistinct(hash, key, nodes);
    DropStaysSorted(r, p, i);
    DropMultiset(r, i);
    assert Members(less) == Members(nodes) - {r[i]};
    SortedIsUnique(Drop(r, i), Ranking(hash, key, less), p);
  }

  lemma TakeDropFar(r: seq<string>, i: nat, k: nat)
    requires k <= i < |r|
    ensures Take(Drop(r, i), k) == Take(r, k)
  {
  }

  lemma TakeDropNear(r: seq<string>, i: nat, k: nat)
    requires i < |r| && i < k
    ensures i < |Take(r, k)| && Take(r, k)[i] == r[i]
    ensures Take(Drop(r, i), k) == Drop(Take(r, k), i) + if k < |r| then [r[k]] else []
    ensures i <= |Take(Drop(r, i), k)|
    ensures Take(r, k) == Take(Take(Drop(r, i), k)[..i] + [r[i]] + Take(Drop(r, i), k)[i..], k)
  {
    var less := Drop(r, i);
    if k < |r| {
      assert Take(less, k) == r[..i] + r[i + 1..k + 1];
      assert Drop(r[..k], i) == r[..i] + r[i + 1..k];
      assert r[i + 1..k + 1] == r[i + 1..k] + [r[k]];
      assert Take(less, k)[..i] == r[..i] && Take(less, k)[i..] == r[i + 1..k + 1];
      assert (r[..i] + [r[i]] + r[i + 1..k + 1])[..k] == r[..k];
    } else {
      assert Take(less, k) == less && Take(r, k) == r;
      assert less[..i] == r[..i] && less[i..] == r[i + 1..];
      assert r[..i] + [r[i]] + r[i + 1..] == r;
    }
  }

  /** Where a node stands in the ranking. */
  lemma Position(hash: string -> int, key: string, nodes: seq<string>, less: seq<string>, x: string, k: nat) returns (i: nat)
    requires DistinctWeights(hash, key, nodes) && Lacks(less, nodes, x)
    ensures var r := Ranking(hash, key, nodes);
            && i < |r| && r[i] == x && Ranking(hash, key, less) == Drop(r, i)
            && (x in HrwSelect(hash, key, nodes, k) <==> i < k)
  {
    hide Ranking, DistinctKeys;
    RankingCorrect(hash, key, nodes);
    RankingDistinct(hash, key, nodes);
    var r := Ranking(hash, key, nodes);
    assert x in r;
    i :| 0 <= i < |r| && r[i] == x;
    RankingWithout(hash, key, nodes, less, i);
    Positions(r, i, k);
  }

  /**
    * Removing a node that was not selected changes nothing. Removing a selected one closes the gap
    * and brings in the next-ranked node, if there is one.
    */
  lemma RemovalIsMinimal(hash: string -> int, key: string, nodes: seq<string>, less: seq<string>, x: string, k: nat)
    requires DistinctWeights(hash, key, nodes) && Lacks(less, nodes, x)
    ensures var before, after := HrwSelect(hash, key, nodes, k), HrwSelect(hash, key, less, k);
            var r := Ranking(hash, key, nodes);
            && (x !in before ==> after == before)
            && (x in before ==> exists i :: 0 <= i < |before| && before[i] == x
                                            && after == Drop(before, i) + if k < |r| then [r[k]] else [])
  {
    hide Ranking;
    var i := Position(hash, key, nodes, less, x, k);
    var r := Ranking(hash, key, nodes);
    if i < k {
      TakeDropNear(r, i, k);
      hide Take, Drop;
    } else {
      TakeDropFar(r, i, k);
    }
  }

  /** Adding a node inserts it, if at all, and then drops the last one selected if there is no room. */
  lemma AdditionIsMinimal(hash: string -> int, key: string, nodes: seq<string>, more: seq<string>, x: string, k: nat)
    requires DistinctWeights(hash, key, more) && Lacks(nodes, more, x)
    ensures var before, after := HrwSelect(hash, key, nodes, k), HrwSelect(hash, key, more, k);
            && (x !in after ==> after == before)
            && (x in after ==> exists i :: 0 <= i < |after| && after[i] == x && i <= |before|
                                           && after == Take(before[..i] + [x] + before[i..], k))
  {
    hide Ranking;
    var i := Position(hash, key, more, nodes, x, k);
    var r := Ranking(hash, key, more);
    if i < k {
      TakeDropNear(r, i, k);
      hide Take, Drop;
    } else {
      TakeDropFar(r, i, k);
    }
  }

  /** One node joins or leaves, or the list is only rearranged. */
  ghost predicate Change(a: seq<string>, b: seq<string>) {
    SameNodes(a, b) || (exists x :: Lacks(b, a, x)) || (exists x :: Lacks(a, b, x))
  }

  lemma AtMostOne(s: set<string>, x: string)
    requires s <= {x}
    ensures |s| <= 1
  {
    if x in s { assert s == {x}; } else { assert s == {}; }
  }

  lemma InsertedOnly(before: seq<string>, x: string, i: nat, k: nat)
    requires i <= |before|
    ensures Members(Take(before[..i] + [x] + before[i..], k)) - Members(before) <= {x}
  {
    var all := before[..i] + [x] + before[i..];
    forall n | n in Take(all, k) ensures n == x || n in before {
      assert n in all;
    }
  }

  lemma AppendedOnly(before: seq<string>, i: nat, more: seq<string>)
    requires i < |before|
    ensures Members(Drop(before, i) + more) - Members(before) <= Members(more)
  {
    forall n | n in Drop(before, i) + more ensures n in before || n in more {
      assert n in Drop(before, i) || n in more;
    }
  }

  lemma RemovalBringsOne(hash: string -> int, key: string, a: seq<string>, b: seq<string>, x: string, k: nat)
    requires DistinctWeights(hash, key, a) && Lacks(b, a, x)
    ensures |Members(HrwSelect(hash, key, b, k)) - Members(HrwSelect(hash, key, a, k))| <= 1
  {
    var before, after := HrwSelect(hash, key, a, k), HrwSelect(hash, key, b, k);
    RemovalIsMinimal(hash, key, a, b, x, k);
    var r := Ranking(hash, key, a);
    hide Ranking, HrwSelect;
    if x in before {
      var next := if k < |r| then [r[k]] else [];
      var i :| 0 <= i < |before| && before[i] == x && after == Drop(before, i) + next;
      AppendedOnly(before, i, next);
      AtMostOne(Members(after) - Members(before), if k < |r| then r[k] else x);
    }
  }

  lemma AdditionBringsOne(hash: string -> int, key: string, a: seq<string>, b: seq<string>, x: string, k: nat)
    requires DistinctWeights(hash, key, b) && Lacks(a, b, x)
    ensures |Members(HrwSelect(hash, key, b, k)) - Members(HrwSelect(hash, key, a, k))| <= 1
  {
    var before, after := HrwSelect(hash, key, a, k), HrwSelect(hash, key, b, k);
    AdditionIsMinimal(hash, key, a, b, x, k);
    hide HrwSelect, Take;
    if x in after {
      var i :| 0 <= i < |after| && after[i] == x && i <= |before| && after == Take(before[..i] + [x] + before[i..], k);
      InsertedOnly(before, x, i, k);
      AtMostOne(Members(after) - Members(before), x);
    }
  }

  lemma OneChange(hash: string -> int, key: string, a: seq<string>, b: seq<string>, k: nat)
    requires DistinctWeights(hash, key, a) && DistinctWeights(hash, key, b) && Change(a, b)
    ensures |Members(HrwSelect(hash, key, b, k)) - Members(HrwSelect(hash, key, a, k))| <= 1
  {
    hide HrwSelect, DistinctWeights, Lacks;
    if SameNodes(a, b) {
      SelectionIgnoresOrder(hash, key, a, b, k);
    } else if exists x :: Lacks(b, a, x) {
      var x :| Lacks(b, a, x);
      RemovalBringsOne(hash, key, a, b, x, k);
    } else {
      var x :| Lacks(a, b, x);
      AdditionBringsOne(hash, key, a, b, x, k);
    }
  }

  lemma NewMembersAddUp(a: set<string>, b: set<string>, c: set<string>)
    ensures |c - a| <= |c - b| + |b - a|
  {
    var u := (c - b) + (b - a);
    assert c - a <= u;
    assert |u| <= |c - b| + |b - a|;
    assert u == (c - a) + (u - (c - a));
  }

  /** After m membership changes at most m members of the selection are new. */
  lemma {:induction false} ChangesReplaceFew(hash: string -> int, key: string, history: seq<seq<string>>, k: nat)
    requires history != []
    requires forall i :: 0 <= i < |history| ==> DistinctWeights(hash, key, history[i])
    requires forall i :: 0 < i < |history| ==> Change(history[i - 1], history[i])
    ensures |Members(HrwSelect(hash, key, history[|history| - 1], k)) - Members(HrwSelect(hash, key, history[0], k))|
            <= |history| - 1
    decreases |history|
  {
    hide HrwSelect, Change, DistinctWeights;
    var m := |history| - 1;
    if m > 0 {
      ChangesReplaceFew(hash, key, history[..m], k);
      OneChange(hash, key, history[m - 1], history[m], k);
      NewMembersAddUp(Members(HrwSelect(hash, key, history[0], k)), Members(HrwSelect(hash, key, history[m - 1], k)),
                      Members(HrwSelect(hash, key, history[m], k)));
    }
  }

  // Weights

  ghost predicate Injective(hash: string -> int) {
    forall a, b :: hash(a) == hash(b) ==> a == b
  }

  /** A hash without collisions tells nodes apart for every key, and keys apart for every node. */
  lemma WeightsTellApart(hash: string -> int, k: string, m: string, x: string, y: string)
    requires Injective(hash)
    ensures Weight(hash, k, x) == Weight(hash, k, y) <==> x == y
    ensures Weight(hash, k, x) == Weight(hash, m, x) <==> k == m
  {
    if Weight(hash, k, x) == Weight(hash, k, y) {
      assert k + ":" + x == k + ":" + y;
      assert (k + ":" + x)[|k| + 1..] == x && (k + ":" + y)[|k| + 1..] == y;
    }
    if Weight(hash, k, x) == Weight(hash, m, x) {
      assert |k + ":" + x| == |m + ":" + x|;
      assert (k + ":" + x)[..|k|] == k && (m + ":" + x)[..|m|] == m;
    }
  }

  /** So the theorems about distinct weights hold for every list of nodes and every key. */
  lemma InjectiveIsDistinct(hash: string -> int, key: string, nodes: seq<string>)
    requires Injective(hash)
    ensures DistinctWeights(hash, key, nodes)
  {
    hide Injective, Weight;
    forall m, n | m in nodes && n in nodes && m != n ensures Weight(hash, key, m) != Weight(hash, key, n) {
      WeightsTellApart(hash, key, key, m, n);
    }
  }

  /** Different pairs of key and node can share a weight: the separator may occur in both. */
  lemma SharedWeight(hash: string -> int)
    ensures Weight(hash, "a:b", "c") == Weight(hash, "a", "b:c")
  {
    assert "a:b" + ":" + "c" == "a" + ":" + "b:c";
  }

  /** Nodes of equal weight are ranked in the order in which they first occur. */
  lemma TiesKeepOrder(hash: string -> int, key: string, nodes: seq<string>, weight: int)
    ensures WithKey(Ranking(hash, key, nodes), Priority(hash, key), -weight)
            == WithKey(Dedup(nodes), Priority(hash, key), -weight)
  {
    SortStable(Dedup(nodes), Priority(hash, key), -weight);
  }

  function First(nodes: seq<string>): (keep: seq<bool>)
    ensures |keep| == |nodes|
  {
    seq(|nodes|, i requires 0 <= i < |nodes| => nodes[i] !in nodes[..i])
  }

  lemma {:induction false} DedupKeeps(nodes: seq<string>)
    ensures Dedup(nodes) == Kept(nodes, First(nodes))
  {
    if nodes != [] {
      var n := |nodes| - 1;
      DedupKeeps(nodes[..n]);
      forall i | 0 <= i < n ensures First(nodes)[i] == First(nodes[..n])[i] {
        assert nodes[..n][..i] == nodes[..i];
      }
      assert First(nodes)[..n] == First(nodes[..n]);
    }
  }

  /** Of a repeated node the first occurrence counts, and the order stays. */
  lemma DedupPicks(nodes: seq<string>) returns (idx: seq<nat>)
    ensures Picks(Dedup(nodes), nodes, idx)
    ensures forall i :: 0 <= i < |nodes| ==> (i in idx <==> nodes[i] !in nodes[..i])
  {
    hide Dedup, Kept, Picks;
    DedupKeeps(nodes);
    idx := KeptPicks(nodes, First(nodes));
  }

  /** As many nodes are selected as asked for, if there are that many, and none twice. */
  lemma SelectionSize(hash: string -> int, key: string, nodes: seq<string>, k: nat)
    ensures var r := HrwSelect(hash, key, nodes, k);
            && |r| == (if k < |Members(nodes)| then k else |Members(nodes)|)
            && |Members(r)| == |r| && Members(r) <= Members(nodes)
  {
    hide Dedup, SortBy;
    RankingCorrect(hash, key, nodes);
    var all := Ranking(hash, key, nodes);
    var d := Dedup(nodes);
    DistinctMultiset(d);
    DistinctPrefixSize(d);
    assert Members(d) == Members(nodes);
    SortByCorrect(d, Priority(hash, key));
    SortedNodesDistinct(d, all);
    hide Ranking;
    var r := Take(all, k);
    assert DistinctNodes(r);
    DistinctPrefixSize(r);
    forall n | n in r ensures n in nodes {
      assert n in all;
    }
  }

  lemma SortedNodesDistinct(d: seq<string>, all: seq<string>)
    requires DistinctNodes(d) && multiset(all) == multiset(d)
    ensures DistinctNodes(all) && |all| == |d|
  {
    SameElements(all, d);
    forall i, j | 0 <= i < j < |all| ensures all[i] != all[j] {
      if all[i] == all[j] {
        OccursTwice(all, i, j);
        OnceIn(d, all[i]);
      }
    }
  }

  lemma OnceIn(d: seq<string>, n: string)
    requires DistinctNodes(d)
    ensures multiset(d)[n] <= 1
  {
    DistinctMultiset(d);
  }

  // Membership and mapper

  datatype Seen = Seen(node: string, at: real)

  /** Records a heartbeat: a known node keeps its place, a new one goes to the end. */
  function Heartbeat(seen: seq<Seen>, node: string, now: real): (r: seq<Seen>) {
    if seen == [] then [Seen(node, now)]
    else if seen[0].node == node then [Seen(node, now)] + seen[1..]
    else [seen[0]] + Heartbeat(seen[1..], node, now)
  }

  function Active(seen: seq<Seen>, timeout: real, now: real): (r: seq<string>) {
    if seen == [] then []
    else
      var n := |seen| - 1;
      Active(seen[..n], timeout, now) + if now - seen[n].at <= timeout then [seen[n].node] else []
  }

  predicate OneEntryEach(seen: seq<Seen>) {
    forall i, j :: 0 <= i < j < |seen| ==> seen[i].node != seen[j].node
  }

  predicate IsActive(seen: seq<Seen>, timeout: real, now: real, node: string) {
    exists i :: 0 <= i < |seen| && seen[i].node == node && now - seen[i].at <= timeout
  }

  lemma {:induction false} ActiveMembers(seen: seq<Seen>, timeout: real, now: real, node: string)
    ensures node in Active(seen, timeout, now) <==> IsActive(seen, timeout, now, node)
  {
    if seen != [] {
      var n := |seen| - 1;
      ActiveMembers(seen[..n], timeout, now, node);
      if IsActive(seen[..n], timeout, now, node) {
        var i :| 0 <= i < n && seen[..n][i].node == node && now - seen[..n][i].at <= timeout;
        assert seen[i].node == node;
      }
      if IsActive(seen, timeout, now, node) {
        var i :| 0 <= i < |seen| && seen[i].node == node && now - seen[i].at <= timeout;
        assert i < n ==> seen[..n][i] == seen[i];
      }
    }
  }

  /** With one entry for each node, the others of the first entry's node are elsewhere. */
  lemma RestOfTable(seen: seq<Seen>)
    requires OneEntryEach(seen) && seen != []
    ensures OneEntryEach(seen[1..])
    ensures forall e :: e in seen[1..] <==> e in seen && e.node != seen[0].node
  {
    forall e | e in seen && e.node != seen[0].node ensures e in seen[1..] {
      var i :| 0 <= i < |seen| && seen[i] == e;
      assert seen[1..][i - 1] == e;
    }
    forall e | e in seen[1..] ensures e in seen && e.node != seen[0].node {
      var i :| 0 <= i < |seen[1..]| && seen[1..][i] == e;
      assert seen[i + 1] == e;
    }
  }

  lemma FrontOfTable(first: Seen, rest: seq<Seen>)
    requires OneEntryEach(rest) && forall e :: e in rest ==> e.node != first.node
    ensures OneEntryEach([first] + rest)
  {
    assert forall i :: 0 <= i < |rest| ==> rest[i] in rest;
  }

  /** A heartbeat changes the entry of its node only, and there is still one entry for each node. */
  lemma {:induction false} HeartbeatEntry(seen: seq<Seen>, node: string, now: real)
    requires OneEntryEach(seen)
    ensures var r := Heartbeat(seen, node, now);
            && OneEntryEach(r) && Seen(node, now) in r
            && forall e :: e in r <==> e == Seen(node, now) || (e in seen && e.node != node)
  {
    if seen != [] {
      RestOfTable(seen);
      hide OneEntryEach;
      if seen[0].node == node {
        FrontOfTable(Seen(node, now), seen[1..]);
      } else {
        HeartbeatEntry(seen[1..], node, now);
        FrontOfTable(seen[0], Heartbeat(seen[1..], node, now));
      }
    }
  }

  /** A heartbeat keeps the order of the table: a known node its place, a new one the last. */
  lemma {:induction false} HeartbeatOrder(seen: seq<Seen>, node: string, now: real)
    ensures var r := Heartbeat(seen, node, now);
            if exists i :: 0 <= i < |seen| && seen[i].node == node
            then |r| == |seen| && forall i :: 0 <= i < |r| ==> r[i].node == seen[i].node
            else r == seen + [Seen(node, now)]
  {
    if seen != [] && seen[0].node != node {
      HeartbeatOrder(seen[1..], node, now);
      var r := Heartbeat(seen[1..], node, now);
      if exists i :: 0 <= i < |seen[1..]| && seen[1..][i].node == node {
        var i :| 0 <= i < |seen[1..]| && seen[1..][i].node == node;
        assert seen[i + 1].node == node;
      } else {
        assert forall i :: 0 < i < |seen| ==> seen[i] == seen[1..][i - 1];
        assert [seen[0]] + (seen[1..] + [Seen(node, now)]) == seen + [Seen(node, now)];
      }
    }
  }

  function Names(seen: seq<Seen>): (r: seq<string>)
    ensures |r| == |seen|
  {
    seq(|seen|, i requires 0 <= i < |seen| => seen[i].node)
  }

  function Recent(seen: seq<Seen>, timeout: real, now: real): (keep: seq<bool>)
    ensures |keep| == |seen|
  {
    seq(|seen|, i requires 0 <= i < |seen| => now - seen[i].at <= timeout)
  }

  lemma {:induction false} ActiveKeeps(seen: seq<Seen>, timeout: real, now: real)
    ensures Active(seen, timeout, now) == Kept(Names(seen), Recent(seen, timeout, now))
  {
    if seen != [] {
      var n := |seen| - 1;
      ActiveKeeps(seen[..n], timeout, now);
      assert Names(seen)[..n] == Names(seen[..n]) && Recent(seen, timeout, now)[..n] == Recent(seen[..n], timeout, now);
    }
  }

  /** The active nodes are exactly those heard from within the timeout, in the order of the table. */
  lemma ActivePicks(seen: seq<Seen>, timeout: real, now: real) returns (idx: seq<nat>)
    ensures Picks(Active(seen, timeout, now), Names(seen), idx)
    ensures forall i :: 0 <= i < |seen| ==> (i in idx <==> now - seen[i].at <= timeout)
  {
    hide Active, Kept, Picks;
    ActiveKeeps(seen, timeout, now);
    idx := KeptPicks(Names(seen), Recent(seen, timeout, now));
  }

  /** The nodes the mapper chooses for a name at a time. */
  function SelectDatastores(hash: string -> int, seen: seq<Seen>, timeout: real, now: real, name: string, k: int): seq<string> {
    if Active(seen, timeout, now) == [] then [] else HrwSelect(hash, name, Active(seen, timeout, now), k)
  }

  /** A node gets the data of a name exactly if it is active and fewer than k active nodes weigh more for that name. */
  lemma MapperSelects(hash: string -> int, seen: seq<Seen>, timeout: real, now: real, name: string, k: nat, n: string)
    requires DistinctWeights(hash, name, Active(seen, timeout, now))
    ensures n in SelectDatastores(hash, seen, timeout, now, name, k) <==>
              && IsActive(seen, timeout, now, n)
              && |set m | m in Active(seen, timeout, now) && Weight(hash, name, m) > Weight(hash, name, n)| < k
  {
    hide HrwSelect, Active;
    var active := Active(seen, timeout, now);
    ActiveMembers(seen, timeout, now, n);
    if n in active {
      SelectedIffFewHeavier(hash, name, active, k, n);
    } else {
      SelectionSize(hash, name, active, k);
      assert n !in Members(active);
    }
  }

  /** A heartbeat from a node that is active anyway does not move any data. */
  lemma HeartbeatKeepsPlacement(hash: string -> int, seen: seq<Seen>, timeout: real, now: real, node: string, name: string, k: int)
    requires OneEntryEach(seen) && timeout >= 0.0 && IsActive(seen, timeout, now, node)
    requires DistinctWeights(hash, name, Active(seen, timeout, now))
    ensures SelectDatastores(hash, Heartbeat(seen, node, now), timeout, now, name, k)
            == SelectDatastores(hash, seen, timeout, now, name, k)
  {
    var r := Heartbeat(seen, node, now);
    HeartbeatEntry(seen, node, now);
    var a, b := Active(seen, timeout, now), Active(r, timeout, now);
    forall n ensures n in a <==> n in b {
      ActiveMembers(seen, timeout, now, n);
      ActiveMembers(r, timeout, now, n);
      HeartbeatActive(seen, r, timeout, now, node, n);
    }
    ActiveMembers(seen, timeout, now, node);
    assert node in a && node in b;
    SelectionIgnoresOrder(hash, name, a, b, k);
  }

  lemma HeartbeatActive(seen: seq<Seen>, r: seq<Seen>, timeout: real, now: real, node: string, n: string)
    requires timeout >= 0.0 && IsActive(seen, timeout, now, node)
    requires forall e :: e in r <==> e == Seen(node, now) || (e in seen && e.node != node)
    ensures IsActive(seen, timeout, now, n) <==> IsActive(r, timeout, now, n)
  {
    if n == node {
      assert Seen(node, now) in r;
      var i :| 0 <= i < |r| && r[i] == Seen(node, now);
    } else {
      if IsActive(seen, timeout, now, n) {
        var i :| 0 <= i < |seen| && seen[i].node == n && now - seen[i].at <= timeout;
        assert seen[i] in r;
        var j :| 0 <= j < |r| && r[j] == seen[i];
      }
      if IsActive(r, timeout, now, n) {
        var i :| 0 <= i < |r| && r[i].node == n && now - r[i].at <= timeout;
        assert r[i] in r;
        assert r[i] in seen;
        var j :| 0 <= j < |seen| && seen[j] == r[i];
      }
    }
  }

  class Membership {
    const timeout: real
    var seen: seq<Seen>

    constructor (timeout: real)
      ensures this.timeout == timeout && seen == []
    {
      this.timeout, seen := timeout, [];
    }

    method RecordHeartbeat(node: string, now: real)
      requires OneEntryEach(seen)
      modifies this`seen
      ensures OneEntryEach(seen) && seen == Heartbeat(old(seen), node, now)
    {
      HeartbeatEntry(seen, node, now);
      seen := Heartbeat(seen, node, now);
    }

    method ActiveNodes(now: real) returns (active: seq<string>)
      ensures active == Active(seen, timeout, now)
    {
      active := [];
      for i := 0 to |seen|
        invariant active == Active(seen[..i], timeout, now)
      {
        assert seen[..i + 1][..i] == seen[..i];
        if now - seen[i].at <= timeout {
          active := active + [seen[i].node];
        }
      }
      assert seen[..|seen|] == seen;
    }

    method RemoveNode(node: string)
      requires OneEntryEach(seen)
      modifies this`seen
      ensures OneEntryEach(seen)
      ensures forall e :: e in seen <==> e in old(seen) && e.node != node
    {
      for i := 0 to |seen|
        invariant seen == old(seen) && forall j :: 0 <= j < i ==> seen[j].node != node
      {
        if seen[i].node == node {
          ghost var all := seen;
          seen := seen[..i] + seen[i + 1..];
          assert all == all[..i] + [all[i]] + all[i + 1..];
          return;
        }
      }
    }
  }

  class DatastoreMapper {
    const membership: Membership

    constructor (membership: Membership)
      ensures this.membership == membership
    {
      this.membership := membership;
    }

    method Map(hash: string -> int, name: string, replicas: int, now: real) returns (r: seq<string>)
      ensures r == SelectDatastores(hash, membership.seen, membership.timeout, now, name, replicas)
    {
      var active := membership.ActiveNodes(now);
      if active == [] { return []; }
      r := Select(hash, name, active, replicas);
    }
  }
}
