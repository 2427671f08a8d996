/** Epidemic routing in a network of nodes: known holders, the number of transmissions, and flooding. */
module EpidemicNetwork {
  import opened Bytes
  import opened Routing
  import opened Subsequences
  import opened Sums

  datatype Msg = Msg(from: nat, to: nat)

  /**
    * Per node the known holders of the bundle if it is stored there; the transmissions under way;
    * and, as history, how many transmissions of each node succeeded.
    */
  datatype Net = Net(nodes: seq<Option<seq<nat>>>, flight: seq<Msg>, sent: seq<int>)

  datatype Step =
    /** One pass of the forwarding procedure over the peers now connected; `ok` tells which sends succeed. */
    | Forward(n: nat, peers: seq<nat>, ok: seq<bool>)
    /** A transmission arrives, in any order. */
    | Deliver(i: nat)

  function Init(source: nat, size: nat): Net
    requires source < size
  {
    Net(seq(size, i => if i == source then Some([source]) else None), [], seq(size, i => 0))
  }

  predicate Enabled(s: Net, step: Step) {
    match step
    case Forward(n, peers, ok) =>
      && n < |s.nodes| == |s.sent| && s.nodes[n].Some? && Distinct(peers)
      && (forall p :: p in peers ==> p < |s.nodes|)
      && |ok| == |Filter(peers, s.nodes[n].value)|
    case Deliver(i) => i < |s.flight| && s.flight[i].to < |s.nodes|
  }

  /** The peers a forwarding pass reaches. */
  function Reached(s: Net, step: Step): (r: seq<nat>)
    requires step.Forward? && Enabled(s, step)
  {
    Succeeded(Filter(step.peers, s.nodes[step.n].value), step.ok)
  }

  function Next(s: Net, step: Step): (t: Net)
    requires Enabled(s, step)
    ensures |t.nodes| == |s.nodes| && |t.sent| == |s.sent|
  {
    match step
    case Forward(n, _, _) =>
      var got := Reached(s, step);
      Net(s.nodes[n := Some(s.nodes[n].value + got)],
          s.flight + seq(|got|, i requires 0 <= i < |got| => Msg(n, got[i])),
          s.sent[n := s.sent[n] + |got|])
    case Deliver(i) =>
      var m := s.flight[i];
      var known := if s.nodes[m.to].Some? then s.nodes[m.to].value else [m.to];
      s.(nodes := s.nodes[m.to := Some(known + [m.from])], flight := s.flight[..i] + s.flight[i + 1..])
  }

  ghost predicate IsRun(source: nat, size: nat, states: seq<Net>, steps: seq<Step>) {
    && source < size
    && |states| == |steps| + 1 && states[0] == Init(source, size)
    && forall i :: 0 <= i < |steps| ==> StepAt(states, steps, i)
  }

  ghost predicate StepAt(states: seq<Net>, steps: seq<Step>, i: nat)
    requires i < |steps| && |states| == |steps| + 1
  {
    Enabled(states[i], steps[i]) && states[i + 1] == Next(states[i], steps[i])
  }

  // Known holders are holders

  predicate HasOrGets(s: Net, m: nat) {
    m < |s.nodes| && (s.nodes[m].Some? || exists i :: 0 <= i < |s.flight| && s.flight[i].to == m)
  }

  /** What a node believes is true: whoever it lists has the bundle or is about to get it. */
  predicate KnownAreHolders(s: Net) {
    forall n, m :: 0 <= n < |s.nodes| && s.nodes[n].Some? && m in s.nodes[n].value ==> HasOrGets(s, m)
  }

  predicate Grounded(s: Net, size: nat) {
    && |s.nodes| == |s.sent| == size
    && (forall n :: 0 <= n < |s.nodes| && s.nodes[n].Some? ==> n in s.nodes[n].value)
    && (forall i :: 0 <= i < |s.flight| ==> s.flight[i].from < size && s.flight[i].to < size && s.nodes[s.flight[i].from].Some?)
  }

  /** Nodes keep the bundle, and whoever was about to get it still is, or has it now. */
  lemma HasOrGetsStays(s: Net, step: Step, m: nat)
    requires Enabled(s, step) && HasOrGets(s, m)
    ensures HasOrGets(Next(s, step), m)
  {
    var t := Next(s, step);
    if s.nodes[m].None? {
      var i :| 0 <= i < |s.flight| && s.flight[i].to == m;
      match step
      case Forward(_, _, _) => assert t.flight[i].to == m;
      case Deliver(j) =>
        if i < j {
          assert t.flight[i].to == m;
        } else if i > j {
          assert t.flight[i - 1].to == m;
        }
    }
  }

  lemma GroundedStep(s: Net, step: Step, size: nat)
    requires Enabled(s, step) && Grounded(s, size)
    ensures Grounded(Next(s, step), size)
  {
    var t := Next(s, step);
    if step.Forward? {
      var got := Reached(s, step);
      forall i | 0 <= i < |t.flight| ensures t.flight[i].from < size && t.flight[i].to < size && t.nodes[t.flight[i].from].Some? {
        if i >= |s.flight| {
          assert t.flight[i].to == got[i - |s.flight|];
          assert got[i - |s.flight|] in got;
        }
      }
    }
  }

  lemma KnownStep(s: Net, step: Step, size: nat)
    requires Enabled(s, step) && Grounded(s, size) && KnownAreHolders(s)
    ensures KnownAreHolders(Next(s, step))
  {
    var t := Next(s, step);
    forall n, m | 0 <= n < |t.nodes| && t.nodes[n].Some? && m in t.nodes[n].value ensures HasOrGets(t, m) {
      if s.nodes[n].Some? && m in s.nodes[n].value {
        HasOrGetsStays(s, step, m);
      } else {
        match step
        case Forward(_, _, _) =>
          var got := Reached(s, step);
          var i :| 0 <= i < |got| && got[i] == m;
          assert t.flight[|s.flight| + i].to == m;
        case Deliver(_) =>
      }
    }
  }

  /** The step lets node `n` know that `p` has the bundle: it was sent there, or came from there. */
  predicate Tells(s: Net, step: Step, n: nat, p: nat) {
    && Enabled(s, step)
    && match step
       case Forward(m, peers, ok) =>
         var chosen := Filter(peers, s.nodes[m].value);
         m == n && exists i :: 0 <= i < |chosen| && ok[i] && chosen[i] == p
       case Deliver(i) => s.flight[i].to == n && s.flight[i].from == p
  }

  lemma KnownAfterStep(s: Net, step: Step, n: nat, p: nat)
    requires Enabled(s, step) && n < |s.nodes|
    ensures var t := Next(s, step);
            && (s.nodes[n].Some? || Tells(s, step, n, p) ==> t.nodes[n].Some?)
            && (t.nodes[n].Some? ==>
                  (p in t.nodes[n].value <==>
                     (if s.nodes[n].Some? then p in s.nodes[n].value else p == n) || Tells(s, step, n, p)))
  {
    hide Filter, Succeeded;
    if step.Forward? {
      SucceededMembers(Filter(step.peers, s.nodes[step.n].value), step.ok, p);
    }
  }

  /** Over every run a node lists as holders exactly itself and those that earlier steps told it about. */
  lemma {:induction false} KnownIffTold(source: nat, size: nat, states: seq<Net>, steps: seq<Step>, k: nat, n: nat, p: nat)
    requires IsRun(source, size, states, steps) && k < |states| && n < size
    ensures |states[k].nodes| == size
    ensures (exists i :: 0 <= i < k && Tells(states[i], steps[i], n, p)) ==> states[k].nodes[n].Some?
    ensures states[k].nodes[n].Some? ==>
              (p in states[k].nodes[n].value <==> p == n || exists i :: 0 <= i < k && Tells(states[i], steps[i], n, p))
  {
    hide Enabled, Next, Tells;
    if k > 0 {
      KnownIffTold(source, size, states, steps, k - 1, n, p);
      assert StepAt(states, steps, k - 1);
      KnownAfterStep(states[k - 1], steps[k - 1], n, p);
      assert (exists i :: 0 <= i < k && Tells(states[i], steps[i], n, p)) <==>
             (exists i :: 0 <= i < k - 1 && Tells(states[i], steps[i], n, p)) || Tells(states[k - 1], steps[k - 1], n, p);
    }
  }

  // Counting transmissions

  function Range(n: nat): (r: set<nat>)
    ensures |r| == n && forall i: nat :: i in r <==> i < n
  {
    if n == 0 then {} else Range(n - 1) + {n - 1}
  }

  lemma SubsetSize(a: set<nat>, b: set<nat>)
    requires a <= b
    ensures |a| <= |b|
  {
    assert b == a + (b - a);
  }

  function Elements(xs: seq<nat>): (r: set<nat>) {
    set x | x in xs
  }

  lemma {:induction false} DistinctNewElements(known: seq<nat>, got: seq<nat>)
    requires Distinct(got) && forall x :: x in got ==> x !in known
    ensures |Elements(known + got)| == |Elements(known)| + |got|
  {
    if got == [] {
      assert known + got == known;
    } else {
      var k := |got| - 1;
      DistinctNewElements(known, got[..k]);
      assert got[k] !in known + got[..k];
      assert known + got == known + got[..k] + [got[k]];
      assert Elements(known + got) == Elements(known + got[..k]) + {got[k]};
    }
  }

  /** A node has sent at most once to each other node it knows to hold the bundle. */
  predicate SentBounded(s: Net) {
    && |s.sent| == |s.nodes|
    && (forall n :: 0 <= n < |s.nodes| && s.nodes[n].None? ==> s.sent[n] == 0)
    && (forall n :: 0 <= n < |s.nodes| && s.nodes[n].Some? ==> SentAtMostKnown(s, n))
  }

  predicate SentAtMostKnown(s: Net, n: nat)
    requires n < |s.nodes| == |s.sent| && s.nodes[n].Some?
  {
    && (forall m :: m in s.nodes[n].value ==> m < |s.nodes|)
    && s.sent[n] + 1 <= |Elements(s.nodes[n].value)|
  }

  lemma ElementsGrow(known: seq<nat>, more: seq<nat>)
    ensures |Elements(known)| <= |Elements(known + more)|
  {
    SubsetSize(Elements(known), Elements(known + more));
  }

  lemma ForwardCounts(s: Net, step: Step)
    requires step.Forward? && Enabled(s, step) && SentBounded(s)
    ensures SentBounded(Next(s, step))
  {
    var t := Next(s, step);
    var known := s.nodes[step.n].value;
    var got := Reached(s, step);
    FilterDistinct(step.peers, known);
    SucceededDistinct(Filter(step.peers, known), step.ok);
    DistinctNewElements(known, got);
    forall n | 0 <= n < |t.nodes| && t.nodes[n].Some? ensures SentAtMostKnown(t, n) {
      assert n != step.n ==> t.nodes[n] == s.nodes[n] && SentAtMostKnown(s, n);
      assert SentAtMostKnown(s, step.n);
    }
  }

  lemma DeliverCounts(s: Net, step: Step, size: nat)
    requires step.Deliver? && Enabled(s, step) && SentBounded(s) && Grounded(s, size)
    ensures SentBounded(Next(s, step))
  {
    var t := Next(s, step);
    var m := s.flight[step.i];
    forall n | 0 <= n < |t.nodes| && t.nodes[n].Some? ensures SentAtMostKnown(t, n) {
      if n != m.to {
        assert SentAtMostKnown(s, n);
      } else if s.nodes[n].Some? {
        assert SentAtMostKnown(s, n);
        ElementsGrow(s.nodes[n].value, [m.from]);
      } else {
        assert Elements([n]) == {n};
        ElementsGrow([n], [m.from]);
      }
    }
  }

  ghost predicate Inv(s: Net, source: nat, size: nat) {
    && Grounded(s, size) && KnownAreHolders(s) && SentBounded(s)
    && source < size && s.nodes[source].Some?
  }

  lemma {:induction false} RunInv(source: nat, size: nat, states: seq<Net>, steps: seq<Step>, k: nat)
    requires IsRun(source, size, states, steps) && k < |states|
    ensures Inv(states[k], source, size)
  {
    if k == 0 {
      var s := Init(source, size);
      assert Elements([source]) == {source};
      assert HasOrGets(s, source);
      assert SentAtMostKnown(s, source);
    } else {
      RunInv(source, size, states, steps, k - 1);
      assert StepAt(states, steps, k - 1);
      var s, step := states[k - 1], steps[k - 1];
      GroundedStep(s, step, size);
      KnownStep(s, step, size);
      if step.Forward? {
        ForwardCounts(s, step);
      } else {
        DeliverCounts(s, step, size);
      }
    }
  }

  /** In every state of every run, every recorded holder has the bundle or has it in flight towards it. */
  lemma KnownHoldersHold(source: nat, size: nat, states: seq<Net>, steps: seq<Step>, k: nat, n: nat, m: nat)
    requires IsRun(source, size, states, steps) && k < |states|
    requires n < |states[k].nodes| && states[k].nodes[n].Some? && m in states[k].nodes[n].value
    ensures HasOrGets(states[k], m)
  {
    RunInv(source, size, states, steps, k);
  }

  lemma {:induction false} SumBound(xs: seq<int>, b: int)
    requires forall i :: 0 <= i < |xs| ==> xs[i] <= b
    ensures Sum(xs) <= |xs| * b
  {
    if xs != [] {
      SumBound(xs[1..], b);
      assert |xs| * b == (|xs| - 1) * b + b;
    }
  }

  /** Over a whole run among n nodes at most n * (n - 1) transmissions succeed. */
  lemma TransmissionBound(source: nat, size: nat, states: seq<Net>, steps: seq<Step>, k: nat)
    requires IsRun(source, size, states, steps) && k < |states|
    ensures Sum(states[k].sent) <= size * (size - 1)
  {
    RunInv(source, size, states, steps, k);
    var s := states[k];
    hide IsRun;
    forall n | 0 <= n < |s.sent| ensures s.sent[n] <= size - 1 {
      if s.nodes[n].Some? {
        assert SentAtMostKnown(s, n);
        SubsetSize(Elements(s.nodes[n].value), Range(size));
      }
    }
    SumBound(s.sent, size - 1);
  }

  // Flooding

  /** Nothing is under way, and no node that has the bundle would select any of its peers. */
  predicate Quiescent(s: Net, links: seq<seq<nat>>)
  {
    && s.flight == []
    && |links| == |s.nodes|
    && forall n :: 0 <= n < |s.nodes| && s.nodes[n].Some? ==> Filter(links[n], s.nodes[n].value) == []
  }

  predicate IsPath(links: seq<seq<nat>>, path: seq<nat>) {
    && path != []
    && (forall i :: 0 <= i < |path| ==> path[i] < |links|)
    && forall i :: 0 < i < |path| ==> path[i] in links[path[i - 1]]
  }

  /** In a quiescent state every node that a path of links connects to the source has the bundle. */
  lemma {:induction false} FloodingReachesAll(
      source: nat, size: nat, states: seq<Net>, steps: seq<Step>, k: nat, links: seq<seq<nat>>, path: seq<nat>)
    requires IsRun(source, size, states, steps) && k < |states|
    requires Quiescent(states[k], links) && IsPath(links, path) && path[0] == source
    ensures path[|path| - 1] < |states[k].nodes| && states[k].nodes[path[|path| - 1]].Some?
    decreases |path|
  {
    RunInv(source, size, states, steps, k);
    var s := states[k];
    if |path| > 1 {
      var i := |path| - 1;
      FloodingReachesAll(source, size, states, steps, k, links, path[..i]);
      hide IsRun;
      var n, m := path[i - 1], path[i];
      assert m in links[n] && m !in Filter(links[n], s.nodes[n].value);
      assert HasOrGets(s, m);
    }
  }
}
