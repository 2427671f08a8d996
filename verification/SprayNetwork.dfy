/** Spray-and-wait in a network of nodes: bounds on the copies of one bundle over whole runs. */
module SprayNetwork {
  import opened Bytes
  import opened Routing
  import opened Subsequences
  import opened Sums

  /** A node that has the bundle in its store. The counter is missing until the router was notified. */
  datatype Node = Node(copies: Option<nat>, known: seq<nat>)

  /** A transmission under way; `block` is the content of its spray block. */
  datatype Msg = Msg(from: nat, to: nat, block: Option<nat>)

  datatype Config = Config(binary: bool, copies: nat, source: nat, size: nat)

  /**
    * The network: per node its descriptor, if any; transmissions in flight; bundles stored whose
    * notification is still outstanding; and, as history, who ever selected whom.
    */
  datatype Net = Net(nodes: seq<Option<Node>>, flight: seq<Msg>, arriving: seq<Msg>, log: seq<(nat, nat)>)

  datatype Step =
    /** A node selects among its peers and sends; transmissions may get through or not, acknowledged or not. */
    | Select(n: nat, peers: seq<nat>, pick: nat, through: seq<bool>, acked: seq<bool>)
    /** A transmission is lost. */
    | Drop(i: nat)
    /** A transmission, any one in flight, is stored at its destination. */
    | Insert(i: nat)
    /** The router is notified of a stored bundle. */
    | Notify(i: nat)

  /** A new bundle, of which the router is yet to be told, stands at its source with all the copies. */
  function Created(cfg: Config): Msg {
    Msg(cfg.source, cfg.source, Some(cfg.copies))
  }

  /** The source has stored its new bundle. */
  function Init(cfg: Config): Net
    requires cfg.source < cfg.size
  {
    Net(seq(cfg.size, i => if i == cfg.source then Some(Node(None, [cfg.source])) else None), [], [Created(cfg)], [])
  }

  function Choice(cfg: Config, node: Node, peers: seq<nat>, pick: nat): Selection<nat> {
    Spray(cfg.binary, cfg.copies, node.copies, Filter(peers, node.known), pick)
  }

  predicate Enabled(cfg: Config, s: Net, step: Step) {
    match step
    case Select(n, peers, pick, through, acked) =>
      && n < |s.nodes| && s.nodes[n].Some?
      && (forall p :: p in peers ==> p < |s.nodes|)
      && |through| == |acked| == |Choice(cfg, s.nodes[n].value, peers, pick).peers|
    case Drop(i) => i < |s.flight|
    case Insert(i) => i < |s.flight| && s.flight[i].to < |s.nodes|
    case Notify(i) => i < |s.arriving| && s.arriving[i].to < |s.nodes| && s.nodes[s.arriving[i].to].Some?
  }

  /** The step is no selection by a node whose counter has not been stored. */
  predicate Orderly(s: Net, step: Step) {
    step.Select? && step.n < |s.nodes| && s.nodes[step.n].Some? ==> s.nodes[step.n].value.copies.Some?
  }

  function Messages(from: nat, peers: seq<nat>, block: Option<nat>): (r: seq<Msg>)
    ensures |r| == |peers|
  {
    seq(|peers|, i requires 0 <= i < |peers| => Msg(from, peers[i], block))
  }

  function Without<T>(xs: seq<T>, i: nat): (r: seq<T>)
    requires i < |xs|
  {
    xs[..i] + xs[i + 1..]
  }

  function Next(cfg: Config, s: Net, step: Step): (t: Net)
    requires Enabled(cfg, s, step)
    ensures |t.nodes| == |s.nodes|
  {
    match step
    case Select(n, peers, pick, through, acked) =>
      var node := s.nodes[n].value;
      var r := Choice(cfg, node, peers, pick);
      s.(nodes := s.nodes[n := Some(Node(Some(r.copies), node.known + Succeeded(r.peers, acked)))],
         flight := s.flight + Messages(n, Succeeded(r.peers, through), r.block),
         log := s.log + seq(|r.peers|, i requires 0 <= i < |r.peers| => (n, r.peers[i])))
    case Drop(i) =>
      s.(flight := Without(s.flight, i))
    case Insert(i) =>
      var m := s.flight[i];
      var node := if s.nodes[m.to].Some? then s.nodes[m.to].value else Node(None, [m.to]);
      s.(nodes := s.nodes[m.to := Some(node.(known := node.known + [m.from]))],
         flight := Without(s.flight, i), arriving := s.arriving + [m])
    case Notify(i) =>
      var m := s.arriving[i];
      s.(nodes := s.nodes[m.to := Some(s.nodes[m.to].value.(copies := Some(ReceivedCopies(m.block))))],
         arriving := Without(s.arriving, i))
  }

  /** A run: states and the steps between them, each enabled. */
  ghost predicate IsRun(cfg: Config, states: seq<Net>, steps: seq<Step>) {
    && cfg.source < cfg.size
    && |states| == |steps| + 1 && states[0] == Init(cfg)
    && forall i :: 0 <= i < |steps| ==> StepAt(cfg, states, steps, i)
  }

  ghost predicate StepAt(cfg: Config, states: seq<Net>, steps: seq<Step>, i: nat)
    requires i < |steps| && |states| == |steps| + 1
  {
    Enabled(cfg, states[i], steps[i]) && states[i + 1] == Next(cfg, states[i], steps[i])
  }

  /** How many of the first `k` steps were selections by nodes without a counter. */
  function Early(states: seq<Net>, steps: seq<Step>, k: nat): (n: nat)
    requires k <= |steps| && |states| == |steps| + 1
  {
    if k == 0 then 0 else Early(states, steps, k - 1) + if Orderly(states[k - 1], steps[k - 1]) then 0 else 1
  }

  // Copies in the network

  function CopiesOf(o: Option<Node>): int {
    if o.Some? && o.value.copies.Some? then o.value.copies.value else 0
  }

  function Held(nodes: seq<Option<Node>>): (r: seq<int>)
    ensures |r| == |nodes|
  {
    seq(|nodes|, i requires 0 <= i < |nodes| => CopiesOf(nodes[i]))
  }

  function Carried(ms: seq<Msg>): (r: seq<int>)
    ensures |r| == |ms|
  {
    seq(|ms|, i requires 0 <= i < |ms| => ReceivedCopies(ms[i].block))
  }

  /** Copies held, being stored, and in flight. */
  function Total(s: Net): int {
    Sum(Held(s.nodes)) + Sum(Carried(s.arriving)) + Sum(Carried(s.flight))
  }

  predicate AtLeastOne(ms: seq<Msg>) {
    forall i :: 0 <= i < |ms| ==> ms[i].block.Some? && ms[i].block.value >= 1
  }

  predicate BinaryInv(s: Net, budget: int) {
    && Total(s) <= budget
    && AtLeastOne(s.flight) && AtLeastOne(s.arriving)
    && forall i :: 0 <= i < |s.nodes| && s.nodes[i].Some? && s.nodes[i].value.copies.Some? ==> s.nodes[i].value.copies.value >= 1
  }

  lemma HeldUpdate(nodes: seq<Option<Node>>, n: nat, o: Option<Node>)
    requires n < |nodes|
    ensures Sum(Held(nodes[n := o])) == Sum(Held(nodes)) - CopiesOf(nodes[n]) + CopiesOf(o)
  {
    assert Held(nodes[n := o]) == Held(nodes)[n := CopiesOf(o)];
    SumUpdate(Held(nodes), n, CopiesOf(o));
  }

  lemma CarriedWithout(ms: seq<Msg>, i: nat)
    requires i < |ms|
    ensures Sum(Carried(Without(ms, i))) == Sum(Carried(ms)) - ReceivedCopies(ms[i].block)
  {
    assert Carried(Without(ms, i)) == Carried(ms)[..i] + Carried(ms)[i + 1..];
    SumRemove(Carried(ms), i);
  }

  lemma CarriedConcat(ms: seq<Msg>, more: seq<Msg>)
    ensures Sum(Carried(ms + more)) == Sum(Carried(ms)) + Sum(Carried(more))
  {
    assert Carried(ms + more) == Carried(ms) + Carried(more);
    SumConcat(Carried(ms), Carried(more));
  }

  lemma CarriedOne(m: Msg)
    ensures Sum(Carried([m])) == ReceivedCopies(m.block)
  {
    assert Carried([m]) == [ReceivedCopies(m.block)];
    assert Carried([m])[1..] == [];
  }

  lemma {:induction false} SucceededLength<T(!new)>(peers: seq<T>, ok: seq<bool>)
    requires |ok| == |peers|
    ensures |Succeeded(peers, ok)| <= |peers|
  {
    if peers != [] {
      SucceededLength(peers[..|peers| - 1], ok[..|peers| - 1]);
    }
  }

  /** The copies a selection puts in flight: what the spray block says, or nothing. */
  lemma SelectionInFlight(n: nat, r: Selection<nat>, through: seq<bool>)
    requires |through| == |r.peers| <= 1 && (r.peers != [] ==> r.block.Some? && r.block.value >= 1)
    ensures var ms := Messages(n, Succeeded(r.peers, through), r.block);
            AtLeastOne(ms) && Sum(Carried(ms)) <= if r.peers == [] then 0 else r.block.value
  {
    SucceededLength(r.peers, through);
    var got := Succeeded(r.peers, through);
    var ms := Messages(n, got, r.block);
    if got == [] {
      assert ms == [];
      assert Carried(ms) == [];
    } else {
      assert ms == [Msg(n, got[0], r.block)];
      CarriedOne(ms[0]);
    }
  }

  /** A selection replaces the node's counter and adds what its transmissions carry. */
  lemma SelectTotal(cfg: Config, s: Net, step: Step)
    requires step.Select? && Enabled(cfg, s, step)
    ensures var r := Choice(cfg, s.nodes[step.n].value, step.peers, step.pick);
            Total(Next(cfg, s, step)) == Total(s) - CopiesOf(s.nodes[step.n]) + r.copies
                                         + Sum(Carried(Messages(step.n, Succeeded(r.peers, step.through), r.block)))
  {
    hide Spray, Succeeded, Filter, Sum;
    var t := Next(cfg, s, step);
    var r := Choice(cfg, s.nodes[step.n].value, step.peers, step.pick);
    HeldUpdate(s.nodes, step.n, t.nodes[step.n]);
    CarriedConcat(s.flight, Messages(step.n, Succeeded(r.peers, step.through), r.block));
  }

  lemma BinarySelect(cfg: Config, s: Net, step: Step, budget: int)
    requires cfg.binary && cfg.copies >= 1 && BinaryInv(s, budget) && step.Select? && Enabled(cfg, s, step)
    ensures BinaryInv(Next(cfg, s, step), budget + if Orderly(s, step) then 0 else cfg.copies)
  {
    hide Sum, Filter, Succeeded, Spray;
    var node := s.nodes[step.n].value;
    SprayConserves(true, cfg.copies, node.copies, Filter(step.peers, node.known), step.pick);
    SelectionInFlight(step.n, Choice(cfg, node, step.peers, step.pick), step.through);
    SelectTotal(cfg, s, step);
  }

  lemma BinaryInsert(cfg: Config, s: Net, i: nat, budget: int)
    requires BinaryInv(s, budget) && Enabled(cfg, s, Insert(i))
    ensures BinaryInv(Next(cfg, s, Insert(i)), budget)
  {
    hide Total;
    InsertConserves(cfg, s, i);
  }

  /** Notifying a router replaces its counter by the copies that came with the bundle. */
  lemma NotifyTotal(cfg: Config, s: Net, i: nat)
    requires Enabled(cfg, s, Notify(i))
    ensures Total(Next(cfg, s, Notify(i))) == Total(s) - CopiesOf(s.nodes[s.arriving[i].to])
  {
    hide Sum;
    var t := Next(cfg, s, Notify(i));
    CarriedWithout(s.arriving, i);
    HeldUpdate(s.nodes, s.arriving[i].to, t.nodes[s.arriving[i].to]);
  }

  lemma BinaryNotify(cfg: Config, s: Net, i: nat, budget: int)
    requires BinaryInv(s, budget) && Enabled(cfg, s, Notify(i))
    ensures BinaryInv(Next(cfg, s, Notify(i)), budget)
  {
    hide Total;
    NotifyTotal(cfg, s, i);
  }

  lemma DropTotal(cfg: Config, s: Net, i: nat)
    requires Enabled(cfg, s, Drop(i))
    ensures Total(Next(cfg, s, Drop(i))) == Total(s) - ReceivedCopies(s.flight[i].block)
  {
    hide Sum;
    CarriedWithout(s.flight, i);
  }

  lemma BinaryTransport(cfg: Config, s: Net, step: Step, budget: int)
    requires BinaryInv(s, budget) && !step.Select? && Enabled(cfg, s, step)
    ensures BinaryInv(Next(cfg, s, step), budget)
  {
    hide Total;
    match step
    case Drop(i) => DropTotal(cfg, s, i);
    case Insert(i) => BinaryInsert(cfg, s, i, budget);
    case Notify(i) => BinaryNotify(cfg, s, i, budget);
  }

  lemma InitTotal(cfg: Config)
    requires cfg.source < cfg.size
    ensures Total(Init(cfg)) == cfg.copies
  {
    var s := Init(cfg);
    AllZero(Held(s.nodes));
    CarriedOne(Created(cfg));
    assert Carried([]) == [];
  }

  lemma {:induction false} AllZero(xs: seq<int>)
    requires forall i :: 0 <= i < |xs| ==> xs[i] == 0
    ensures Sum(xs) == 0
  {
    if xs != [] {
      AllZero(xs[1..]);
    }
  }

  /** The copies a run may bring about: the configured number, and as many again for each early selection. */
  function Budget(cfg: Config, states: seq<Net>, steps: seq<Step>, k: nat): int
    requires k <= |steps| && |states| == |steps| + 1
  {
    cfg.copies * (1 + Early(states, steps, k))
  }

  lemma BudgetStep(cfg: Config, states: seq<Net>, steps: seq<Step>, k: nat)
    requires 0 < k <= |steps| && |states| == |steps| + 1
    ensures Budget(cfg, states, steps, k)
            == Budget(cfg, states, steps, k - 1) + if Orderly(states[k - 1], steps[k - 1]) then 0 else cfg.copies
  {
    hide Orderly;
    var e := Early(states, steps, k - 1);
    assert cfg.copies * (1 + (e + 1)) == cfg.copies * (1 + e) + cfg.copies;
  }

  lemma {:induction false} BinaryRun(cfg: Config, states: seq<Net>, steps: seq<Step>, k: nat)
    requires cfg.binary && cfg.copies >= 1 && IsRun(cfg, states, steps) && k < |states|
    ensures BinaryInv(states[k], Budget(cfg, states, steps, k))
  {
    hide BinaryInv, Next, Enabled, Orderly, Budget;
    if k == 0 {
      BinaryStart(cfg, states, steps);
    } else {
      BinaryRun(cfg, states, steps, k - 1);
      assert StepAt(cfg, states, steps, k - 1);
      BudgetStep(cfg, states, steps, k);
      if steps[k - 1].Select? {
        BinarySelect(cfg, states[k - 1], steps[k - 1], Budget(cfg, states, steps, k - 1));
      } else {
        TransportIsOrderly(states[k - 1], steps[k - 1]);
        BinaryTransport(cfg, states[k - 1], steps[k - 1], Budget(cfg, states, steps, k - 1));
      }
    }
  }

  lemma TransportIsOrderly(s: Net, step: Step)
    requires !step.Select?
    ensures Orderly(s, step)
  {
  }

  lemma BinaryStart(cfg: Config, states: seq<Net>, steps: seq<Step>)
    requires cfg.copies >= 1 && cfg.source < cfg.size && |states| == |steps| + 1 && states[0] == Init(cfg)
    ensures BinaryInv(states[0], Budget(cfg, states, steps, 0))
  {
    hide Total;
    InitTotal(cfg);
  }

  function Holders(nodes: seq<Option<Node>>): (r: seq<int>)
    ensures |r| == |nodes|
  {
    seq(|nodes|, i requires 0 <= i < |nodes| => Holds(nodes[i]))
  }

  function Holds(o: Option<Node>): (n: int)
    ensures 0 <= n <= 1
  {
    if o.Some? && o.value.copies.Some? then 1 else 0
  }

  lemma {:induction false} Ones(xs: seq<int>)
    requires forall i :: 0 <= i < |xs| ==> xs[i] >= 1
    ensures Sum(xs) >= |xs|
  {
    if xs != [] {
      Ones(xs[1..]);
    }
  }

  lemma {:induction false} AtMostOnes(xs: seq<int>)
    requires forall i :: 0 <= i < |xs| ==> xs[i] <= 1
    ensures Sum(xs) <= |xs|
  {
    if xs != [] {
      AtMostOnes(xs[1..]);
    }
  }

  lemma HoldersUpdate(nodes: seq<Option<Node>>, n: nat, o: Option<Node>)
    requires n < |nodes|
    ensures Sum(Holders(nodes[n := o])) == Sum(Holders(nodes)) - Holds(nodes[n]) + Holds(o)
  {
    hide Sum;
    assert Holders(nodes[n := o]) == Holders(nodes)[n := Holds(o)];
    SumUpdate(Holders(nodes), n, Holds(o));
  }

  /** An early selection gives a node its counter; no step takes one away. */
  lemma StepHolders(cfg: Config, s: Net, step: Step)
    requires Enabled(cfg, s, step)
    ensures Sum(Holders(Next(cfg, s, step).nodes)) >= Sum(Holders(s.nodes)) + if Orderly(s, step) then 0 else 1
  {
    hide Sum, Holders, Filter, Spray, Succeeded;
    var t := Next(cfg, s, step);
    match step
    case Select(n, _, _, _, _) => HoldersUpdate(s.nodes, n, t.nodes[n]);
    case Drop(_) =>
    case Insert(i) => HoldersUpdate(s.nodes, s.flight[i].to, t.nodes[s.flight[i].to]);
    case Notify(i) => HoldersUpdate(s.nodes, s.arriving[i].to, t.nodes[s.arriving[i].to]);
  }

  lemma HoldersNatural(nodes: seq<Option<Node>>)
    ensures 0 <= Sum(Holders(nodes)) <= |nodes|
  {
    AtMostOnes(Holders(nodes));
  }

  /** Every node selects early at most once. */
  lemma {:induction false} EarlyBound(cfg: Config, states: seq<Net>, steps: seq<Step>, k: nat)
    requires IsRun(cfg, states, steps) && k < |states|
    ensures |states[k].nodes| == cfg.size && Early(states, steps, k) <= Sum(Holders(states[k].nodes)) <= cfg.size
  {
    hide Sum, Holders, Enabled, Orderly, Next;
    HoldersNatural(states[k].nodes);
    if k > 0 {
      EarlyBound(cfg, states, steps, k - 1);
      assert StepAt(cfg, states, steps, k - 1);
      StepHolders(cfg, states[k - 1], steps[k - 1]);
    }
  }

  lemma ShareCounts(s: Net, budget: int)
    requires BinaryInv(s, budget)
    ensures Sum(Holders(s.nodes)) + |s.arriving| + |s.flight| <= budget
  {
    SumAtLeast(Held(s.nodes), Holders(s.nodes));
    Ones(Carried(s.arriving));
    Ones(Carried(s.flight));
  }

  /**
    * Binary mode: in every state of every run, whatever is lost, reordered or looped back, the
    * copies held, being stored and in flight never exceed the configured number, and as many again
    * for each early selection, of which there is at most one per node. Each share is at least one,
    * and so the holders, stored and flying bundles together are at most that many.
    */
  lemma BinarySprayBound(cfg: Config, states: seq<Net>, steps: seq<Step>, k: nat)
    requires cfg.binary && cfg.copies >= 1 && IsRun(cfg, states, steps) && k < |states|
    ensures BinaryInv(states[k], cfg.copies * (1 + Early(states, steps, k)))
    ensures Sum(Holders(states[k].nodes)) + |states[k].arriving| + |states[k].flight|
            <= cfg.copies * (1 + Early(states, steps, k))
    ensures Early(states, steps, k) <= cfg.size
  {
    hide StepAt, BinaryInv, Early, Sum, Holders, Init;
    BinaryRun(cfg, states, steps, k);
    ShareCounts(states[k], Budget(cfg, states, steps, k));
    EarlyBound(cfg, states, steps, k);
  }

  // Selecting too early

  lemma {:induction false} AllSucceed(peers: seq<nat>, ok: seq<bool>)
    requires |ok| == |peers| && forall i :: 0 <= i < |ok| ==> ok[i]
    ensures Succeeded(peers, ok) == peers
  {
    if peers != [] {
      var n := |peers| - 1;
      AllSucceed(peers[..n], ok[..n]);
      assert peers == peers[..n] + [peers[n]];
    }
  }

  lemma OneInFlight(n: nat, peers: seq<nat>, block: Option<nat>)
    requires |peers| <= 1 && (peers != [] ==> block.Some?)
    ensures Sum(Carried(Messages(n, peers, block))) == if peers == [] then 0 else block.value
  {
    hide Sum;
    var ms := Messages(n, peers, block);
    if peers != [] {
      assert ms == [Msg(n, peers[0], block)];
      CarriedOne(ms[0]);
    } else {
      AllZero(Carried(ms));
    }
  }

  lemma SelectionAllInFlight(n: nat, r: Selection<nat>, through: seq<bool>)
    requires |through| == |r.peers| <= 1 && forall i :: 0 <= i < |through| ==> through[i]
    requires r.peers != [] ==> r.block.Some?
    ensures Sum(Carried(Messages(n, Succeeded(r.peers, through), r.block))) == if r.peers == [] then 0 else r.block.value
  {
    hide Succeeded, Sum, Carried, Messages;
    AllSucceed(r.peers, through);
    OneInFlight(n, r.peers, r.block);
  }

  /**
    * When nothing gets lost, a selection in binary mode leaves the number of copies as it is exactly
    * when the node had its counter stored; a node without one makes up the configured number anew.
    */
  lemma SelectConservesIffCounted(cfg: Config, s: Net, step: Step)
    requires cfg.binary && cfg.copies >= 1 && step.Select? && Enabled(cfg, s, step)
    requires forall i :: 0 <= i < |step.through| ==> step.through[i]
    ensures Total(Next(cfg, s, step)) == Total(s) + if s.nodes[step.n].value.copies.Some? then 0 else cfg.copies
    ensures Total(Next(cfg, s, step)) == Total(s) <==> Orderly(s, step)
  {
    var node := s.nodes[step.n].value;
    var r := Choice(cfg, node, step.peers, step.pick);
    SprayConserves(true, cfg.copies, node.copies, Filter(step.peers, node.known), step.pick);
    hide Spray, Succeeded, Sum, Filter, Total, Next;
    SelectionAllInFlight(step.n, r, step.through);
    SelectTotal(cfg, s, step);
  }

  lemma FilterOne(p: nat, known: seq<nat>)
    requires p !in known
    ensures Filter([p], known) == [p]
  {
    assert [p][..0] == [];
  }

  /** The state after a list of steps, if each is enabled in its turn. */
  function Play(cfg: Config, s: Net, steps: seq<Step>): (t: Option<Net>)
    decreases |steps|
  {
    if steps == [] then Some(s)
    else if Enabled(cfg, s, steps[0]) then Play(cfg, Next(cfg, s, steps[0]), steps[1..])
    else None
  }

  const SEND := Select(0, [1], 0, [true], [true])
  const EARLY := Select(1, [2], 0, [true], [true])

  /** The source is told of its bundle and sends to node 1, which stores it and selects node 2 before it is told. */
  const RACE := [Notify(0), SEND, Insert(0), EARLY]

  lemma PlayFour(cfg: Config, s: Net, a: Step, b: Step, c: Step, d: Step)
    requires Enabled(cfg, s, a)
    requires var s1 := Next(cfg, s, a);
             && Enabled(cfg, s1, b)
             && var s2 := Next(cfg, s1, b);
             && Enabled(cfg, s2, c)
             && Enabled(cfg, Next(cfg, s2, c), d)
    ensures Play(cfg, s, [a, b, c, d]) == Some(Next(cfg, Next(cfg, Next(cfg, Next(cfg, s, a), b), c), d))
  {
    hide Enabled, Next;
    var s1 := Next(cfg, s, a);
    var s2 := Next(cfg, s1, b);
    var s3 := Next(cfg, s2, c);
    assert [a, b, c, d][1..] == [b, c, d] && [b, c, d][1..] == [c, d] && [c, d][1..] == [d] && [d][1..] == [];
    assert Play(cfg, s3, [d]) == Some(Next(cfg, s3, d));
    assert Play(cfg, s2, [c, d]) == Play(cfg, s3, [d]);
    assert Play(cfg, s1, [b, c, d]) == Play(cfg, s2, [c, d]);
  }

  predicate ThreeNodes(cfg: Config) {
    cfg.source == 0 && cfg.size >= 3
  }

  /** The source after it was told of its bundle. */
  lemma Told(cfg: Config)
    requires ThreeNodes(cfg)
    ensures Enabled(cfg, Init(cfg), Notify(0))
    ensures var s := Next(cfg, Init(cfg), Notify(0));
            && |s.nodes| == cfg.size && s.nodes[0] == Some(Node(Some(cfg.copies), [0])) && s.nodes[1] == None
            && s.flight == [] && s.arriving == [] && s.log == [] && Total(s) == cfg.copies
  {
    hide Total;
    InitTotal(cfg);
    NotifyTotal(cfg, Init(cfg), 0);
  }

  /** A selection of the one peer `p` that gets through. */
  lemma SelectOne(cfg: Config, s: Net, n: nat, p: nat)
    requires n < |s.nodes| && s.nodes[n].Some? && p !in s.nodes[n].value.known && p < |s.nodes|
    requires cfg.copies >= (if cfg.binary then 2 else 1)
    requires s.nodes[n].value.copies == None || s.nodes[n].value.copies == Some(cfg.copies)
    ensures var step := Select(n, [p], 0, [true], [true]);
            && Enabled(cfg, s, step)
            && var t := Next(cfg, s, step);
            && t.log == s.log + [(n, p)]
            && t.flight == s.flight + [Msg(n, p, if cfg.binary then Some(cfg.copies / 2) else None)]
            && t.arriving == s.arriving && t.nodes[..n] == s.nodes[..n] && t.nodes[n + 1..] == s.nodes[n + 1..]
  {
    FilterOne(p, s.nodes[n].value.known);
    AllSucceed([p], [true]);
    hide Filter, Succeeded;
    var r := Choice(cfg, s.nodes[n].value, [p], 0);
    assert r.peers == [p];
    assert Messages(n, [p], r.block) == [Msg(n, p, r.block)];
    assert seq(|r.peers|, i requires 0 <= i < |r.peers| => (n, r.peers[i])) == [(n, p)];
  }

  /** Where the first three steps of the race lead. */
  lemma RaceStarts(cfg: Config)
    requires ThreeNodes(cfg) && cfg.copies >= (if cfg.binary then 2 else 1)
    ensures var s1 := Next(cfg, Init(cfg), Notify(0));
            && Enabled(cfg, s1, SEND)
            && var s2 := Next(cfg, s1, SEND);
            && Enabled(cfg, s2, Insert(0))
            && var s3 := Next(cfg, s2, Insert(0));
            && s3.log == [(0, 1)] && |s3.nodes| == cfg.size && s3.nodes[1] == Some(Node(None, [1, 0]))
  {
    hide Init, Filter, Spray, Succeeded, Total;
    Told(cfg);
    var s1 := Next(cfg, Init(cfg), Notify(0));
    SelectOne(cfg, s1, 0, 1);
    var s2 := Next(cfg, s1, SEND);
    assert s2.nodes[1] == s2.nodes[1..][0] == s1.nodes[1..][0];
    assert [1] + [0] == [1, 0];
  }

  /** In binary mode the race doubles the copies. */
  lemma EarlySelectDoublesCopies(cfg: Config)
    requires cfg.binary && cfg.copies >= 2 && ThreeNodes(cfg)
    ensures Play(cfg, Init(cfg), RACE).Some? && Total(Play(cfg, Init(cfg), RACE).value) == 2 * cfg.copies
    ensures !Orderly(Next(cfg, Next(cfg, Next(cfg, Init(cfg), Notify(0)), SEND), Insert(0)), EARLY)
  {
    hide Init, Next, Enabled, Total, Play;
    Told(cfg);
    RaceStarts(cfg);
    var s1 := Next(cfg, Init(cfg), Notify(0));
    var s2 := Next(cfg, s1, SEND);
    var s3 := Next(cfg, s2, Insert(0));
    SelectConservesIffCounted(cfg, s1, SEND);
    InsertConserves(cfg, s2, 0);
    SelectOne(cfg, s3, 1, 2);
    SelectConservesIffCounted(cfg, s3, EARLY);
    PlayFour(cfg, Init(cfg), Notify(0), SEND, Insert(0), EARLY);
  }

  /** In basic mode it makes a relay select a peer. */
  lemma EarlyRelaySelects(cfg: Config)
    requires !cfg.binary && cfg.copies >= 1 && ThreeNodes(cfg)
    ensures Play(cfg, Init(cfg), RACE).Some? && Play(cfg, Init(cfg), RACE).value.log == [(0, 1), (1, 2)]
    ensures !Orderly(Next(cfg, Next(cfg, Next(cfg, Init(cfg), Notify(0)), SEND), Insert(0)), EARLY)
  {
    hide Init, Next, Enabled, Total, Play;
    Told(cfg);
    RaceStarts(cfg);
    var s3 := Next(cfg, Next(cfg, Next(cfg, Init(cfg), Notify(0)), SEND), Insert(0));
    SelectOne(cfg, s3, 1, 2);
    PlayFour(cfg, Init(cfg), Notify(0), SEND, Insert(0), EARLY);
    assert [(0, 1)] + [(1, 2)] == [(0, 1), (1, 2)];
  }

  lemma InsertConserves(cfg: Config, s: Net, i: nat)
    requires Enabled(cfg, s, Insert(i))
    ensures Total(Next(cfg, s, Insert(i))) == Total(s)
  {
    hide Sum;
    var t := Next(cfg, s, Insert(i));
    CarriedWithout(s.flight, i);
    CarriedConcat(s.arriving, [s.flight[i]]);
    CarriedOne(s.flight[i]);
    HeldUpdate(s.nodes, s.flight[i].to, t.nodes[s.flight[i].to]);
  }

  // Different peers

  /** The peers of a selection whose transmission was acknowledged, with the selecting node. */
  function AckedPairs(n: nat, acked: seq<nat>): (r: seq<(nat, nat)>)
    ensures |r| == |acked|
  {
    seq(|acked|, i requires 0 <= i < |acked| => (n, acked[i]))
  }

  /** All acknowledged transmissions of the first `k` steps. */
  function AckedLog(cfg: Config, states: seq<Net>, steps: seq<Step>, k: nat): (r: seq<(nat, nat)>)
    requires k <= |steps| && |states| == |steps| + 1 && forall i :: 0 <= i < |steps| ==> Enabled(cfg, states[i], steps[i])
  {
    if k == 0 then []
    else
      AckedLog(cfg, states, steps, k - 1)
      + match steps[k - 1]
        case Select(n, peers, pick, _, acked) =>
          AckedPairs(n, Succeeded(Choice(cfg, states[k - 1].nodes[n].value, peers, pick).peers, acked))
        case _ => []
  }

  predicate AllKnown(s: Net, log: seq<(nat, nat)>) {
    forall i :: 0 <= i < |log| ==>
      log[i].0 < |s.nodes| && s.nodes[log[i].0].Some? && log[i].1 in s.nodes[log[i].0].value.known
  }

  lemma KnownStays(cfg: Config, s: Net, step: Step, log: seq<(nat, nat)>)
    requires Enabled(cfg, s, step) && AllKnown(s, log)
    ensures AllKnown(Next(cfg, s, step), log)
  {
    hide Filter, Spray, Succeeded;
  }

  lemma AppendDistinct<T>(a: seq<T>, b: seq<T>)
    requires Distinct(a) && Distinct(b) && forall x :: x in b ==> x !in a
    ensures Distinct(a + b)
  {
    forall i, j | 0 <= i < j < |a + b| ensures (a + b)[i] != (a + b)[j] {
      if i < |a| <= j { assert b[j - |a|] in b; }
    }
  }

  /** The peers of a selection that acknowledge it are different, and none was known before. */
  lemma AckedAreNew(cfg: Config, node: Node, peers: seq<nat>, pick: nat, acked: seq<bool>)
    requires Distinct(peers) && |acked| == |Choice(cfg, node, peers, pick).peers|
    ensures var got := Succeeded(Choice(cfg, node, peers, pick).peers, acked);
            Distinct(got) && forall p :: p in got ==> p !in node.known
  {
    hide Spray, Succeeded, Filter, Distinct;
    FilterDistinct(peers, node.known);
    SprayConserves(cfg.binary, cfg.copies, node.copies, Filter(peers, node.known), pick);
    SprayDistinct(cfg.binary, cfg.copies, node.copies, Filter(peers, node.known), pick);
    SucceededDistinct(Choice(cfg, node, peers, pick).peers, acked);
  }

  lemma PairsAreNew(s: Net, n: nat, got: seq<nat>, log: seq<(nat, nat)>)
    requires n < |s.nodes| && s.nodes[n].Some? && AllKnown(s, log) && Distinct(log)
    requires Distinct(got) && forall p :: p in got ==> p !in s.nodes[n].value.known
    ensures Distinct(log + AckedPairs(n, got))
  {
    PairsDistinct(n, got);
    var more := AckedPairs(n, got);
    forall x | x in more ensures x !in log {
      var i :| 0 <= i < |more| && more[i] == x;
      assert got[i] in got;
    }
    hide Distinct;
    AppendDistinct(log, more);
  }

  lemma SelectionIsNew(cfg: Config, s: Net, step: Step, log: seq<(nat, nat)>)
    requires step.Select? && Enabled(cfg, s, step) && Distinct(step.peers) && AllKnown(s, log) && Distinct(log)
    ensures var more := AckedPairs(step.n, Succeeded(Choice(cfg, s.nodes[step.n].value, step.peers, step.pick).peers, step.acked));
            Distinct(log + more) && AllKnown(Next(cfg, s, step), log + more)
  {
    hide Choice, Succeeded, Distinct;
    var got := Succeeded(Choice(cfg, s.nodes[step.n].value, step.peers, step.pick).peers, step.acked);
    AckedAreNew(cfg, s.nodes[step.n].value, step.peers, step.pick, step.acked);
    PairsAreNew(s, step.n, got, log);
    KnownStays(cfg, s, step, log);
    var more := AckedPairs(step.n, got);
    forall i | 0 <= i < |more| ensures more[i].1 in Next(cfg, s, step).nodes[step.n].value.known {
      assert got[i] in got;
    }
  }

  lemma PairsDistinct(n: nat, acked: seq<nat>)
    requires Distinct(acked)
    ensures Distinct(AckedPairs(n, acked))
  {
  }

  /** The step lets node `n` know that `p` has the bundle: `p` acknowledged it, or `n` got it from `p`. */
  predicate Tells(cfg: Config, s: Net, step: Step, n: nat, p: nat) {
    && Enabled(cfg, s, step)
    && match step
       case Select(m, peers, pick, _, acked) =>
         var chosen := Choice(cfg, s.nodes[m].value, peers, pick).peers;
         m == n && exists i :: 0 <= i < |chosen| && acked[i] && chosen[i] == p
       case Insert(i) => s.flight[i].to == n && s.flight[i].from == p
       case _ => false
  }

  lemma KnownAfterStep(cfg: Config, s: Net, step: Step, n: nat, p: nat)
    requires Enabled(cfg, s, step) && n < |s.nodes|
    ensures var t := Next(cfg, s, step);
            && (s.nodes[n].Some? || Tells(cfg, s, step, n, p) ==> t.nodes[n].Some?)
            && (t.nodes[n].Some? ==>
                  (p in t.nodes[n].value.known <==>
                     (if s.nodes[n].Some? then p in s.nodes[n].value.known else p == n) || Tells(cfg, s, step, n, p)))
  {
    hide Choice, Succeeded;
    if step.Select? {
      SucceededMembers(Choice(cfg, s.nodes[step.n].value, step.peers, step.pick).peers, step.acked, p);
    }
  }

  /** Over every run a node lists as holders exactly itself and those that earlier steps told it about. */
  lemma {:induction false} KnownIffTold(cfg: Config, states: seq<Net>, steps: seq<Step>, k: nat, n: nat, p: nat)
    requires IsRun(cfg, states, steps) && k < |states| && n < cfg.size
    ensures |states[k].nodes| == cfg.size
    ensures (exists i :: 0 <= i < k && Tells(cfg, states[i], steps[i], n, p)) ==> states[k].nodes[n].Some?
    ensures states[k].nodes[n].Some? ==>
              (p in states[k].nodes[n].value.known <==> p == n || exists i :: 0 <= i < k && Tells(cfg, states[i], steps[i], n, p))
  {
    hide Enabled, Next, Tells;
    if k > 0 {
      KnownIffTold(cfg, states, steps, k - 1, n, p);
      assert StepAt(cfg, states, steps, k - 1);
      KnownAfterStep(cfg, states[k - 1], steps[k - 1], n, p);
      assert (exists i :: 0 <= i < k && Tells(cfg, states[i], steps[i], n, p)) <==>
             (exists i :: 0 <= i < k - 1 && Tells(cfg, states[i], steps[i], n, p)) || Tells(cfg, states[k - 1], steps[k - 1], n, p);
    }
  }

  /** Every selection is among peers with different identifiers. */
  predicate DistinctPeers(steps: seq<Step>) {
    forall i :: 0 <= i < |steps| && steps[i].Select? ==> Distinct(steps[i].peers)
  }

  /** Over every run, in both modes, no node has a peer acknowledge the bundle twice. */
  lemma {:induction false} NoPeerTwice(cfg: Config, states: seq<Net>, steps: seq<Step>, k: nat)
    requires IsRun(cfg, states, steps) && k < |states| && DistinctPeers(steps)
    ensures forall i :: 0 <= i < |steps| ==> Enabled(cfg, states[i], steps[i])
    ensures Distinct(AckedLog(cfg, states, steps, k)) && AllKnown(states[k], AckedLog(cfg, states, steps, k))
  {
    hide Enabled, Next, AllKnown, Choice, Distinct, AckedPairs;
    forall i | 0 <= i < |steps| ensures Enabled(cfg, states[i], steps[i]) {
      assert StepAt(cfg, states, steps, i);
    }
    if k == 0 {
      NothingKnown(states[0]);
    } else {
      NoPeerTwice(cfg, states, steps, k - 1);
      assert StepAt(cfg, states, steps, k - 1);
      var log := AckedLog(cfg, states, steps, k - 1);
      if steps[k - 1].Select? {
        SelectionIsNew(cfg, states[k - 1], steps[k - 1], log);
      } else {
        assert log + [] == log;
        KnownStays(cfg, states[k - 1], steps[k - 1], log);
      }
    }
  }

  lemma NothingKnown(s: Net)
    ensures AllKnown(s, []) && Distinct<(nat, nat)>([])
  {
  }

  /** Every transmission that is sent is acknowledged. */
  predicate AllAcked(steps: seq<Step>) {
    forall i, j :: 0 <= i < |steps| && steps[i].Select? && 0 <= j < |steps[i].acked| ==> steps[i].acked[j]
  }

  lemma SelectedAreLogged(cfg: Config, s: Net, step: Step)
    requires step.Select? && Enabled(cfg, s, step) && forall j :: 0 <= j < |step.acked| ==> step.acked[j]
    ensures Next(cfg, s, step).log
            == s.log + AckedPairs(step.n, Succeeded(Choice(cfg, s.nodes[step.n].value, step.peers, step.pick).peers, step.acked))
  {
    var r := Choice(cfg, s.nodes[step.n].value, step.peers, step.pick);
    AllSucceed(r.peers, step.acked);
    hide Spray, Filter, Succeeded;
    assert seq(|r.peers|, i requires 0 <= i < |r.peers| => (step.n, r.peers[i])) == AckedPairs(step.n, r.peers);
  }

  lemma {:induction false} LogIsAcked(cfg: Config, states: seq<Net>, steps: seq<Step>, k: nat)
    requires IsRun(cfg, states, steps) && k < |states| && AllAcked(steps)
    requires forall i :: 0 <= i < |steps| ==> Enabled(cfg, states[i], steps[i])
    ensures states[k].log == AckedLog(cfg, states, steps, k)
  {
    hide Enabled, Choice, AckedPairs;
    if k > 0 {
      LogIsAcked(cfg, states, steps, k - 1);
      assert StepAt(cfg, states, steps, k - 1);
      if steps[k - 1].Select? {
        SelectedAreLogged(cfg, states[k - 1], steps[k - 1]);
      } else {
        BasicTransportTotal(cfg, states[k - 1], steps[k - 1]);
        assert states[k - 1].log + [] == states[k - 1].log;
      }
    }
  }

  /** If all transmissions are acknowledged, no node ever selects the same peer again. */
  lemma SelectedOnce(cfg: Config, states: seq<Net>, steps: seq<Step>, k: nat)
    requires IsRun(cfg, states, steps) && k < |states| && DistinctPeers(steps) && AllAcked(steps)
    ensures Distinct(states[k].log)
  {
    hide IsRun, AckedLog, AllKnown, Distinct, Enabled, DistinctPeers, AllAcked;
    NoPeerTwice(cfg, states, steps, k);
    LogIsAcked(cfg, states, steps, k);
  }

  // Basic mode

  lemma NothingCarried(n: nat, peers: seq<nat>)
    ensures Sum(Carried(Messages(n, peers, None))) == 0
  {
    AllZero(Carried(Messages(n, peers, None)));
  }

  lemma BasicSelectTotal(cfg: Config, s: Net, step: Step)
    requires !cfg.binary && step.Select? && Enabled(cfg, s, step)
    ensures var t := Next(cfg, s, step);
            Total(t) + |t.log| == Total(s) + |s.log| + if Orderly(s, step) then 0 else cfg.copies
  {
    hide Total, Sum, Spray, Filter, Succeeded;
    var node := s.nodes[step.n].value;
    var r := Choice(cfg, node, step.peers, step.pick);
    SprayConserves(false, cfg.copies, node.copies, Filter(step.peers, node.known), step.pick);
    SelectTotal(cfg, s, step);
    NothingCarried(step.n, Succeeded(r.peers, step.through));
  }

  lemma BasicTransportTotal(cfg: Config, s: Net, step: Step)
    requires !step.Select? && Enabled(cfg, s, step)
    ensures Total(Next(cfg, s, step)) <= Total(s) && Next(cfg, s, step).log == s.log
  {
    hide Total;
    match step
    case Drop(i) => DropTotal(cfg, s, i);
    case Insert(i) => InsertConserves(cfg, s, i);
    case Notify(i) => NotifyTotal(cfg, s, i);
  }

  lemma {:induction false} BasicRun(cfg: Config, states: seq<Net>, steps: seq<Step>, k: nat)
    requires !cfg.binary && IsRun(cfg, states, steps) && k < |states|
    ensures Total(states[k]) + |states[k].log| <= Budget(cfg, states, steps, k)
  {
    hide Total, Next, Enabled, Orderly;
    if k == 0 {
      InitTotal(cfg);
    } else {
      BasicRun(cfg, states, steps, k - 1);
      assert StepAt(cfg, states, steps, k - 1);
      BudgetStep(cfg, states, steps, k);
      if steps[k - 1].Select? {
        BasicSelectTotal(cfg, states[k - 1], steps[k - 1]);
      } else {
        TransportIsOrderly(states[k - 1], steps[k - 1]);
        BasicTransportTotal(cfg, states[k - 1], steps[k - 1]);
      }
    }
  }

  /**
    * Basic mode: over every run the counters left and all the selections, by whomever, never exceed
    * the configured number of copies, and as many again for each early selection.
    */
  lemma BasicSprayBound(cfg: Config, states: seq<Net>, steps: seq<Step>, k: nat)
    requires !cfg.binary && IsRun(cfg, states, steps) && k < |states|
    ensures Sum(Held(states[k].nodes)) + |states[k].log| <= cfg.copies * (1 + Early(states, steps, k))
    ensures Early(states, steps, k) <= cfg.size
  {
    hide IsRun, StepAt, Early, Sum, Holders;
    BasicRun(cfg, states, steps, k);
    EarlyBound(cfg, states, steps, k);
    CarriedNatural(states[k].arriving);
    CarriedNatural(states[k].flight);
  }

  lemma CarriedNatural(ms: seq<Msg>)
    ensures Sum(Carried(ms)) >= 0
  {
  }

  predicate FromSource(cfg: Config, m: Msg) {
    m.from == cfg.source && m.to != cfg.source && m.block == None
  }

  /** The source's counter, or the number it is about to be told. */
  predicate SourceCounts(cfg: Config, s: Net)
    requires cfg.source < |s.nodes|
  {
    && s.nodes[cfg.source].Some? && cfg.source in s.nodes[cfg.source].value.known
    && match s.nodes[cfg.source].value.copies
       case None => s.log == []
       case Some(c) => c + |s.log| == cfg.copies
  }

  predicate Arrivals(cfg: Config, ms: seq<Msg>, told: bool) {
    && (forall i :: 0 <= i < |ms| ==> FromSource(cfg, ms[i]) || (!told && ms[i] == Created(cfg)))
    && (forall i, j :: 0 <= i < j < |ms| && ms[i] == Created(cfg) ==> ms[j] != Created(cfg))
  }

  predicate BasicInv(cfg: Config, s: Net) {
    && |s.nodes| == cfg.size && cfg.source < cfg.size && SourceCounts(cfg, s)
    && (forall i :: 0 <= i < |s.flight| ==> FromSource(cfg, s.flight[i]))
    && Arrivals(cfg, s.arriving, s.nodes[cfg.source].value.copies.Some?)
    && (forall i :: 0 <= i < |s.log| ==> s.log[i].0 == cfg.source)
    && (forall i :: 0 <= i < |s.nodes| && i != cfg.source && s.nodes[i].Some? && s.nodes[i].value.copies.Some? ==>
          s.nodes[i].value.copies.value == 0)
  }

  /**
    * While all has been orderly, a relay that has a peer to select selects one exactly if the step is
    * not orderly.
    */
  lemma RelaySelectsIffEarly(cfg: Config, s: Net, step: Step)
    requires !cfg.binary && cfg.copies >= 1 && BasicInv(cfg, s) && step.Select? && Enabled(cfg, s, step)
    requires step.n != cfg.source && Filter(step.peers, s.nodes[step.n].value.known) != []
    ensures Choice(cfg, s.nodes[step.n].value, step.peers, step.pick).peers != [] <==> !Orderly(s, step)
  {
  }

  lemma BasicSelect(cfg: Config, s: Net, step: Step)
    requires !cfg.binary && BasicInv(cfg, s) && step.Select? && Enabled(cfg, s, step) && Orderly(s, step)
    ensures BasicInv(cfg, Next(cfg, s, step))
  {
    hide Spray, Filter, Succeeded;
    var node := s.nodes[step.n].value;
    var r := Choice(cfg, node, step.peers, step.pick);
    SprayConserves(false, cfg.copies, node.copies, Filter(step.peers, node.known), step.pick);
    var got := Succeeded(r.peers, step.through);
    var sent := Messages(step.n, got, r.block);
    if step.n == cfg.source {
      forall i | 0 <= i < |sent| ensures FromSource(cfg, sent[i]) {
        assert sent[i].to == got[i] && got[i] in got;
        assert got[i] in r.peers;
      }
    } else {
      assert r.peers == [];
      NoneSucceeded(r.peers, step.through);
      assert sent == [];
    }
  }

  lemma ArrivalsWithout(cfg: Config, ms: seq<Msg>, i: nat, told: bool)
    requires Arrivals(cfg, ms, told) && i < |ms|
    ensures Arrivals(cfg, Without(ms, i), told)
    ensures ms[i] == Created(cfg) ==> Arrivals(cfg, Without(ms, i), true)
  {
    var r := Without(ms, i);
    forall k | 0 <= k < |r| ensures r[k] == ms[if k < i then k else k + 1] {
    }
  }

  lemma BasicTransport(cfg: Config, s: Net, step: Step)
    requires !cfg.binary && BasicInv(cfg, s) && !step.Select? && Enabled(cfg, s, step)
    ensures BasicInv(cfg, Next(cfg, s, step))
  {
    match step
    case Drop(_) =>
    case Insert(_) =>
    case Notify(i) => ArrivalsWithout(cfg, s.arriving, i, s.nodes[cfg.source].value.copies.Some?);
  }

  lemma {:induction false} OrderlyBasicRun(cfg: Config, states: seq<Net>, steps: seq<Step>, k: nat)
    requires !cfg.binary && IsRun(cfg, states, steps) && k < |states| && Early(states, steps, k) == 0
    ensures BasicInv(cfg, states[k])
  {
    hide Next, Enabled, Orderly;
    if k == 0 {
      hide *;
      BasicStart(cfg);
    } else {
      OrderlyBasicRun(cfg, states, steps, k - 1);
      assert StepAt(cfg, states, steps, k - 1);
      if steps[k - 1].Select? {
        BasicSelect(cfg, states[k - 1], steps[k - 1]);
      } else {
        BasicTransport(cfg, states[k - 1], steps[k - 1]);
      }
    }
  }

  lemma BasicStart(cfg: Config)
    requires cfg.source < cfg.size
    ensures BasicInv(cfg, Init(cfg))
  {
  }

  /**
    * Without early selections only the source ever selects, and its counter, once stored, and all
    * the selections so far add up to the configured number of copies.
    */
  lemma OnlySourceSelects(cfg: Config, states: seq<Net>, steps: seq<Step>, k: nat)
    requires !cfg.binary && IsRun(cfg, states, steps) && k < |states| && Early(states, steps, k) == 0
    ensures forall i :: 0 <= i < |states[k].log| ==> states[k].log[i].0 == cfg.source
    ensures cfg.source < |states[k].nodes| && states[k].nodes[cfg.source].Some?
    ensures match states[k].nodes[cfg.source].value.copies
            case None => states[k].log == []
            case Some(c) => c + |states[k].log| == cfg.copies
  {
    hide IsRun, Early;
    OrderlyBasicRun(cfg, states, steps, k);
  }
}
