/** Association of nodes with brokers by announcement, request and acknowledgement. */
module Association {
  import opened Bytes

  datatype NodeType = NoType | BrokerType | ExecutorType | DatastoreType | ClientType

  type Id = string

  datatype Message =
    | Announce(source: Id)
    | Request(source: Id, broker: Id, nodeType: NodeType)
    | Ack(source: Id, node: Id)

  /** A node's association state. */
  datatype Assoc = Assoc(pending: Option<Id>, broker: Option<Id>)

  /** How a node handles a discovery message: the new state, and the replies. */
  function NodeHandles(self: Id, nodeType: NodeType, a: Assoc, m: Message): (Assoc, set<Message>) {
    match m
    case Announce(b) =>
      if a.pending == None && a.broker == None then (a.(pending := Some(b)), {Request(self, b, nodeType)}) else (a, {})
    case Ack(b, _) =>
      if a.pending == Some(b) then (Assoc(None, Some(b)), {}) else (a, {})
    case Request(_, _, _) => (a, {})
  }

  /** The nodes a broker has discovered, by type. */
  type Listing = set<(NodeType, Id)>

  /** How a broker handles a discovery message: the new listing, and the replies. */
  function BrokerHandles(self: Id, l: Listing, m: Message): (Listing, set<Message>) {
    match m
    case Announce(b) => (if b != self then l + {(BrokerType, b)} else l, {})
    case Request(n, _, t) => if t == NoType then (l, {}) else (l + {(t, n)}, {Ack(self, n)})
    case Ack(_, _) => (l, {})
  }

  class Node {
    const id: Id
    const nodeType: NodeType
    var pending: Option<Id>
    var broker: Option<Id>

    constructor (id: Id, nodeType: NodeType)
      ensures this.id == id && this.nodeType == nodeType && pending == None && broker == None
    {
      this.id, this.nodeType, pending, broker := id, nodeType, None, None;
    }

    method HandleDiscovery(m: Message) returns (replies: set<Message>)
      modifies this`pending, this`broker
      ensures (Assoc(pending, broker), replies) == NodeHandles(id, nodeType, old(Assoc(pending, broker)), m)
    {
      replies := {};
      if m.Announce? {
        if pending == None && broker == None {
          pending := Some(m.source);
          replies := {Request(id, m.source, nodeType)};
        }
      } else if m.Ack? {
        if pending == Some(m.source) {
          broker := Some(m.source);
          pending := None;
        }
      }
    }
  }

  class Broker {
    const id: Id
    var discovered: Listing

    constructor (id: Id)
      ensures this.id == id && discovered == {}
    {
      this.id, discovered := id, {};
    }

    method HandleDiscovery(m: Message) returns (replies: set<Message>)
      modifies this`discovered
      ensures (discovered, replies) == BrokerHandles(id, old(discovered), m)
    {
      replies := {};
      match m {
        case Announce(b) =>
          if b != id {
            discovered := discovered + {(BrokerType, b)};
          }
        case Request(n, _, t) =>
          if t != NoType {
            discovered := discovered + {(t, n)};
            replies := {Ack(id, n)};
          }
        case Ack(_, _) =>
      }
    }
  }

  // Runs

  /** Who takes part: the type of every non-broker node, and the brokers. */
  datatype Config = Config(types: map<Id, NodeType>, brokers: set<Id>)

  predicate WellTyped(cfg: Config) {
    forall n :: n in cfg.types ==> cfg.types[n] != NoType
  }

  /** Nodes, brokers, and every message ever sent: any of them may arrive any number of times, or never. */
  datatype Net = Net(nodes: map<Id, Assoc>, listings: map<Id, Listing>, sent: set<Message>)

  datatype Step =
    | BrokerAnnounces(b: Id)
    | NodeReceives(n: Id, m: Message)
    | BrokerReceives(b: Id, m: Message)
    | Heartbeat(n: Id)

  predicate Enabled(cfg: Config, s: Net, step: Step) {
    match step
    case BrokerAnnounces(b) => b in s.listings
    case NodeReceives(n, m) => n in s.nodes && n in cfg.types && m in s.sent && (m.Ack? ==> m.node == n) && !m.Request?
    case BrokerReceives(b, m) => b in s.listings && m in s.sent && (m.Request? ==> m.broker == b) && !m.Ack?
    case Heartbeat(n) => n in s.nodes && n in cfg.types && s.nodes[n].broker.Some?
  }

  function Init(cfg: Config): Net {
    Net(map n | n in cfg.types :: Assoc(None, None), map b | b in cfg.brokers :: {}, {})
  }

  function Next(cfg: Config, s: Net, step: Step): (t: Net)
    requires Enabled(cfg, s, step)
  {
    match step
    case BrokerAnnounces(b) => s.(sent := s.sent + {Announce(b)})
    case NodeReceives(n, m) =>
      var (a, replies) := NodeHandles(n, cfg.types[n], s.nodes[n], m);
      s.(nodes := s.nodes[n := a], sent := s.sent + replies)
    case BrokerReceives(b, m) =>
      var (l, replies) := BrokerHandles(b, s.listings[b], m);
      s.(listings := s.listings[b := l], sent := s.sent + replies)
    case Heartbeat(n) => s.(sent := s.sent + {Request(n, s.nodes[n].broker.value, cfg.types[n])})
  }

  ghost predicate StepAt(cfg: Config, states: seq<Net>, steps: seq<Step>, i: nat)
    requires i < |steps| && |states| == |steps| + 1
  {
    Enabled(cfg, states[i], steps[i]) && states[i + 1] == Next(cfg, states[i], steps[i])
  }

  ghost predicate IsRun(cfg: Config, states: seq<Net>, steps: seq<Step>) {
    && WellTyped(cfg)
    && |states| == |steps| + 1 && states[0] == Init(cfg)
    && forall i :: 0 <= i < |steps| ==> StepAt(cfg, states, steps, i)
  }

  predicate Lists(cfg: Config, s: Net, b: Id, n: Id) {
    b in s.listings && n in cfg.types && (cfg.types[n], n) in s.listings[b]
  }

  ghost predicate Inv(cfg: Config, s: Net) {
    && s.nodes.Keys == cfg.types.Keys && s.listings.Keys == cfg.brokers
    && (forall m :: m in s.sent && m.Request? ==> m.source in cfg.types && m.nodeType == cfg.types[m.source])
    && (forall m :: m in s.sent && m.Ack? ==> Lists(cfg, s, m.source, m.node))
    && (forall n :: n in s.nodes ==> s.nodes[n].pending == None || s.nodes[n].broker == None)
    && (forall n :: n in s.nodes && s.nodes[n].broker.Some? ==> Lists(cfg, s, s.nodes[n].broker.value, n))
    && (forall m :: m in s.sent && m.Announce? ==> m.source in cfg.brokers)
    && (forall n :: n in s.nodes && s.nodes[n].pending.Some? ==>
          s.nodes[n].pending.value in cfg.brokers && Request(n, s.nodes[n].pending.value, cfg.types[n]) in s.sent)
  }

  lemma NodeKeeps(cfg: Config, s: Net, n: Id, m: Message)
    requires Inv(cfg, s) && Enabled(cfg, s, NodeReceives(n, m))
    ensures Inv(cfg, Next(cfg, s, NodeReceives(n, m)))
  {
    hide Lists;
    var t := Next(cfg, s, NodeReceives(n, m));
    ListsStay(cfg, s, t);
    forall x | x in t.nodes && t.nodes[x].pending.Some?
      ensures t.nodes[x].pending.value in cfg.brokers && Request(x, t.nodes[x].pending.value, cfg.types[x]) in t.sent
    {
      if x != n { assert t.nodes[x] == s.nodes[x]; }
    }
  }

  lemma ListsStay(cfg: Config, s: Net, t: Net)
    requires s.listings.Keys <= t.listings.Keys && forall b :: b in s.listings ==> s.listings[b] <= t.listings[b]
    ensures forall b, n :: Lists(cfg, s, b, n) ==> Lists(cfg, t, b, n)
  {
  }

  lemma BrokerKeeps(cfg: Config, s: Net, b: Id, m: Message)
    requires WellTyped(cfg) && Inv(cfg, s) && Enabled(cfg, s, BrokerReceives(b, m))
    ensures Inv(cfg, Next(cfg, s, BrokerReceives(b, m)))
  {
    var t := Next(cfg, s, BrokerReceives(b, m));
    ListsStay(cfg, s, t);
    assert t.nodes == s.nodes;
    if m.Request? {
      assert Lists(cfg, t, b, m.source);
    }
    hide Lists, WellTyped;
  }

  lemma SendKeeps(cfg: Config, s: Net, step: Step)
    requires Inv(cfg, s) && Enabled(cfg, s, step) && (step.BrokerAnnounces? || step.Heartbeat?)
    ensures Inv(cfg, Next(cfg, s, step))
  {
    var t := Next(cfg, s, step);
    ListsStay(cfg, s, t);
    hide Lists;
  }

  lemma BrokerStays(cfg: Config, s: Net, step: Step, n: Id)
    requires Inv(cfg, s) && Enabled(cfg, s, step) && n in s.nodes && s.nodes[n].broker.Some?
    ensures n in Next(cfg, s, step).nodes && Next(cfg, s, step).nodes[n] == s.nodes[n]
  {
    hide Lists;
  }

  lemma StepKeeps(cfg: Config, s: Net, step: Step)
    requires WellTyped(cfg) && Inv(cfg, s) && Enabled(cfg, s, step)
    ensures Inv(cfg, Next(cfg, s, step))
  {
    hide Inv, Next, WellTyped;
    match step
    case NodeReceives(n, m) => NodeKeeps(cfg, s, n, m);
    case BrokerReceives(b, m) => BrokerKeeps(cfg, s, b, m);
    case _ => SendKeeps(cfg, s, step);
  }

  lemma {:induction false} RunKeeps(cfg: Config, states: seq<Net>, steps: seq<Step>, k: nat)
    requires IsRun(cfg, states, steps) && k < |states|
    ensures Inv(cfg, states[k])
  {
    if k > 0 {
      RunKeeps(cfg, states, steps, k - 1);
      assert StepAt(cfg, states, steps, k - 1);
      StepKeeps(cfg, states[k - 1], steps[k - 1]);
    }
  }

  /**
    * Over every run with lost, duplicated and reordered messages: a node never has both a pending
    * and an associated broker, and it is associated only with a broker that lists it under its type.
    */
  lemma AssociatedOnlyIfListed(cfg: Config, states: seq<Net>, steps: seq<Step>, k: nat, n: Id)
    requires IsRun(cfg, states, steps) && k < |states| && n in cfg.types
    ensures n in states[k].nodes
    ensures var a := states[k].nodes[n];
            && (a.pending == None || a.broker == None)
            && (a.broker.Some? ==> Lists(cfg, states[k], a.broker.value, n))
  {
    RunKeeps(cfg, states, steps, k);
  }

  /** Once associated, a node keeps its broker for the rest of the run. */
  lemma {:induction false} BrokerNeverChanges(cfg: Config, states: seq<Net>, steps: seq<Step>, j: nat, k: nat, n: Id)
    requires IsRun(cfg, states, steps) && j <= k < |states|
    requires n in states[j].nodes && states[j].nodes[n].broker.Some?
    ensures n in states[k].nodes && states[k].nodes[n] == states[j].nodes[n]
    decreases k - j
  {
    if j < k {
      BrokerNeverChanges(cfg, states, steps, j, k - 1, n);
      RunKeeps(cfg, states, steps, k - 1);
      assert StepAt(cfg, states, steps, k - 1);
      BrokerStays(cfg, states[k - 1], steps[k - 1], n);
    }
  }

  /** The message makes its receiving broker list the node under the type. */
  predicate Introduces(m: Message, b: Id, t: NodeType, n: Id) {
    match m
    case Announce(source) => source != b && t == BrokerType && n == source
    case Request(source, _, nodeType) => nodeType != NoType && t == nodeType && n == source
    case Ack(_, _) => false
  }

  predicate Heard(steps: seq<Step>, i: nat, b: Id, t: NodeType, n: Id)
    requires i < |steps|
  {
    steps[i].BrokerReceives? && steps[i].b == b && Introduces(steps[i].m, b, t, n)
  }

  /** Over every run a broker lists exactly the nodes and brokers it has heard from. */
  lemma {:induction false} ListedIffHeard(cfg: Config, states: seq<Net>, steps: seq<Step>, k: nat, b: Id, t: NodeType, n: Id)
    requires IsRun(cfg, states, steps) && k < |states| && b in cfg.brokers
    ensures b in states[k].listings
    ensures (t, n) in states[k].listings[b] <==> exists i :: 0 <= i < k && Heard(steps, i, b, t, n)
  {
    if k > 0 {
      ListedIffHeard(cfg, states, steps, k - 1, b, t, n);
      assert StepAt(cfg, states, steps, k - 1);
      var s, u := states[k - 1], states[k];
      assert (t, n) in u.listings[b] <==> (t, n) in s.listings[b] || Heard(steps, k - 1, b, t, n);
      hide IsRun, StepAt, Heard;
      if exists i :: 0 <= i < k && Heard(steps, i, b, t, n) {
        var i :| 0 <= i < k && Heard(steps, i, b, t, n);
      }
    }
  }

  // Progress

  /** A node with a pending broker keeps it until that broker's acknowledgement associates the two. */
  lemma PendingUntilAcked(cfg: Config, s: Net, step: Step, n: Id)
    requires Enabled(cfg, s, step) && n in s.nodes && s.nodes[n].pending.Some?
    ensures var a, after := s.nodes[n], Next(cfg, s, step).nodes[n];
            if step.NodeReceives? && step.n == n && step.m.Ack? && step.m.source == a.pending.value
            then after == Assoc(None, a.pending) else after == a
  {
  }

  lemma RequestIsAcked(cfg: Config, s: Net, n: Id, b: Id)
    requires WellTyped(cfg) && Inv(cfg, s) && n in cfg.types && s.nodes[n].pending == Some(b)
    ensures Enabled(cfg, s, BrokerReceives(b, Request(n, b, cfg.types[n])))
    ensures var t := Next(cfg, s, BrokerReceives(b, Request(n, b, cfg.types[n])));
            Lists(cfg, t, b, n) && Ack(b, n) in t.sent && t.nodes == s.nodes
  {
  }

  /** A request that arrives and an acknowledgement that arrives associate the node with its pending broker. */
  lemma PendingCanAssociate(cfg: Config, s: Net, n: Id, b: Id)
    requires WellTyped(cfg) && Inv(cfg, s) && n in cfg.types && s.nodes[n].pending == Some(b)
    ensures Enabled(cfg, s, BrokerReceives(b, Request(n, b, cfg.types[n])))
    ensures var t := Next(cfg, s, BrokerReceives(b, Request(n, b, cfg.types[n])));
            && Enabled(cfg, t, NodeReceives(n, Ack(b, n)))
            && var u := Next(cfg, t, NodeReceives(n, Ack(b, n)));
            u.nodes[n] == Assoc(None, Some(b)) && Lists(cfg, u, b, n)
  {
    RequestIsAcked(cfg, s, n, b);
  }

  /** An announcement that arrives makes its broker pending at a node without one, which sends its request. */
  lemma AnnouncementIsTaken(cfg: Config, s: Net, n: Id, b: Id)
    requires Inv(cfg, s) && n in cfg.types && b in cfg.brokers && s.nodes[n] == Assoc(None, None)
    ensures Enabled(cfg, s, BrokerAnnounces(b))
    ensures var t := Next(cfg, s, BrokerAnnounces(b));
            && Enabled(cfg, t, NodeReceives(n, Announce(b)))
            && var u := Next(cfg, t, NodeReceives(n, Announce(b)));
            u.nodes[n] == Assoc(Some(b), None) && Request(n, b, cfg.types[n]) in u.sent
  {
  }

  /** The steps by which node `n`, as it stands, comes to be associated with broker `b`. */
  function Handshake(cfg: Config, s: Net, n: Id, b: Id): seq<Step>
    requires n in s.nodes && n in cfg.types
  {
    (if s.nodes[n].pending == None then [BrokerAnnounces(b), NodeReceives(n, Announce(b))] else [])
    + [BrokerReceives(b, Request(n, b, cfg.types[n])), NodeReceives(n, Ack(b, n))]
  }

  function Play(cfg: Config, s: Net, steps: seq<Step>): (t: Option<Net>)
    decreases |steps|
  {
    if steps == [] then Some(s)
    else if Enabled(cfg, s, steps[0]) then Play(cfg, Next(cfg, s, steps[0]), steps[1..])
    else None
  }

  lemma PlayTwo(cfg: Config, s: Net, x: Step, y: Step, rest: seq<Step>)
    requires Enabled(cfg, s, x) && Enabled(cfg, Next(cfg, s, x), y)
    ensures Play(cfg, s, [x, y] + rest) == Play(cfg, Next(cfg, Next(cfg, s, x), y), rest)
  {
    hide Enabled, Next;
    var steps := [x, y] + rest;
    assert steps[1..] == [y] + rest && steps[1..][1..] == rest;
  }

  /**
    * From every state of every run, a node that is not associated yet can be: with its pending
    * broker, or, if it has none, with any broker.
    */
  lemma CanAssociate(cfg: Config, states: seq<Net>, steps: seq<Step>, k: nat, n: Id, b: Id)
    requires IsRun(cfg, states, steps) && k < |states| && n in cfg.types && n in states[k].nodes
    requires states[k].nodes[n] == Assoc(Some(b), None) || (states[k].nodes[n] == Assoc(None, None) && b in cfg.brokers)
    ensures var t := Play(cfg, states[k], Handshake(cfg, states[k], n, b));
            t.Some? && n in t.value.nodes && t.value.nodes[n] == Assoc(None, Some(b)) && Lists(cfg, t.value, b, n)
  {
    RunKeeps(cfg, states, steps, k);
    hide IsRun, Next, Enabled, Inv;
    var s := states[k];
    var request, ack := BrokerReceives(b, Request(n, b, cfg.types[n])), NodeReceives(n, Ack(b, n));
    var hear, take := BrokerAnnounces(b), NodeReceives(n, Announce(b));
    if s.nodes[n].pending == None {
      AnnouncementIsTaken(cfg, s, n, b);
      StepKeeps(cfg, s, hear);
      StepKeeps(cfg, Next(cfg, s, hear), take);
      var u := Next(cfg, Next(cfg, s, hear), take);
      PendingCanAssociate(cfg, u, n, b);
      PlayTwo(cfg, u, request, ack, []);
      PlayTwo(cfg, s, hear, take, [request, ack]);
      assert [request, ack] + [] == [request, ack];
    } else {
      PendingCanAssociate(cfg, s, n, b);
      PlayTwo(cfg, s, request, ack, []);
      assert [] + [request, ack] == [request, ack] && [request, ack] + [] == [request, ack];
    }
  }
}
