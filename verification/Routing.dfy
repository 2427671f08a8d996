/** Routing: the known-holder filter, epidemic routing, and spray-and-wait in its two modes. */
module Routing {
  import opened Bytes
  import opened Endpoint
  import opened Descriptor
  import opened Subsequences

  /** The peers that are not known to hold the bundle, in order. */
  function Filter<T(==,!new)>(peers: seq<T>, known: seq<T>): (r: seq<T>)
    ensures |r| <= |peers|
    ensures forall p :: p in r <==> p in peers && p !in known
  {
    if peers == [] then []
    else
      var n := |peers| - 1;
      assert peers == peers[..n] + [peers[n]];
      Filter(peers[..n], known) + if peers[n] in known then [] else [peers[n]]
  }

  function Unknown<T(==)>(peers: seq<T>, known: seq<T>): (keep: seq<bool>)
    ensures |keep| == |peers|
  {
    seq(|peers|, i requires 0 <= i < |peers| => peers[i] !in known)
  }

  lemma {:induction false} FilterKeeps<T(!new)>(peers: seq<T>, known: seq<T>)
    ensures Filter(peers, known) == Kept(peers, Unknown(peers, known))
  {
    if peers != [] {
      var n := |peers| - 1;
      FilterKeeps(peers[..n], known);
      assert Unknown(peers, known)[..n] == Unknown(peers[..n], known);
    }
  }

  /** The filter keeps exactly the unknown peers, each occurrence of them, in their order. */
  lemma FilterPicks<T(!new)>(peers: seq<T>, known: seq<T>) returns (idx: seq<nat>)
    ensures Picks(Filter(peers, known), peers, idx)
    ensures forall i :: 0 <= i < |peers| ==> (i in idx <==> peers[i] !in known)
  {
    hide Filter, Kept, Picks;
    FilterKeeps(peers, known);
    idx := KeptPicks(peers, Unknown(peers, known));
  }

  lemma FilterDistinct<T(!new)>(peers: seq<T>, known: seq<T>)
    requires Distinct(peers)
    ensures Distinct(Filter(peers, known))
  {
    hide Filter, Picks, Distinct;
    var idx := FilterPicks(peers, known);
    PicksDistinct(Filter(peers, known), peers, idx);
  }

  /** A deleted bundle has no known holders to ask for, and no peer is selected. */
  function Candidates(deleted: bool, peers: seq<Eid>, known: seq<Eid>): seq<Eid> {
    if deleted then [] else Filter(peers, known)
  }

  /** Of a live bundle the candidates are exactly the unknown peers, in order. */
  lemma CandidatesPicks(deleted: bool, peers: seq<Eid>, known: seq<Eid>) returns (idx: seq<nat>)
    ensures Picks(Candidates(deleted, peers, known), peers, idx)
    ensures forall i :: 0 <= i < |peers| ==> (i in idx <==> !deleted && peers[i] !in known)
  {
    idx := [];
    if !deleted {
      hide Filter, Picks;
      idx := FilterPicks(peers, known);
    }
  }

  lemma FilterAppend(peers: seq<Eid>, known: seq<Eid>, i: nat)
    requires i < |peers|
    ensures Filter(peers[..i + 1], known) == Filter(peers[..i], known) + if peers[i] in known then [] else [peers[i]]
  {
    assert peers[..i + 1][..i] == peers[..i];
  }

  method IsKnown(peer: Eid, known: seq<Eid>) returns (found: bool)
    ensures found == (peer in known)
  {
    for j := 0 to |known|
      invariant peer !in known[..j]
    {
      if peer == known[j] { return true; }
    }
    return false;
  }

  method FilterPeers(d: BundleDescriptor, peers: seq<Eid>) returns (filtered: seq<Eid>)
    ensures filtered == Candidates(d.deleted, peers, d.knownHolders)
  {
    if d.deleted { return []; }
    filtered := [];
    for i := 0 to |peers|
      invariant filtered == Filter(peers[..i], d.knownHolders)
    {
      FilterAppend(peers, d.knownHolders, i);
      var skip := IsKnown(peers[i], d.knownHolders);
      if !skip {
        filtered := filtered + [peers[i]];
      }
    }
    assert peers[..|peers|] == peers;
  }

  /** Peers chosen, the copies to announce to them (binary mode only), and the copies kept. */
  datatype Selection<T> = Selection(peers: seq<T>, block: Option<nat>, copies: nat)

  /** One selection of spray-and-wait. `saved` is the stored counter; without one the default is assumed. */
  function Spray<T(==,!new)>(binary: bool, default: nat, saved: Option<nat>, candidates: seq<T>, pick: nat): (r: Selection<T>) {
    var copies := if saved.Some? then saved.value else default;
    if copies == 0 || (binary && copies == 1) || candidates == [] then Selection([], None, copies)
    else if binary then Selection([candidates[pick % |candidates|]], Some(copies / 2), copies - copies / 2)
    else if |candidates| <= copies then Selection(candidates, None, copies - |candidates|)
    else Selection(candidates[..copies], None, 0)
  }

  /** Selecting never gives away more than there is, and in binary mode both sides keep at least one copy. */
  lemma SprayConserves<T(!new)>(binary: bool, default: nat, saved: Option<nat>, candidates: seq<T>, pick: nat)
    ensures var r := Spray(binary, default, saved, candidates, pick);
            var copies := if saved.Some? then saved.value else default;
            && (forall p :: p in r.peers ==> p in candidates)
            && (if binary then
                  && |r.peers| <= 1 && (r.peers == [] ==> r.copies == copies && r.block == None)
                  && (r.peers != [] ==> r.block.Some? && r.block.value + r.copies == copies
                                        && 1 <= r.block.value <= r.copies <= r.block.value + 1)
                else r.block == None && |r.peers| + r.copies == copies && r.peers <= candidates
                     && |r.peers| == if |candidates| <= copies then |candidates| else copies)
            && (copies > (if binary then 1 else 0) && candidates != [] ==> r.peers != [])
  {
    var copies := if saved.Some? then saved.value else default;
    if binary && copies > 1 && candidates != [] {
      var i := pick % |candidates|;
      assert candidates[i] in candidates;
    }
  }

  /** Different candidates give different peers. */
  lemma SprayDistinct<T(!new)>(binary: bool, default: nat, saved: Option<nat>, candidates: seq<T>, pick: nat)
    requires Distinct(candidates)
    ensures Distinct(Spray(binary, default, saved, candidates, pick).peers)
  {
    SprayConserves(binary, default, saved, candidates, pick);
    hide Spray;
  }

  /** In binary mode the random choice can fall on every candidate. */
  lemma EveryCandidateCanBeChosen<T(!new)>(default: nat, saved: Option<nat>, candidates: seq<T>, i: nat)
    requires i < |candidates| && (if saved.Some? then saved.value else default) > 1
    ensures Spray(true, default, saved, candidates, i).peers == [candidates[i]]
  {
    assert i % |candidates| == i;
  }

  function ToNat(o: Option<u64>): Option<nat> {
    if o.Some? then Some(o.value) else None
  }

  /** The counter after a bundle came from another node: what its spray block says, or none. */
  function ReceivedCopies(block: Option<nat>): nat {
    if block.Some? then block.value else 0
  }

  class SprayAndWait {
    const copies: u64
    const binary: bool

    constructor (copies: u64, binary: bool)
      ensures this.copies == copies && this.binary == binary
    {
      this.copies, this.binary := copies, binary;
    }

    method NotifyNewBundle(d: BundleDescriptor)
      modifies d`copies
      ensures d.copies == Some(copies)
    {
      d.copies := Some(copies);
    }

    method NotifyReceivedBundle(d: BundleDescriptor, block: Option<u64>)
      modifies d`copies
      ensures ToNat(d.copies) == Some(ReceivedCopies(ToNat(block)))
    {
      if block.None? {
        d.copies := Some(0);
      } else {
        d.copies := Some(block.value);
      }
    }

    /** Selects peers and stores the copies that are left. */
    method SelectPeersForForwarding(d: BundleDescriptor, peers: seq<Eid>, pick: nat) returns (chosen: seq<Eid>, block: Option<u64>)
      modifies d`copies
      ensures Selection(chosen, ToNat(block), ReceivedCopies(ToNat(d.copies)))
              == Spray(binary, copies, ToNat(old(d.copies)), Candidates(d.deleted, peers, d.knownHolders), pick)
      ensures d.copies.Some?
    {
      if d.copies.None? {
        d.copies := Some(copies);
      }
      var left := d.copies.value;
      if !binary && !(left > 0) { return [], None; }
      if binary && !(left > 1) { return [], None; }
      var candidates := FilterPeers(d, peers);
      if |candidates| == 0 { return [], None; }
      if binary {
        var send, keep := left / 2, left / 2;
        if left % 2 != 0 {
          keep := keep + 1;
        }
        chosen := [candidates[pick % |candidates|]];
        d.copies := Some(keep);
        return chosen, Some(send);
      }
      if |candidates| <= left {
        d.copies := Some(left - |candidates|);
        chosen := candidates;
      } else {
        d.copies := Some(0);
        chosen := candidates[..left];
      }
      block := None;
    }
  }

  /** The peers whose transmission succeeded. */
  function Succeeded<T(!new)>(peers: seq<T>, ok: seq<bool>): (r: seq<T>)
    requires |ok| == |peers|
    ensures forall p :: p in r ==> p in peers
  {
    if peers == [] then []
    else
      var n := |peers| - 1;
      assert peers == peers[..n] + [peers[n]];
      Succeeded(peers[..n], ok[..n]) + if ok[n] then [peers[n]] else []
  }

  lemma {:induction false} SucceededKeeps<T(!new)>(peers: seq<T>, ok: seq<bool>)
    requires |ok| == |peers|
    ensures Succeeded(peers, ok) == Kept(peers, ok)
  {
    if peers != [] {
      SucceededKeeps(peers[..|peers| - 1], ok[..|peers| - 1]);
    }
  }

  /** Exactly the successful transmissions count, in their order. */
  lemma SucceededPicks<T(!new)>(peers: seq<T>, ok: seq<bool>) returns (idx: seq<nat>)
    requires |ok| == |peers|
    ensures Picks(Succeeded(peers, ok), peers, idx)
    ensures forall i :: 0 <= i < |peers| ==> (i in idx <==> ok[i])
  {
    hide Succeeded, Kept, Picks;
    SucceededKeeps(peers, ok);
    idx := KeptPicks(peers, ok);
  }

  lemma SucceededMembers<T(!new)>(peers: seq<T>, ok: seq<bool>, p: T)
    requires |ok| == |peers|
    ensures p in Succeeded(peers, ok) <==> exists i :: 0 <= i < |peers| && ok[i] && peers[i] == p
  {
    hide Succeeded;
    var idx := SucceededPicks(peers, ok);
    var r := Succeeded(peers, ok);
    if p in r {
      var k :| 0 <= k < |r| && r[k] == p;
      assert idx[k] in idx;
    }
    if i :| 0 <= i < |peers| && ok[i] && peers[i] == p {
      assert i in idx;
    }
  }

  lemma SucceededDistinct<T(!new)>(peers: seq<T>, ok: seq<bool>)
    requires |ok| == |peers| && Distinct(peers)
    ensures Distinct(Succeeded(peers, ok))
  {
    hide Succeeded, Picks, Distinct;
    var idx := SucceededPicks(peers, ok);
    PicksDistinct(Succeeded(peers, ok), peers, idx);
  }

  lemma NoneSucceeded<T(!new)>(peers: seq<T>, ok: seq<bool>)
    requires peers == [] && |ok| == |peers|
    ensures Succeeded(peers, ok) == []
  {
  }

  /** Step 4.4 of forwarding: every chosen peer is sent to, and recorded as a holder if that succeeds. */
  method ForwardToPeers(d: BundleDescriptor, peers: seq<Eid>, ok: seq<bool>)
    requires |ok| == |peers|
    modifies d`knownHolders
    ensures d.knownHolders == old(d.knownHolders) + if d.deleted then [] else Succeeded(peers, ok)
  {
    for i := 0 to |peers|
      invariant d.knownHolders == old(d.knownHolders) + if d.deleted then [] else Succeeded(peers[..i], ok[..i])
    {
      assert peers[..i + 1][..i] == peers[..i] && ok[..i + 1][..i] == ok[..i];
      if ok[i] {
        var _ := d.AddKnownHolder(peers[i]);
      }
    }
    assert peers[..|peers|] == peers && ok[..|ok|] == ok;
  }

  /** The operations of one pass through the forwarding procedure. */
  function ForwardingOps(selected: bool): seq<Op> {
    [Add(FORWARD_PENDING), Remove(DISPATCH_PENDING), if selected then Remove(FORWARD_PENDING) else Reset]
  }

  lemma RunThree(s: State, ops: seq<Op>)
    requires |ops| == 3
    ensures Run(s, ops) == Step(Step(Step(s, ops[0]).0, ops[1]).0, ops[2]).0
  {
    hide Step;
    var s1 := Step(s, ops[0]).0;
    var s2 := Step(s1, ops[1]).0;
    var s3 := Step(s2, ops[2]).0;
    assert Run(s3, ops[1..][1..][1..]) == s3;
    assert Run(s2, ops[1..][1..]) == s3;
    assert Run(s1, ops[1..]) == s3;
  }

  /** The first step of forwarding protects the bundle from the second one. */
  lemma ForwardingKeepsBundle(s: State)
    requires !s.deleted
    ensures Step(s, Add(FORWARD_PENDING)).1 && !Step(s, Add(FORWARD_PENDING)).0.deleted
    ensures Step(Step(s, Add(FORWARD_PENDING)).0, Remove(DISPATCH_PENDING)).1
    ensures !Step(Step(s, Add(FORWARD_PENDING)).0, Remove(DISPATCH_PENDING)).0.deleted
  {
    assert FORWARD_PENDING in Step(s, Add(FORWARD_PENDING)).0.constraints;
  }

  /** One pass through the forwarding procedure, step by step. */
  lemma ForwardingPass(s: State, selected: bool)
    requires !s.deleted
    ensures var s1 := Step(s, Add(FORWARD_PENDING)).0;
            var s2 := Step(s1, Remove(DISPATCH_PENDING)).0;
            && !s1.deleted && !s2.deleted
            && Run(s, ForwardingOps(selected)) == Step(s2, if selected then Remove(FORWARD_PENDING) else Reset).0
  {
    hide Step, Run;
    ForwardingKeepsBundle(s);
    RunThree(s, ForwardingOps(selected));
  }

  function NeitherPending(cs: seq<Constraint>): (keep: seq<bool>)
    ensures |keep| == |cs|
  {
    seq(|cs|, i requires 0 <= i < |cs| => cs[i] != DISPATCH_PENDING && cs[i] != FORWARD_PENDING)
  }

  lemma {:induction false} OthersOfBoth(cs: seq<Constraint>)
    ensures Others(Others(cs, DISPATCH_PENDING), FORWARD_PENDING) == Kept(cs, NeitherPending(cs))
  {
    if cs != [] {
      var n := |cs| - 1;
      OthersOfBoth(cs[..n]);
      assert NeitherPending(cs)[..n] == NeitherPending(cs[..n]);
      var before := Others(cs[..n], DISPATCH_PENDING);
      if cs[n] != DISPATCH_PENDING {
        assert (before + [cs[n]])[..|before|] == before;
      } else {
        assert before + [] == before;
      }
    }
  }

  lemma PassConstraints(s: State)
    requires !s.deleted
    ensures Run(s, ForwardingOps(true)).constraints
            == Others(Others(s.constraints, DISPATCH_PENDING), FORWARD_PENDING)
    ensures Run(s, ForwardingOps(false)).constraints == []
  {
    ForwardingPass(s, true);
    ForwardingPass(s, false);
    hide Run, ForwardingOps;
    var cs := s.constraints;
    assert (cs + [FORWARD_PENDING])[..|cs|] == cs;
    var left := Others(cs, DISPATCH_PENDING);
    assert Others(cs + [FORWARD_PENDING], DISPATCH_PENDING) == left + [FORWARD_PENDING];
    assert (left + [FORWARD_PENDING])[..|left|] == left;
    assert Others(left, FORWARD_PENDING) + [] == Others(left, FORWARD_PENDING);
  }

  /**
    * After a pass a live descriptor is pending for nothing the pass was about, so it can be
    * dispatched again; with a selected peer every other constraint is still there, in order, and
    * without one there is none. A marked bundle goes with its last constraint.
    */
  lemma AfterForwarding(s: State, selected: bool) returns (idx: seq<nat>)
    requires Inv(s) && !s.deleted
    ensures var t := Run(s, ForwardingOps(selected));
            && FORWARD_PENDING !in t.constraints && DISPATCH_PENDING !in t.constraints && t.dispatch
            && Picks(t.constraints, s.constraints, idx)
            && (forall i :: 0 <= i < |s.constraints| ==>
                  (i in idx <==> selected && s.constraints[i] != DISPATCH_PENDING && s.constraints[i] != FORWARD_PENDING))
            && (t.deleted <==> s.shouldDelete && t.constraints == [])
  {
    hide Run, Step, Kept, Others, ForwardingOps;
    RetentionInvariant(s, ForwardingOps(selected));
    PassConstraints(s);
    OthersOfBoth(s.constraints);
    PassDeletes(s, selected);
    if selected {
      idx := KeptPicks(s.constraints, NeitherPending(s.constraints));
    } else {
      idx := [];
    }
  }

  lemma PassDeletes(s: State, selected: bool)
    requires !s.deleted
    ensures var t := Run(s, ForwardingOps(selected)); t.deleted <==> s.shouldDelete && t.constraints == []
  {
    ForwardingPass(s, selected);
    hide Run, ForwardingOps, Others;
  }

  lemma DeletedRefuses(s: State, c: Constraint)
    requires s.deleted
    ensures Step(s, Add(c)) == (s, false)
  {
  }

  /**
    * The forwarding procedure with epidemic routing (section 5.4 of RFC 9171): select all peers not
    * known to hold the bundle, send, and record the transmissions that succeeded.
    */
  method ForwardEpidemic(d: BundleDescriptor, peers: seq<Eid>, ok: seq<bool>)
    requires |ok| == |Candidates(d.deleted, peers, d.knownHolders)|
    modifies d
    ensures old(d.deleted) ==> d.View() == old(d.View()) && d.knownHolders == old(d.knownHolders)
    ensures !old(d.deleted) ==>
              var chosen := Filter(peers, old(d.knownHolders));
              && d.View() == Run(old(d.View()), ForwardingOps(chosen != []))
              && d.knownHolders == old(d.knownHolders) + Succeeded(chosen, ok)
    ensures d.copies == old(d.copies)
  {
    hide Step, Run, Filter, Succeeded, ForwardingOps;
    if d.deleted {
      DeletedRefuses(d.View(), FORWARD_PENDING);
      var _ := d.AddConstraint(FORWARD_PENDING);
      return;
    }
    ForwardingPass(d.View(), Filter(peers, d.knownHolders) != []);
    var _ := d.AddConstraint(FORWARD_PENDING);
    var _ := d.RemoveConstraint(DISPATCH_PENDING);
    var chosen := FilterPeers(d, peers);
    if |chosen| == 0 {
      NoneSucceeded(chosen, ok);
      var _ := d.ResetConstraints();
    } else {
      ForwardToPeers(d, chosen, ok);
      var _ := d.RemoveConstraint(FORWARD_PENDING);
    }
  }
}
