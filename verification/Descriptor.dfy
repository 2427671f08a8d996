/** Bundle descriptors: retention constraints, known holders and deletion (section 5 of RFC 9171). */
module Descriptor {
  import opened Bytes
  import opened Endpoint
  import opened Subsequences

  type Constraint = byte
  const DISPATCH_PENDING: Constraint := 0
  const FORWARD_PENDING: Constraint := 1
  const REASSEMBLY_PENDING: Constraint := 2

  /** The retention state of a descriptor. */
  datatype State = State(constraints: seq<Constraint>, retain: bool, dispatch: bool, deleted: bool, shouldDelete: bool)

  const NEW: State := State([DISPATCH_PENDING], true, true, false, false)

  /** The operations on a descriptor, each atomic under its lock. */
  datatype Op = Add(c: Constraint) | Remove(c: Constraint) | Reset | Delete(mark: bool)

  function Others(cs: seq<Constraint>, c: Constraint): (r: seq<Constraint>)
    ensures c !in r && forall x :: x in cs && x != c ==> x in r
    ensures forall x :: x in r ==> x in cs
  {
    if cs == [] then [] else Others(cs[..|cs| - 1], c) + if cs[|cs| - 1] != c then [cs[|cs| - 1]] else []
  }

  /** A marked descriptor goes when it is no longer retained. */
  function DropIfMarked(s: State): State {
    if !s.retain && s.shouldDelete then s.(deleted := true) else s
  }

  /** The effect of an operation, and whether it succeeds. */
  function Step(s: State, op: Op): (State, bool) {
    match op
    case Add(c) =>
      if s.deleted || c > REASSEMBLY_PENDING then (s, false)
      else (s.(constraints := s.constraints + [c], retain := true, dispatch := s.dispatch && c != FORWARD_PENDING), true)
    case Remove(c) =>
      if s.deleted then (s, false)
      else
        var left := Others(s.constraints, c);
        (DropIfMarked(s.(constraints := left, retain := left != [], dispatch := FORWARD_PENDING !in left)), true)
    case Reset =>
      if s.deleted then (s, false)
      else (DropIfMarked(s.(constraints := [], retain := false, dispatch := true)), true)
    case Delete(mark) =>
      if s.constraints != [] then (if mark then s.(shouldDelete := true) else s, mark)
      else if s.deleted then (s, false)
      else (s.(deleted := true), true)
  }

  /** The state after a sequence of operations, from whatever goroutines they came. */
  function Run(s: State, ops: seq<Op>): (r: State)
    decreases |ops|
  {
    if ops == [] then s else Run(Step(s, ops[0]).0, ops[1..])
  }

  /** What holds in every reachable state. */
  predicate Inv(s: State) {
    && (s.retain <==> s.constraints != [])
    && (s.dispatch <==> FORWARD_PENDING !in s.constraints)
    && (s.deleted ==> s.constraints == [])
    && (s.shouldDelete && !s.deleted ==> s.constraints != [])
  }

  lemma {:induction false} RetentionInvariant(s: State, ops: seq<Op>)
    requires Inv(s)
    ensures Inv(Run(s, ops))
    decreases |ops|
  {
    if ops != [] {
      RetentionInvariant(Step(s, ops[0]).0, ops[1..]);
    }
  }

  /** No mix of operations brings a deleted bundle back, or changes anything about it. */
  lemma {:induction false} DeletedStaysDeleted(s: State, ops: seq<Op>)
    requires Inv(s) && s.deleted
    ensures Run(s, ops) == s
  {
    if ops != [] {
      DeletedStaysDeleted(s, ops[1..]);
    }
  }

  lemma {:induction false} RunConcat(s: State, before: seq<Op>, after: seq<Op>)
    ensures Run(s, before + after) == Run(Run(s, before), after)
    decreases |before|
  {
    if before == [] {
      assert before + after == after;
    } else {
      assert (before + after)[1..] == before[1..] + after;
      RunConcat(Step(s, before[0]).0, before[1..], after);
    }
  }

  /**
    * In every run from a new descriptor: the operation that deletes the bundle leaves it without
    * constraint, and is either a deletion of an unconstrained bundle or the removal of the last
    * constraint of a marked one. After it nothing changes any more.
    */
  lemma NeverDeletesConstrained(before: seq<Op>, op: Op, after: seq<Op>)
    ensures var s, t := Run(NEW, before), Run(NEW, before + [op]);
            && (!s.deleted && t.deleted ==>
                  && t.constraints == []
                  && (op.Delete? ==> s.constraints == [])
                  && (!op.Delete? ==> s.shouldDelete && s.constraints != []))
            && (t.deleted ==> Run(NEW, before + [op] + after) == t)
  {
    var s := Run(NEW, before);
    RetentionInvariant(NEW, before);
    RunConcat(NEW, before, [op]);
    assert Run(s, [op]) == Step(s, op).0;
    RetentionInvariant(NEW, before + [op]);
    RunConcat(NEW, before + [op], after);
    if Run(NEW, before + [op]).deleted {
      DeletedStaysDeleted(Run(NEW, before + [op]), after);
    }
  }

  // What each operation does to the constraints

  function Differ(cs: seq<Constraint>, c: Constraint): (keep: seq<bool>)
    ensures |keep| == |cs|
  {
    seq(|cs|, i requires 0 <= i < |cs| => cs[i] != c)
  }

  lemma {:induction false} OthersKeep(cs: seq<Constraint>, c: Constraint)
    ensures Others(cs, c) == Kept(cs, Differ(cs, c))
  {
    if cs != [] {
      var n := |cs| - 1;
      OthersKeep(cs[..n], c);
      assert Differ(cs, c)[..n] == Differ(cs[..n], c);
    }
  }

  /** Removing takes every occurrence of the constraint, keeps all others in order, and deletes a marked bundle left without. */
  lemma RemoveTakes(s: State, c: Constraint) returns (idx: seq<nat>)
    requires !s.deleted
    ensures var t := Step(s, Remove(c)).0;
            && Step(s, Remove(c)).1 && c !in t.constraints
            && Picks(t.constraints, s.constraints, idx)
            && (forall i :: 0 <= i < |s.constraints| ==> (i in idx <==> s.constraints[i] != c))
            && t.shouldDelete == s.shouldDelete && (t.deleted <==> s.shouldDelete && t.constraints == [])
  {
    hide Kept, Picks, Others;
    OthersKeep(s.constraints, c);
    idx := KeptPicks(s.constraints, Differ(s.constraints, c));
  }

  /** Adding puts a known constraint last and changes nothing else that counts; anything else is refused. */
  lemma AddPutsLast(s: State, c: Constraint)
    ensures var (t, ok) := Step(s, Add(c));
            && ok == (!s.deleted && c in {DISPATCH_PENDING, FORWARD_PENDING, REASSEMBLY_PENDING})
            && t.constraints == (if ok then s.constraints + [c] else s.constraints)
            && t.deleted == s.deleted && t.shouldDelete == s.shouldDelete
  {
  }

  /** Resetting clears the constraints of a live bundle and deletes it if it is marked. */
  lemma ResetClears(s: State)
    ensures var (t, ok) := Step(s, Reset);
            && ok == !s.deleted && t.shouldDelete == s.shouldDelete
            && (ok ==> t.constraints == [] && t.deleted == s.shouldDelete) && (!ok ==> t == s)
  {
  }

  /** Deleting marks a constrained bundle or leaves it alone, and deletes any other one that is still there. */
  lemma DeleteMarksOrDeletes(s: State, mark: bool)
    requires Inv(s)
    ensures var (t, ok) := Step(s, Delete(mark));
            && t.constraints == s.constraints
            && ok == (!s.deleted && (mark || s.constraints == []))
            && t.deleted == (s.deleted || s.constraints == [])
            && t.shouldDelete == (s.shouldDelete || (mark && s.constraints != []))
  {
  }

  /**
    * In every reachable state a bundle is deleted exactly by the first operation that leaves it
    * marked or asked to be deleted, and without constraint.
    */
  lemma DeletedExactlyWhen(before: seq<Op>, op: Op)
    ensures var s, t := Run(NEW, before), Step(Run(NEW, before), op).0;
            t.deleted <==> s.deleted || (t.constraints == [] && (s.shouldDelete || op.Delete?))
  {
    hide Run;
    RetentionInvariant(NEW, before);
  }

  /** A descriptor in memory. `copies` is the routing algorithm's saved counter. */
  class BundleDescriptor {
    var constraints: seq<Constraint>
    var retain: bool
    var dispatch: bool
    var deleted: bool
    var shouldDelete: bool
    var knownHolders: seq<Eid>
    var copies: Option<u64>
    const expires: int

    ghost function View(): State
      reads this
    {
      State(constraints, retain, dispatch, deleted, shouldDelete)
    }

    constructor (holders: seq<Eid>, expires: int)
      ensures View() == NEW && knownHolders == holders && copies == None && this.expires == expires
    {
      constraints, retain, dispatch, deleted, shouldDelete := [DISPATCH_PENDING], true, true, false, false;
      knownHolders, copies, this.expires := holders, None, expires;
    }

    method AddConstraint(c: Constraint) returns (ok: bool)
      modifies this`constraints, this`retain, this`dispatch
      ensures (View(), ok) == Step(old(View()), Add(c))
    {
      if deleted || c > REASSEMBLY_PENDING { return false; }
      constraints := constraints + [c];
      retain := true;
      if c == FORWARD_PENDING {
        dispatch := false;
      }
      return true;
    }

    method RemoveConstraint(c: Constraint) returns (ok: bool)
      modifies this`constraints, this`retain, this`dispatch, this`deleted
      ensures (View(), ok) == Step(old(View()), Remove(c))
    {
      if deleted { return false; }
      dispatch := true;
      var left: seq<Constraint> := [];
      for i := 0 to |constraints|
        invariant constraints == old(constraints) && left == Others(constraints[..i], c)
        invariant dispatch == (FORWARD_PENDING !in left)
        invariant retain == old(retain) && !deleted
      {
        assert constraints[..i + 1][..i] == constraints[..i];
        if constraints[i] != c {
          left := left + [constraints[i]];
          if constraints[i] == FORWARD_PENDING {
            dispatch := false;
          }
        }
      }
      assert constraints[..|constraints|] == constraints;
      constraints := left;
      retain := |constraints| > 0;
      if !retain && shouldDelete {
        deleted := true;
      }
      return true;
    }

    method ResetConstraints() returns (ok: bool)
      modifies this`constraints, this`retain, this`dispatch, this`deleted
      ensures (View(), ok) == Step(old(View()), Reset)
    {
      if deleted { return false; }
      constraints, retain, dispatch := [], false, true;
      if shouldDelete {
        deleted := true;
      }
      return true;
    }

    method DeleteBundle(markIfConstraint: bool) returns (ok: bool)
      modifies this`deleted, this`shouldDelete
      ensures (View(), ok) == Step(old(View()), Delete(markIfConstraint))
    {
      if |constraints| > 0 {
        if markIfConstraint {
          shouldDelete := true;
          return true;
        }
        return false;
      }
      if deleted { return false; }
      deleted := true;
      return true;
    }

    method AddKnownHolder(peer: Eid) returns (ok: bool)
      modifies this`knownHolders
      ensures ok == !deleted
      ensures knownHolders == if ok then old(knownHolders) + [peer] else old(knownHolders)
    {
      if deleted { return false; }
      knownHolders := knownHolders + [peer];
      return true;
    }
  }

  /** What garbage collection does to one descriptor. */
  function Collected(s: State, expired: bool): State {
    if expired && !(s.retain && !s.deleted) then Step(s, Delete(false)).0 else s
  }

  /** Deletes the expired descriptors that are not retained, and touches no other. */
  method GarbageCollect(ds: seq<BundleDescriptor>, now: int)
    requires forall i, j :: 0 <= i < j < |ds| ==> ds[i] != ds[j]
    requires forall i :: 0 <= i < |ds| ==> Inv(ds[i].View())
    modifies ds
    ensures forall i :: 0 <= i < |ds| ==> ds[i].View() == Collected(old(ds[i].View()), ds[i].expires < now)
    ensures forall i :: 0 <= i < |ds| ==>
              ds[i].deleted == (old(ds[i].deleted) || (ds[i].expires < now && old(ds[i].constraints) == []))
  {
    for k := 0 to |ds|
      invariant forall i :: 0 <= i < k ==> ds[i].View() == Collected(old(ds[i].View()), ds[i].expires < now)
      invariant forall i :: k <= i < |ds| ==> ds[i].View() == old(ds[i].View())
    {
      if ds[k].expires < now && !(ds[k].retain && !ds[k].deleted) {
        var _ := ds[k].DeleteBundle(false);
      }
    }
  }
}
