/** The registry of convergence layer adaptors: registration, activation and disconnection. */
module ClaRegistry {
  /** An adaptor: its address, and whether it can send, receive, or both. */
  datatype Cla = Cla(address: string, sender: bool, receiver: bool)

  /** The manager's lists, and the addresses whose removal is under way. */
  datatype Registry = Registry(pending: seq<Cla>, senders: seq<Cla>, receivers: seq<Cla>, removing: set<string>)

  predicate Has(cs: seq<Cla>, address: string) {
    exists i :: 0 <= i < |cs| && cs[i].address == address
  }

  function Without(cs: seq<Cla>, address: string): (r: seq<Cla>) {
    if cs == [] then []
    else if cs[0].address == address then Without(cs[1..], address)
    else [cs[0]] + Without(cs[1..], address)
  }

  lemma {:induction false} WithoutMembers(cs: seq<Cla>, address: string)
    ensures forall c :: c in Without(cs, address) <==> c in cs && c.address != address
  {
    if cs != [] {
      assert cs == [cs[0]] + cs[1..];
      WithoutMembers(cs[1..], address);
    }
  }

  predicate Present(r: Registry, c: Cla) {
    Has(r.pending, c.address) || (c.receiver && Has(r.receivers, c.address)) || (c.sender && Has(r.senders, c.address))
  }

  function Registered(r: Registry, c: Cla): Registry {
    if Present(r, c) then r else r.(pending := r.pending + [c])
  }

  function Activated(r: Registry, c: Cla, ok: bool): Registry {
    r.(pending := Without(r.pending, c.address),
       receivers := if ok && c.receiver then r.receivers + [c] else r.receivers,
       senders := if ok && c.sender then r.senders + [c] else r.senders)
  }

  function Leaving(r: Registry, c: Cla): Registry {
    r.(removing := r.removing + {c.address})
  }

  function Left(r: Registry, c: Cla): Registry {
    r.(receivers := if c.receiver then Without(r.receivers, c.address) else r.receivers,
       senders := if c.sender then Without(r.senders, c.address) else r.senders,
       removing := r.removing - {c.address})
  }

  /** The manager; each method is what one holder of its lock does. */
  class Manager {
    var pending: seq<Cla>
    var senders: seq<Cla>
    var receivers: seq<Cla>
    var removing: set<string>

    ghost function View(): Registry
      reads this
    {
      Registry(pending, senders, receivers, removing)
    }

    constructor ()
      ensures View() == Registry([], [], [], {})
    {
      pending, senders, receivers, removing := [], [], [], {};
    }

    static method Contains(cs: seq<Cla>, address: string) returns (found: bool)
      ensures found == Has(cs, address)
    {
      for i := 0 to |cs|
        invariant forall j :: 0 <= j < i ==> cs[j].address != address
      {
        if cs[i].address == address { return true; }
      }
      return false;
    }

    method CheckPresent(c: Cla) returns (present: bool)
      ensures present == Present(View(), c)
    {
      present := Contains(pending, c.address);
      if !present && c.receiver {
        present := Contains(receivers, c.address);
      }
      if !present && c.sender {
        present := Contains(senders, c.address);
      }
    }

    /** Returns whether an activation is started. */
    method Register(c: Cla) returns (started: bool)
      modifies this`pending
      ensures started == !Present(old(View()), c)
      ensures View() == Registered(old(View()), c)
    {
      var present := CheckPresent(c);
      if present { return false; }
      pending := pending + [c];
      return true;
    }

    static method Keep(cs: seq<Cla>, address: string) returns (kept: seq<Cla>)
      ensures kept == Without(cs, address)
    {
      kept := [];
      for i := 0 to |cs|
        invariant Without(cs, address) == kept + Without(cs[i..], address)
      {
        assert cs[i..][1..] == cs[i + 1..];
        if cs[i].address != address {
          assert kept + ([cs[i]] + Without(cs[i + 1..], address)) == kept + [cs[i]] + Without(cs[i + 1..], address);
          kept := kept + [cs[i]];
        }
      }
    }

    method FinishActivation(c: Cla, ok: bool)
      modifies this`pending, this`senders, this`receivers
      ensures View() == Activated(old(View()), c, ok)
    {
      pending := Keep(pending, c.address);
      if ok {
        if c.receiver {
          receivers := receivers + [c];
        }
        if c.sender {
          senders := senders + [c];
        }
      }
    }

    /** Returns whether this caller is to carry out the removal. */
    method BeginDisconnect(c: Cla) returns (started: bool)
      modifies this`removing
      ensures started == (c.address !in old(removing))
      ensures View() == if started then Leaving(old(View()), c) else old(View())
    {
      if c.address in removing { return false; }
      removing := removing + {c.address};
      return true;
    }

    method FinishDisconnect(c: Cla)
      modifies this`senders, this`receivers, this`removing
      ensures View() == Left(old(View()), c)
    {
      if c.receiver {
        receivers := Keep(receivers, c.address);
      }
      if c.sender {
        senders := Keep(senders, c.address);
      }
      removing := removing - {c.address};
    }
  }

  // All interleavings

  /** The registry, the activations still running, and the disconnects between their two parts. */
  datatype State = State(reg: Registry, running: seq<Cla>, leaving: seq<Cla>)

  datatype Step = Register(c: Cla) | Finish(i: nat, ok: bool) | Begin(c: Cla) | End(i: nat) | Shutdown

  const START := State(Registry([], [], [], {}), [], [])

  function DropAt(cs: seq<Cla>, i: nat): (r: seq<Cla>)
    requires i < |cs|
  {
    cs[..i] + cs[i + 1..]
  }

  /** A step that names a missing activation or disconnect does nothing. */
  function Next(s: State, step: Step): (t: State) {
    match step
    case Register(c) =>
      State(Registered(s.reg, c), if Present(s.reg, c) then s.running else s.running + [c], s.leaving)
    case Finish(i, ok) =>
      if i >= |s.running| then s
      else State(Activated(s.reg, s.running[i], ok), DropAt(s.running, i), s.leaving)
    case Begin(c) =>
      if c.address in s.reg.removing then s else State(Leaving(s.reg, c), s.running, s.leaving + [c])
    case End(i) =>
      if i >= |s.leaving| then s
      else State(Left(s.reg, s.leaving[i]), s.running, DropAt(s.leaving, i))
    case Shutdown =>
      s.(reg := s.reg.(senders := [], receivers := []))
  }

  function Run(steps: seq<Step>): (s: State) {
    if steps == [] then START else Next(Run(steps[..|steps| - 1]), steps[|steps| - 1])
  }

  predicate DistinctAddresses(cs: seq<Cla>) {
    forall i, j :: 0 <= i < j < |cs| ==> cs[i].address != cs[j].address
  }

  ghost predicate Inv(s: State) {
    && DistinctAddresses(s.reg.pending) && DistinctAddresses(s.reg.senders) && DistinctAddresses(s.reg.receivers)
    && (forall c :: c in s.reg.pending && c.sender ==> !Has(s.reg.senders, c.address))
    && (forall c :: c in s.reg.pending && c.receiver ==> !Has(s.reg.receivers, c.address))
    && s.running == s.reg.pending
    && DistinctAddresses(s.leaving)
    && (forall a :: a in s.reg.removing <==> Has(s.leaving, a))
  }

  lemma {:induction false} WithoutDropsOne(cs: seq<Cla>, i: nat)
    requires i < |cs| && DistinctAddresses(cs)
    ensures Without(cs, cs[i].address) == DropAt(cs, i)
  {
    if i == 0 {
      WithoutNothing(cs[1..], cs[0].address);
      assert DropAt(cs, 0) == cs[1..];
    } else {
      WithoutDropsOne(cs[1..], i - 1);
      assert DropAt(cs, i) == [cs[0]] + DropAt(cs[1..], i - 1);
    }
  }

  lemma {:induction false} WithoutNothing(cs: seq<Cla>, address: string)
    requires forall i :: 0 <= i < |cs| ==> cs[i].address != address
    ensures Without(cs, address) == cs
  {
    if cs != [] {
      WithoutNothing(cs[1..], address);
    }
  }

  lemma {:induction false} WithoutStaysDistinct(cs: seq<Cla>, address: string)
    requires DistinctAddresses(cs)
    ensures DistinctAddresses(Without(cs, address))
  {
    if cs != [] {
      WithoutStaysDistinct(cs[1..], address);
      WithoutMembers(cs[1..], address);
      forall c | c in Without(cs[1..], address) ensures c.address != cs[0].address {
        var i :| 0 <= i < |cs[1..]| && cs[1..][i] == c;
        assert cs[i + 1] == c;
      }
    }
  }

  lemma AppendDistinct(cs: seq<Cla>, c: Cla)
    requires DistinctAddresses(cs) && !Has(cs, c.address)
    ensures DistinctAddresses(cs + [c])
  {
  }

  lemma AppendHas(cs: seq<Cla>, c: Cla, a: string)
    ensures Has(cs + [c], a) <==> Has(cs, a) || a == c.address
  {
    if Has(cs, a) {
      var j :| 0 <= j < |cs| && cs[j].address == a;
      assert (cs + [c])[j].address == a;
    }
    assert (cs + [c])[|cs|] == c;
  }

  lemma DropDistinct(cs: seq<Cla>, i: nat)
    requires i < |cs| && DistinctAddresses(cs)
    ensures DistinctAddresses(DropAt(cs, i))
    ensures forall c :: c in DropAt(cs, i) ==> c in cs && c.address != cs[i].address
  {
  }

  /** An activated adaptor joins a list that has no entry with its address. */
  lemma JoinKeeps(list: seq<Cla>, c: Cla, joins: bool, others: seq<Cla>)
    requires DistinctAddresses(list) && (joins ==> !Has(list, c.address))
    requires forall p :: p in others ==> p.address != c.address && !Has(list, p.address)
    ensures var r := if joins then list + [c] else list;
            DistinctAddresses(r) && forall p :: p in others ==> !Has(r, p.address)
  {
    if joins {
      AppendDistinct(list, c);
      hide DistinctAddresses, Has;
      forall p | p in others ensures !Has(list + [c], p.address) {
        AppendHas(list, c, p.address);
      }
    }
  }

  function Senders(cs: seq<Cla>): (r: seq<Cla>)
    ensures forall c :: c in r <==> c in cs && c.sender
  {
    if cs == [] then []
    else
      assert cs == [cs[0]] + cs[1..];
      (if cs[0].sender then [cs[0]] else []) + Senders(cs[1..])
  }

  function Receivers(cs: seq<Cla>): (r: seq<Cla>)
    ensures forall c :: c in r <==> c in cs && c.receiver
  {
    if cs == [] then []
    else
      assert cs == [cs[0]] + cs[1..];
      (if cs[0].receiver then [cs[0]] else []) + Receivers(cs[1..])
  }

  lemma FinishKeeps(s: State, i: nat, ok: bool)
    requires Inv(s) && i < |s.running|
    ensures Inv(Next(s, Finish(i, ok)))
  {
    var c, t := s.running[i], Next(s, Finish(i, ok));
    WithoutDropsOne(s.reg.pending, i);
    DropDistinct(s.reg.pending, i);
    assert c in s.reg.pending;
    hide Without, DropAt, DistinctAddresses, Has, Senders, Receivers;
    JoinKeeps(s.reg.senders, c, ok && c.sender, Senders(t.reg.pending));
    JoinKeeps(s.reg.receivers, c, ok && c.receiver, Receivers(t.reg.pending));
  }

  lemma EndKeeps(s: State, i: nat)
    requires Inv(s) && i < |s.leaving|
    ensures Inv(Next(s, End(i)))
  {
    var c, t := s.leaving[i], Next(s, End(i));
    WithoutStaysDistinct(s.reg.senders, c.address);
    WithoutStaysDistinct(s.reg.receivers, c.address);
    WithoutMembers(s.reg.senders, c.address);
    WithoutMembers(s.reg.receivers, c.address);
    assert forall x :: x in t.reg.senders ==> x in s.reg.senders;
    assert forall x :: x in t.reg.receivers ==> x in s.reg.receivers;
    forall p | p in t.reg.pending
      ensures p.sender ==> !Has(t.reg.senders, p.address)
      ensures p.receiver ==> !Has(t.reg.receivers, p.address)
    {
      SubHas(t.reg.senders, s.reg.senders, p.address);
      SubHas(t.reg.receivers, s.reg.receivers, p.address);
    }
    forall a ensures a in t.reg.removing <==> Has(t.leaving, a) {
      DropHas(s.leaving, i, a);
    }
  }

  lemma SubHas(sub: seq<Cla>, cs: seq<Cla>, a: string)
    requires forall x :: x in sub ==> x in cs
    ensures Has(sub, a) ==> Has(cs, a)
  {
    if Has(sub, a) {
      var i :| 0 <= i < |sub| && sub[i].address == a;
      assert sub[i] in cs;
    }
  }

  lemma DropHas(cs: seq<Cla>, i: nat, a: string)
    requires i < |cs| && DistinctAddresses(cs)
    ensures Has(DropAt(cs, i), a) <==> Has(cs, a) && a != cs[i].address
  {
    if Has(cs, a) && a != cs[i].address {
      var j :| 0 <= j < |cs| && cs[j].address == a;
      assert DropAt(cs, i)[if j < i then j else j - 1] == cs[j];
    }
  }

  lemma StepKeeps(s: State, step: Step)
    requires Inv(s)
    ensures Inv(Next(s, step))
  {
    match step
    case Register(c) =>
      if !Present(s.reg, c) { AppendDistinct(s.reg.pending, c); }
    case Finish(i, ok) =>
      if i < |s.running| { FinishKeeps(s, i, ok); }
    case Begin(c) =>
      if c.address !in s.reg.removing {
        AppendDistinct(s.leaving, c);
        forall a ensures Has(s.leaving + [c], a) <==> Has(s.leaving, a) || a == c.address {
          AppendHas(s.leaving, c, a);
        }
      }
    case End(i) =>
      if i < |s.leaving| { EndKeeps(s, i); }
    case Shutdown =>
  }

  /**
    * In every interleaving: no address occurs twice among pending adaptors, senders or receivers; a
    * pending sender (receiver) is not yet a sender (receiver); the pending adaptors are exactly
    * those whose activation is still running; and the addresses marked for removal are exactly
    * those of the disconnects under way.
    */
  lemma {:induction false} RegistryInvariant(steps: seq<Step>)
    ensures Inv(Run(steps))
  {
    if steps != [] {
      RegistryInvariant(steps[..|steps| - 1]);
      StepKeeps(Run(steps[..|steps| - 1]), steps[|steps| - 1]);
    }
  }

  // What each step does

  /** A disconnect takes exactly the entries with its address out of the lists its adaptor is of the kind for. */
  lemma DisconnectRemoves(s: State, i: nat)
    requires i < |s.leaving|
    ensures var t, c := Next(s, End(i)), s.leaving[i];
            && (forall x :: x in t.reg.senders <==> x in s.reg.senders && !(c.sender && x.address == c.address))
            && (forall x :: x in t.reg.receivers <==> x in s.reg.receivers && !(c.receiver && x.address == c.address))
            && (!c.sender ==> t.reg.senders == s.reg.senders) && (!c.receiver ==> t.reg.receivers == s.reg.receivers)
            && t.reg.pending == s.reg.pending && t.running == s.running
            && (forall a :: a in t.reg.removing <==> a in s.reg.removing && a != c.address)
  {
    hide Without;
    WithoutMembers(s.reg.senders, s.leaving[i].address);
    WithoutMembers(s.reg.receivers, s.leaving[i].address);
  }

  /** The lists keep their order: with distinct addresses one entry goes, or none. */
  lemma DisconnectKeepsOrder(s: State, i: nat, k: nat)
    requires Inv(s) && i < |s.leaving| && k < |s.reg.senders|
    requires s.leaving[i].sender && s.reg.senders[k].address == s.leaving[i].address
    ensures Next(s, End(i)).reg.senders == s.reg.senders[..k] + s.reg.senders[k + 1..]
  {
    hide Without;
    WithoutDropsOne(s.reg.senders, k);
  }

  /** A finished activation leaves the pending entries, and joins each list of its kind exactly if it succeeded. */
  lemma ActivationJoins(s: State, i: nat, ok: bool)
    requires Inv(s) && i < |s.running|
    ensures var t, c := Next(s, Finish(i, ok)), s.running[i];
            && t.reg.senders == (if ok && c.sender then s.reg.senders + [c] else s.reg.senders)
            && t.reg.receivers == (if ok && c.receiver then s.reg.receivers + [c] else s.reg.receivers)
            && t.reg.pending == s.reg.pending[..i] + s.reg.pending[i + 1..] && t.reg.removing == s.reg.removing
  {
    hide Without;
    WithoutDropsOne(s.reg.pending, i);
  }

  /** The address of `c` is neither pending nor in a list that `c` would join. */
  predicate Absent(r: Registry, c: Cla) {
    && (forall x :: x in r.pending ==> x.address != c.address)
    && (c.sender ==> forall x :: x in r.senders ==> x.address != c.address)
    && (c.receiver ==> forall x :: x in r.receivers ==> x.address != c.address)
  }

  lemma HasIff(cs: seq<Cla>, address: string)
    ensures Has(cs, address) <==> exists c :: c in cs && c.address == address
  {
    if Has(cs, address) {
      var i :| 0 <= i < |cs| && cs[i].address == address;
      assert cs[i] in cs;
    }
  }

  /** An absent adaptor becomes pending and its activation starts; any other registration changes nothing. */
  lemma RegistrationStarts(s: State, c: Cla)
    ensures var t := Next(s, Register(c));
            if Absent(s.reg, c)
            then t == State(s.reg.(pending := s.reg.pending + [c]), s.running + [c], s.leaving)
            else t == s
  {
    HasIff(s.reg.pending, c.address);
    HasIff(s.reg.senders, c.address);
    HasIff(s.reg.receivers, c.address);
    hide Has;
  }

  /** Of several disconnects of one address only the first goes on. */
  lemma DisconnectStartsOnce(s: State, c: Cla)
    ensures var t := Next(s, Begin(c));
            && c.address in t.reg.removing
            && t.leaving == (if c.address in s.reg.removing then s.leaving else s.leaving + [c])
            && Next(t, Begin(c)) == t && t.running == s.running
            && t.reg.senders == s.reg.senders && t.reg.receivers == s.reg.receivers && t.reg.pending == s.reg.pending
  {
  }

  /** After its disconnect an adaptor can register and be active again. */
  lemma ReconnectAfterDisconnect(s: State, i: nat)
    requires Inv(s) && i < |s.leaving| && forall x :: x in s.reg.pending ==> x.address != s.leaving[i].address
    ensures var c, n := s.leaving[i], |s.running|;
            var t := Next(Next(Next(s, End(i)), Register(c)), Finish(n, true));
            (c.sender ==> c in t.reg.senders) && (c.receiver ==> c in t.reg.receivers)
  {
    hide Next, Inv;
    var c := s.leaving[i];
    DisconnectRemoves(s, i);
    EndKeeps(s, i);
    var t := Next(s, End(i));
    assert Absent(t.reg, c);
    RegistrationStarts(t, c);
    StepKeeps(t, Register(c));
    var u := Next(t, Register(c));
    assert u.running[|s.running|] == c;
    ActivationJoins(u, |s.running|, true);
  }

  /** Shutting down empties both lists. */
  lemma ShutdownEmpties(s: State)
    ensures var t := Next(s, Shutdown);
            t.reg.senders == [] && t.reg.receivers == [] && t.reg.pending == s.reg.pending && t.running == s.running
  {
  }
}
