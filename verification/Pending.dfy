/**
  * The rendezvous between requests that carry a placeholder and the reload that installs its secret. Slots outlive
  * pipelines: a request may wait on a slot that was declared several reloads ago.
  */
module Pending {
  import opened Wrappers

  type Secret = nat

  /** A slot: its placeholder, the secret once installed, and how often its channel was closed. */
  datatype Slot = Slot(placeholder: string, resolved: Option<Secret>, closes: nat)

  /** Every slot ever made, by number, and the one registered for each placeholder. */
  datatype State = State(slots: seq<Slot>, byValue: map<string, nat>)

  /**
    * A pending placeholder as one request meets it: its slot, whether its rules and the request ask for it, and how a
    * wait ends.
    */
  datatype Entry = Entry(slot: nat, matched: bool, carried: bool, patient: bool)

  /** Both operations run under one lock. */
  datatype Operation = Declare(placeholder: string) | Install(placeholder: string, secret: Secret)

  predicate Registered(s: State, v: string) {
    v in s.byValue && s.byValue[v] < |s.slots|
  }

  /** declarePending. */
  function Declared(s: State, v: string): State {
    if Registered(s, v) && s.slots[s.byValue[v]].resolved.None? then s
    else State(s.slots + [Slot(v, None, 0)], s.byValue[v := |s.slots|])
  }

  /** installPending. */
  function Installed(s: State, v: string, secret: Secret): State {
    if !Registered(s, v) || s.slots[s.byValue[v]].resolved.Some? then s
    else
      var i := s.byValue[v];
      s.(slots := s.slots[i := Slot(s.slots[i].placeholder, Some(secret), s.slots[i].closes + 1)])
  }

  function Apply(s: State, op: Operation): State {
    match op
    case Declare(v) => Declared(s, v)
    case Install(v, secret) => Installed(s, v, secret)
  }

  function Run(ops: seq<Operation>): State {
    if ops == [] then State([], map[]) else Apply(Run(ops[..|ops| - 1]), ops[|ops| - 1])
  }

  /**
    * An unresolved slot is the one registered for its placeholder, and a channel is closed once, when its slot
    * resolves.
    */
  ghost predicate Sound(s: State) {
    && (forall v :: v in s.byValue ==> Registered(s, v) && s.slots[s.byValue[v]].placeholder == v)
    && (forall i :: 0 <= i < |s.slots| && s.slots[i].resolved.None? ==>
          s.slots[i].placeholder in s.byValue && s.byValue[s.slots[i].placeholder] == i)
    && (forall i :: 0 <= i < |s.slots| ==> s.slots[i].closes == if s.slots[i].resolved.Some? then 1 else 0)
  }

  lemma ApplyKeepsSound(s: State, op: Operation)
    requires Sound(s)
    ensures Sound(Apply(s, op))
  {
  }

  lemma {:induction false} RunsAreSound(ops: seq<Operation>)
    ensures Sound(Run(ops))
  {
    hide Sound, Apply;
    if ops == [] {
      StartIsSound();
    } else {
      RunsAreSound(ops[..|ops| - 1]);
      ApplyKeepsSound(Run(ops[..|ops| - 1]), ops[|ops| - 1]);
    }
  }

  lemma StartIsSound()
    ensures Sound(State([], map[]))
  {
  }

  /** Whether a request waiting on slot i is let go. */
  predicate Released(s: State, i: nat) {
    i < |s.slots| && s.slots[i].closes > 0
  }

  /**
    * One install releases every request waiting on the placeholder, whichever reload its slot comes from: with that
    * secret if the slot was unresolved, and else with the one it had.
    */
  lemma NoStrandedWaiter(ops: seq<Operation>, v: string, secret: Secret, i: nat)
    requires i < |Run(ops).slots| && Run(ops).slots[i].placeholder == v
    ensures Released(Run(ops + [Install(v, secret)]), i)
    ensures Run(ops + [Install(v, secret)]).slots[i].resolved ==
            if Run(ops).slots[i].resolved.None? then Some(secret) else Run(ops).slots[i].resolved
  {
    assert (ops + [Install(v, secret)])[..|ops|] == ops;
    RunsAreSound(ops);
    RunsAreSound(ops + [Install(v, secret)]);
  }

  /** What a slot was resolved to never changes, and a released request stays released. */
  lemma {:induction false} ResolvedForGood(ops: seq<Operation>, later: seq<Operation>, i: nat)
    requires i < |Run(ops).slots|
    ensures i < |Run(ops + later).slots| && Run(ops + later).slots[i].placeholder == Run(ops).slots[i].placeholder
    ensures Run(ops).slots[i].resolved.Some? ==> Run(ops + later).slots[i] == Run(ops).slots[i]
  {
    if later == [] {
      assert ops + later == ops;
    } else {
      var k := |later| - 1;
      assert (ops + later)[..|ops| + k] == ops + later[..k];
      ResolvedForGood(ops, later[..k], i);
      ApplyKeepsSlot(Run(ops + later[..k]), later[k], i);
    }
  }

  lemma ApplyKeepsSlot(s: State, op: Operation, i: nat)
    requires i < |s.slots|
    ensures i < |Apply(s, op).slots| && Apply(s, op).slots[i].placeholder == s.slots[i].placeholder
    ensures s.slots[i].resolved.Some? ==> Apply(s, op).slots[i] == s.slots[i]
  {
  }

  predicate InstallAmong(ops: seq<Operation>, v: string) {
    exists k :: 0 <= k < |ops| && ops[k].Install? && ops[k].placeholder == v
  }

  lemma InstallAmongSnoc(ops: seq<Operation>, v: string)
    requires ops != []
    ensures var k := |ops| - 1;
            InstallAmong(ops, v) <==> InstallAmong(ops[..k], v) || (ops[k].Install? && ops[k].placeholder == v)
  {
    assert forall j :: 0 <= j < |ops| - 1 ==> ops[..|ops| - 1][j] == ops[j];
  }

  /** A request is let go exactly when some install of its placeholder came after its slot was made. */
  lemma {:induction false} ReleasedByInstall(ops: seq<Operation>, later: seq<Operation>, i: nat)
    requires i < |Run(ops).slots| && Run(ops).slots[i].resolved.None?
    ensures i < |Run(ops + later).slots|
    ensures Released(Run(ops + later), i) <==> InstallAmong(later, Run(ops).slots[i].placeholder)
  {
    hide Apply, InstallAmong;
    if later == [] {
      assert ops + later == ops;
      RunsAreSound(ops);
      NoneAmongNothing(Run(ops).slots[i].placeholder);
    } else {
      var k := |later| - 1;
      assert (ops + later)[..|ops| + k] == ops + later[..k];
      ReleasedByInstall(ops, later[..k], i);
      ResolvedForGood(ops, later[..k], i);
      RunsAreSound(ops + later[..k]);
      StepReleases(Run(ops + later[..k]), later[k], i);
      InstallAmongSnoc(later, Run(ops).slots[i].placeholder);
    }
  }

  /** The secret of the first install of a placeholder. */
  function FirstInstalled(ops: seq<Operation>, v: string): Option<Secret> {
    if ops == [] then None
    else if ops[0].Install? && ops[0].placeholder == v then Some(ops[0].secret)
    else FirstInstalled(ops[1..], v)
  }

  lemma {:induction false} FirstInstalledSnoc(ops: seq<Operation>, v: string)
    requires ops != []
    ensures var k := |ops| - 1;
            FirstInstalled(ops, v) ==
            if FirstInstalled(ops[..k], v).Some? then FirstInstalled(ops[..k], v)
            else if ops[k].Install? && ops[k].placeholder == v then Some(ops[k].secret) else None
  {
    if |ops| > 1 {
      FirstInstalledSnoc(ops[1..], v);
      assert ops[..|ops| - 1][1..] == ops[1..][..|ops| - 2];
    }
  }

  lemma StepResolves(s: State, op: Operation, i: nat)
    requires Sound(s) && i < |s.slots|
    ensures i < |Apply(s, op).slots|
    ensures Apply(s, op).slots[i].resolved ==
            if s.slots[i].resolved.None? && op.Install? && op.placeholder == s.slots[i].placeholder then Some(op.secret)
            else s.slots[i].resolved
  {
  }

  /** A slot resolves to the secret of the first install of its placeholder after it was made, and to no other. */
  lemma {:induction false} ResolvedToFirst(ops: seq<Operation>, later: seq<Operation>, i: nat)
    requires i < |Run(ops).slots| && Run(ops).slots[i].resolved.None?
    ensures i < |Run(ops + later).slots|
    ensures Run(ops + later).slots[i].resolved == FirstInstalled(later, Run(ops).slots[i].placeholder)
  {
    hide Apply, FirstInstalled;
    if later == [] {
      assert ops + later == ops;
      NothingInstalled(Run(ops).slots[i].placeholder);
    } else {
      var k := |later| - 1;
      assert (ops + later)[..|ops| + k] == ops + later[..k];
      ResolvedToFirst(ops, later[..k], i);
      ResolvedForGood(ops, later[..k], i);
      RunsAreSound(ops + later[..k]);
      StepResolves(Run(ops + later[..k]), later[k], i);
      FirstInstalledSnoc(later, Run(ops).slots[i].placeholder);
    }
  }

  lemma NothingInstalled(v: string)
    ensures FirstInstalled([], v) == None
  {
  }

  lemma NoneAmongNothing(v: string)
    ensures !InstallAmong([], v)
  {
  }

  lemma StepReleases(s: State, op: Operation, i: nat)
    requires Sound(s) && i < |s.slots|
    ensures i < |Apply(s, op).slots|
    ensures Released(Apply(s, op), i) <==> Released(s, i) || (op.Install? && op.placeholder == s.slots[i].placeholder)
  {
  }

  // ---- the code

  /** The registry and its slots. */
  class Registry {
    var slots: seq<Slot>
    var byValue: map<string, nat>

    ghost function View(): State
      reads this
    {
      State(slots, byValue)
    }

    constructor ()
      ensures View() == Run([])
    {
      slots, byValue := [], map[];
    }

    method DeclarePending(v: string) returns (slot: nat)
      requires Sound(View())
      modifies this
      ensures View() == Declared(old(View()), v) && Sound(View())
      ensures slot < |slots| && slots[slot].placeholder == v && slots[slot].resolved.None? && v in byValue &&
                byValue[v] == slot
    {
      if v in byValue {
        slot := byValue[v];
        if slots[slot].resolved.None? {
          return;
        }
      }
      slot := |slots|;
      slots := slots + [Slot(v, None, 0)];
      byValue := byValue[v := slot];
    }

    method InstallPending(v: string, secret: Secret)
      requires Sound(View())
      modifies this
      ensures View() == Installed(old(View()), v, secret) && Sound(View())
    {
      if v !in byValue {
        return;
      }
      var i := byValue[v];
      if slots[i].resolved.Some? {
        return;
      }
      slots := slots[i := Slot(slots[i].placeholder, Some(secret), slots[i].closes + 1)];
    }

    /** The wait on the slot ended by the slot becoming ready, and the installed secret can be read. */
    predicate Swappable(e: Entry, readable: Secret -> bool)
      reads this
    {
      e.patient && e.slot < |slots| && slots[e.slot].resolved.Some? && readable(slots[e.slot].resolved.value)
    }

    /** What becomes of an entry that does not stop the request: nothing unless it applies, and else its own secret. */
    predicate Handled(e: Entry, readable: Secret -> bool, swap: Option<Secret>)
      reads this
    {
      if e.matched && e.carried then Swappable(e, readable) && slots[e.slot].resolved == swap else swap == None
    }

    /**
      * waitForPending for one request; readable says whether an installed secret can be read. The request is rejected
      * at the first entry that applies to it and cannot be swapped, and not at all if there is none.
      */
    method WaitForPending(entries: seq<Entry>, readable: Secret -> bool)
      returns (rejected: Option<nat>, swapped: seq<Option<Secret>>)
      requires Sound(View()) && forall k :: 0 <= k < |entries| ==> entries[k].slot < |slots|
      requires forall k :: 0 <= k < |entries| && entries[k].patient ==> Released(View(), entries[k].slot)
      ensures |swapped| == if rejected.Some? then rejected.value else |entries|
      ensures rejected.Some? ==>
                rejected.value < |entries| &&
                var e := entries[rejected.value]; e.matched && e.carried && !Swappable(e, readable)
      ensures forall k :: 0 <= k < |swapped| ==> Handled(entries[k], readable, swapped[k])
    {
      swapped := [];
      for k := 0 to |entries|
        invariant |swapped| == k
        invariant forall j :: 0 <= j < k ==> Handled(entries[j], readable, swapped[j])
      {
        var e := entries[k];
        if !e.matched || !e.carried {
          swapped := swapped + [None];
          continue;
        }
        if !e.patient {
          return Some(k), swapped;
        }
        var secret := slots[e.slot].resolved.value;
        if !readable(secret) {
          return Some(k), swapped;
        }
        swapped := swapped + [Some(secret)];
      }
      return None, swapped;
    }
  }
}
