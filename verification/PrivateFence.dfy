/**
  * The fence around connections to private addresses. A reload installs the next pipeline and closes every tracked
  * connection it does not allow; dialling, tracking and closing go on at the same time. Each lock-protected section is
  * split into its steps, and a run is any interleaving of them.
  */
module PrivateFence {
  import opened Wrappers

  /** Connections, pipelines, addresses and prefixes are told apart by number. */
  type Id = nat
  type Pipeline = nat
  type Addr = nat
  type Prefix = nat

  // ---- permission

  /** PrivateIPPermission: each allowlist must name the address; no allowlist, or an empty one, permits nothing. */
  method PrivateIPPermission(lists: seq<seq<Prefix>>) returns (checks: Option<seq<seq<Prefix>>>)
    ensures checks.None? <==> lists == [] || exists i :: 0 <= i < |lists| && lists[i] == []
    ensures checks.Some? ==> checks.value == lists
  {
    var found: seq<seq<Prefix>> := [];
    for i := 0 to |lists|
      invariant found == lists[..i] && forall j :: 0 <= j < i ==> lists[j] != []
    {
      if |lists[i]| == 0 {
        return None;
      }
      found := found + [lists[i]];
    }
    assert lists[..|lists|] == lists;
    return if |found| == 0 then None else Some(found);
  }

  predicate Lists(prefixes: seq<Prefix>, contains: (Prefix, Addr) -> bool, ip: Addr) {
    exists j :: 0 <= j < |prefixes| && contains(prefixes[j], ip)
  }

  /** The permission as a test of one address. */
  method Permits(checks: seq<seq<Prefix>>, contains: (Prefix, Addr) -> bool, ip: Addr) returns (ok: bool)
    ensures ok <==> forall i :: 0 <= i < |checks| ==> Lists(checks[i], contains, ip)
  {
    for i := 0 to |checks|
      invariant forall k :: 0 <= k < i ==> Lists(checks[k], contains, ip)
    {
      var any := false;
      for j := 0 to |checks[i]|
        invariant any <==> exists k :: 0 <= k < j && contains(checks[i][k], ip)
      {
        any := any || contains(checks[i][j], ip);
      }
      if !any {
        return false;
      }
    }
    return true;
  }

  /**
    * The test dialPrivate makes of a remote address, None when it does not parse: it is public, or every allowlist
    * names it in its bare form, unmapped and without a zone.
    */
  method AllowedBy(lists: seq<seq<Prefix>>, contains: (Prefix, Addr) -> bool, denied: Addr -> bool, bare: Addr -> Addr,
                   remote: Option<Addr>) returns (ok: bool)
    ensures ok <==>
              remote.Some? &&
              (denied(remote.value) ==>
                 lists != [] && forall i :: 0 <= i < |lists| ==> Lists(lists[i], contains, bare(remote.value)))
  {
    if remote.None? {
      return false;
    }
    var ip := remote.value;
    if !denied(ip) {
      return true;
    }
    var permit := PrivateIPPermission(lists);
    if permit.None? {
      return false;
    }
    ok := Permits(permit.value, contains, bare(ip));
  }

  // ---- the shared state

  /** Where a connection is in dialPrivate and after it; Live, Closing and Gone ones have been handed out. */
  datatype Phase = Dialed | Refused | Live | Closing | Gone

  datatype Conn = Conn(phase: Phase, open: bool)

  /** Who holds the lock: nobody, a tracking dial, a reload with the connections it has still to look at, or a close. */
  datatype Lock = Free | Tracking(id: Id) | Storing(todo: set<Id>) | Removing(id: Id)

  datatype State = State(pipeline: Option<Pipeline>, tracked: set<Id>, lock: Lock, conns: map<Id, Conn>)

  type Allowed = (Pipeline, Id) -> bool

  predicate Permitted(allowed: Allowed, p: Option<Pipeline>, id: Id) {
    p.Some? && allowed(p.value, id)
  }

  datatype Step =
    | Dial(id: Id)
    | TrackLock(id: Id)
    | TrackDecide(id: Id)
    | CloseRefused(id: Id)
    | StoreLock(next: Option<Pipeline>)
    | StoreVisit(id: Id)
    | StoreUnlock
    | CloseLock(id: Id)
    | CloseDelete(id: Id)
    | CloseSocket(id: Id)

  predicate InPhase(s: State, id: Id, phase: Phase) {
    id in s.conns && s.conns[id].phase == phase
  }

  predicate HandedOut(s: State, id: Id) {
    InPhase(s, id, Live) || InPhase(s, id, Closing) || InPhase(s, id, Gone)
  }

  predicate Enabled(s: State, step: Step) {
    match step
    case Dial(id) => id !in s.conns
    case TrackLock(id) => s.lock.Free? && InPhase(s, id, Dialed)
    case TrackDecide(id) => s.lock == Tracking(id)
    case CloseRefused(id) => InPhase(s, id, Refused)
    case StoreLock(_) => s.lock.Free?
    case StoreVisit(id) => s.lock.Storing? && id in s.lock.todo
    case StoreUnlock => s.lock == Storing({})
    case CloseLock(id) => s.lock.Free? && HandedOut(s, id)
    case CloseDelete(id) => s.lock == Removing(id)
    case CloseSocket(id) => InPhase(s, id, Closing)
  }

  function Put(s: State, id: Id, phase: Phase, open: bool): State {
    s.(conns := s.conns[id := Conn(phase, open)])
  }

  function IsOpen(s: State, id: Id): bool {
    id in s.conns && s.conns[id].open
  }

  function Apply(allowed: Allowed, s: State, step: Step): State
    requires Enabled(s, step)
  {
    match step
    case Dial(id) => Put(s, id, Dialed, true)
    case TrackLock(id) => s.(lock := Tracking(id))
    case TrackDecide(id) =>
      if Permitted(allowed, s.pipeline, id) then Put(s, id, Live, true).(tracked := s.tracked + {id}, lock := Free)
      else Put(s, id, Refused, true).(lock := Free)
    case CloseRefused(id) => Put(s, id, Gone, false)
    case StoreLock(next) => s.(pipeline := next, lock := Storing(s.tracked))
    case StoreVisit(id) =>
      var t := s.(lock := Storing(s.lock.todo - {id}));
      if Permitted(allowed, s.pipeline, id) then t else Put(t, id, Live, false).(tracked := s.tracked - {id})
    case StoreUnlock => s.(lock := Free)
    case CloseLock(id) => s.(lock := Removing(id))
    case CloseDelete(id) => Put(s, id, Closing, IsOpen(s, id)).(tracked := s.tracked - {id}, lock := Free)
    case CloseSocket(id) => Put(s, id, Gone, false)
  }

  function Init(p: Option<Pipeline>): State {
    State(p, {}, Free, map[])
  }

  /** The state after these steps from s, if each was possible when its turn came. */
  function From(allowed: Allowed, s: State, steps: seq<Step>): Option<State> {
    if steps == [] then Some(s)
    else
      var k := |steps| - 1;
      match From(allowed, s, steps[..k])
      case None => None
      case Some(t) => if Enabled(t, steps[k]) then Some(Apply(allowed, t, steps[k])) else None
  }

  function After(allowed: Allowed, p: Option<Pipeline>, steps: seq<Step>): Option<State> {
    From(allowed, Init(p), steps)
  }

  lemma OneMore(allowed: Allowed, s: State, steps: seq<Step>, t: State, step: Step)
    requires From(allowed, s, steps) == Some(t) && Enabled(t, step)
    ensures From(allowed, s, steps + [step]) == Some(Apply(allowed, t, step))
  {
    assert (steps + [step])[..|steps|] == steps;
  }

  // ---- the fence

  /**
    * A tracked connection is live and open, and unless a reload has still to look at it the current pipeline allows it.
    */
  ghost predicate Fenced(allowed: Allowed, s: State) {
    && (forall id :: id in s.tracked ==> InPhase(s, id, Live) && s.conns[id].open)
    && (forall id :: InPhase(s, id, Live) && s.conns[id].open ==> id in s.tracked)
    && (forall id :: id in s.tracked && !(s.lock.Storing? && id in s.lock.todo) ==> Permitted(allowed, s.pipeline, id))
    && (s.lock.Storing? ==> s.lock.todo <= s.tracked)
    && (s.lock.Tracking? ==> InPhase(s, s.lock.id, Dialed))
    && (s.lock.Removing? ==> HandedOut(s, s.lock.id))
    && (forall id :: InPhase(s, id, Gone) ==> !s.conns[id].open)
  }

  predicate OfClose(step: Step) {
    step.CloseLock? || step.CloseDelete? || step.CloseSocket?
  }

  predicate OfStore(step: Step) {
    step.StoreLock? || step.StoreVisit? || step.StoreUnlock?
  }

  lemma CloseKeepsFence(allowed: Allowed, s: State, step: Step)
    requires Fenced(allowed, s) && Enabled(s, step) && OfClose(step)
    ensures Fenced(allowed, Apply(allowed, s, step))
  {
  }

  lemma StoreKeepsFence(allowed: Allowed, s: State, step: Step)
    requires Fenced(allowed, s) && Enabled(s, step) && OfStore(step)
    ensures Fenced(allowed, Apply(allowed, s, step))
  {
    assert step.StoreVisit? ==> step.id in s.tracked;
  }

  lemma DialKeepsFence(allowed: Allowed, s: State, step: Step)
    requires Fenced(allowed, s) && Enabled(s, step) && !OfClose(step) && !OfStore(step)
    ensures Fenced(allowed, Apply(allowed, s, step))
  {
  }

  lemma StepKeepsFence(allowed: Allowed, s: State, step: Step)
    requires Fenced(allowed, s) && Enabled(s, step)
    ensures Fenced(allowed, Apply(allowed, s, step))
  {
    hide Fenced, Enabled, Apply;
    if OfClose(step) {
      CloseKeepsFence(allowed, s, step);
    } else if OfStore(step) {
      StoreKeepsFence(allowed, s, step);
    } else {
      DialKeepsFence(allowed, s, step);
    }
  }

  lemma StartsFenced(allowed: Allowed, p: Option<Pipeline>)
    ensures Fenced(allowed, Init(p))
  {
  }

  lemma {:induction false} AlwaysFenced(allowed: Allowed, p: Option<Pipeline>, steps: seq<Step>, s: State)
    requires After(allowed, p, steps) == Some(s)
    ensures Fenced(allowed, s)
  {
    hide Enabled, Apply, Fenced;
    if steps == [] {
      StartsFenced(allowed, p);
    } else {
      var k := |steps| - 1;
      var t := After(allowed, p, steps[..k]).value;
      AlwaysFenced(allowed, p, steps[..k], t);
      StepKeepsFence(allowed, t, steps[k]);
    }
  }

  /** No connection handed out and not allowed by the current pipeline is still open. */
  ghost predicate Revoked(allowed: Allowed, s: State) {
    forall id :: HandedOut(s, id) && s.conns[id].open ==> Permitted(allowed, s.pipeline, id)
  }

  /** A close that has left the map but not yet the socket, on a connection the current pipeline does not allow. */
  predicate LateClose(allowed: Allowed, s: State, id: Id) {
    InPhase(s, id, Closing) && s.conns[id].open && !Permitted(allowed, s.pipeline, id)
  }

  /** Whenever the lock is free, revocation is complete exactly when no such close is under way. */
  lemma RevokedUnlessClosing(allowed: Allowed, s: State)
    requires Fenced(allowed, s) && s.lock.Free?
    ensures Revoked(allowed, s) <==> !exists id :: LateClose(allowed, s, id)
  {
    if id :| LateClose(allowed, s, id) {
      assert HandedOut(s, id);
    } else {
      forall id | HandedOut(s, id) && s.conns[id].open
        ensures Permitted(allowed, s.pipeline, id)
      {
        assert InPhase(s, id, Live) || InPhase(s, id, Closing) || InPhase(s, id, Gone);
        assert !LateClose(allowed, s, id);
      }
    }
  }

  // ---- a reload as a whole

  /** A close is under way that has left the map but not yet the socket. */
  predicate UnderWay(s: State, id: Id) {
    InPhase(s, id, Closing) && s.conns[id].open
  }

  /** A reload holds the lock with this pipeline in. */
  predicate Reloading(s: State, next: Option<Pipeline>) {
    s.lock.Storing? && s.pipeline == next
  }

  /** While a reload holds the lock, closes under way only become fewer, each by its own closing of the socket. */
  lemma StepWhileReloading(allowed: Allowed, s: State, next: Option<Pipeline>, step: Step, id: Id)
    requires Fenced(allowed, s) && Reloading(s, next) && Enabled(s, step) && step != StoreUnlock
    ensures Reloading(Apply(allowed, s, step), next)
    ensures UnderWay(Apply(allowed, s, step), id) <==> UnderWay(s, id) && step != CloseSocket(id)
  {
    assert step.StoreVisit? ==> step.id in s.tracked;
  }

  lemma {:induction false} WhileReloading(allowed: Allowed, s: State, next: Option<Pipeline>, steps: seq<Step>,
                                          t: State, id: Id)
    requires Fenced(allowed, s) && Reloading(s, next) && StoreUnlock !in steps && From(allowed, s, steps) == Some(t)
    ensures Fenced(allowed, t) && Reloading(t, next)
    ensures UnderWay(t, id) <==> UnderWay(s, id) && CloseSocket(id) !in steps
  {
    hide Fenced, Reloading, UnderWay, Enabled, Apply;
    if steps != [] {
      var k := |steps| - 1;
      var m := From(allowed, s, steps[..k]).value;
      WhileReloading(allowed, s, next, steps[..k], m, id);
      assert steps == steps[..k] + [steps[k]];
      StepWhileReloading(allowed, m, next, steps[k], id);
      StepKeepsFence(allowed, m, steps[k]);
    }
  }

  /** The steps of a whole reload, and of whatever happens while it holds the lock. */
  function Reload(next: Option<Pipeline>, during: seq<Step>): seq<Step> {
    [StoreLock(next)] + during + [StoreUnlock]
  }

  lemma {:induction false} FromConcat(allowed: Allowed, s: State, a: seq<Step>, b: seq<Step>)
    ensures From(allowed, s, a + b) ==
            match From(allowed, s, a) case None => None case Some(t) => From(allowed, t, b)
  {
    hide Enabled, Apply;
    if b == [] {
      assert a + b == a;
    } else {
      var k := |b| - 1;
      FromConcat(allowed, s, a, b[..k]);
      assert (a + b)[..|a + b| - 1] == a + b[..k];
    }
  }

  lemma FromOne(allowed: Allowed, s: State, step: Step)
    ensures From(allowed, s, [step]) == if Enabled(s, step) then Some(Apply(allowed, s, step)) else None
  {
    assert [step][..0] == [];
  }

  /** A reload taken apart: it gets the lock, things happen, it has looked at every connection and lets go. */
  lemma ReloadParts(allowed: Allowed, s: State, next: Option<Pipeline>, during: seq<Step>, t: State) returns (m: State)
    requires Fenced(allowed, s) && From(allowed, s, Reload(next, during)) == Some(t)
    ensures s.lock.Free? && Fenced(allowed, Apply(allowed, s, StoreLock(next)))
    ensures From(allowed, Apply(allowed, s, StoreLock(next)), during) == Some(m)
    ensures Enabled(m, StoreUnlock) && t == Apply(allowed, m, StoreUnlock)
  {
    hide Fenced, From, Apply;
    FromConcat(allowed, s, [StoreLock(next)] + during, [StoreUnlock]);
    FromConcat(allowed, s, [StoreLock(next)], during);
    FromOne(allowed, s, StoreLock(next));
    StepKeepsFence(allowed, s, StoreLock(next));
    m := From(allowed, s, [StoreLock(next)] + during).value;
    FromOne(allowed, m, StoreUnlock);
  }

  /** A close was under way when the reload took the lock, on a connection the next pipeline does not allow. */
  predicate Overtaken(allowed: Allowed, s: State, next: Option<Pipeline>, id: Id) {
    UnderWay(s, id) && !Permitted(allowed, next, id)
  }

  lemma LateAfterReload(allowed: Allowed, s: State, next: Option<Pipeline>, during: seq<Step>, t: State, id: Id)
    requires Fenced(allowed, s) && StoreUnlock !in during && From(allowed, s, Reload(next, during)) == Some(t)
    ensures Fenced(allowed, t) && t.lock.Free? && t.pipeline == next
    ensures LateClose(allowed, t, id) <==> Overtaken(allowed, s, next, id) && CloseSocket(id) !in during
  {
    hide Fenced, From;
    var m := ReloadParts(allowed, s, next, during, t);
    WhileReloading(allowed, Apply(allowed, s, StoreLock(next)), next, during, m, id);
    StepKeepsFence(allowed, m, StoreUnlock);
  }

  /**
    * When a reload lets go of the lock, whatever happened meanwhile, revocation is complete exactly when every
    * disallowed connection whose close was under way when it took the lock has had its socket closed.
    */
  lemma ReloadRevokesIff(allowed: Allowed, s: State, next: Option<Pipeline>, during: seq<Step>, t: State)
    requires Fenced(allowed, s) && StoreUnlock !in during && From(allowed, s, Reload(next, during)) == Some(t)
    ensures Revoked(allowed, t) <==> forall id :: Overtaken(allowed, s, next, id) ==> CloseSocket(id) in during
  {
    hide Fenced, From, Revoked, Overtaken, LateClose, Reload;
    LateAfterReload(allowed, s, next, during, t, 0);
    RevokedUnlessClosing(allowed, t);
    if id :| LateClose(allowed, t, id) {
      LateAfterReload(allowed, s, next, during, t, id);
    }
    if id :| Overtaken(allowed, s, next, id) && CloseSocket(id) !in during {
      LateAfterReload(allowed, s, next, during, t, id);
    }
  }

  /** So a reload that overtakes no such close leaves only allowed connections open. */
  lemma StoreRevokes(allowed: Allowed, s: State, next: Option<Pipeline>, during: seq<Step>, t: State)
    requires Fenced(allowed, s) && StoreUnlock !in during && From(allowed, s, Reload(next, during)) == Some(t)
    requires forall id :: !Overtaken(allowed, s, next, id)
    ensures Revoked(allowed, t)
  {
    hide Fenced, From, Revoked, Overtaken, Reload;
    ReloadRevokesIff(allowed, s, next, during, t);
  }

  // ---- who is tracked

  /** The pipeline in force: the one stored last. */
  function LastStored(p: Option<Pipeline>, steps: seq<Step>): Option<Pipeline> {
    if steps == [] then p
    else if steps[|steps| - 1].StoreLock? then steps[|steps| - 1].next
    else LastStored(p, steps[..|steps| - 1])
  }

  /** At step k the connection is admitted by the pipeline then in force. */
  ghost predicate AdmittedAt(allowed: Allowed, p: Option<Pipeline>, steps: seq<Step>, id: Id, k: nat) {
    k < |steps| && steps[k] == TrackDecide(id) && Permitted(allowed, LastStored(p, steps[..k]), id)
  }

  /** At step j it is closed by its owner, or found by a reload that does not allow it. */
  ghost predicate DroppedAt(allowed: Allowed, p: Option<Pipeline>, steps: seq<Step>, id: Id, j: nat) {
    && j < |steps|
    && (|| steps[j] == CloseDelete(id)
        || (steps[j] == StoreVisit(id) && !Permitted(allowed, LastStored(p, steps[..j]), id)))
  }

  /** Admitted at step k and not dropped since. */
  ghost predicate KeptSince(allowed: Allowed, p: Option<Pipeline>, steps: seq<Step>, id: Id, k: nat) {
    AdmittedAt(allowed, p, steps, id, k) && forall j :: k < j ==> !DroppedAt(allowed, p, steps, id, j)
  }

  ghost predicate InForce(allowed: Allowed, p: Option<Pipeline>, steps: seq<Step>, id: Id) {
    exists k :: KeptSince(allowed, p, steps, id, k)
  }

  lemma StepTracks(allowed: Allowed, s: State, step: Step, id: Id)
    requires Enabled(s, step)
    ensures Apply(allowed, s, step).pipeline == if step.StoreLock? then step.next else s.pipeline
    ensures id in Apply(allowed, s, step).tracked <==>
              || (step == TrackDecide(id) && Permitted(allowed, s.pipeline, id))
              || (id in s.tracked && step != CloseDelete(id) &&
                  !(step == StoreVisit(id) && !Permitted(allowed, s.pipeline, id)))
  {
    hide Permitted;
  }

  lemma AdmittedSnoc(allowed: Allowed, p: Option<Pipeline>, steps: seq<Step>, id: Id, k: nat)
    requires steps != []
    ensures var n := |steps| - 1;
            && (k < n ==> (AdmittedAt(allowed, p, steps, id, k) <==> AdmittedAt(allowed, p, steps[..n], id, k)))
            && (k < n ==> (DroppedAt(allowed, p, steps, id, k) <==> DroppedAt(allowed, p, steps[..n], id, k)))
  {
    hide Permitted, LastStored;
    var n := |steps| - 1;
    if k < n {
      assert steps[..n][..k] == steps[..k] && steps[..n][k] == steps[k];
    }
  }

  lemma InForceSnoc(allowed: Allowed, p: Option<Pipeline>, steps: seq<Step>, id: Id)
    requires steps != []
    ensures var n := |steps| - 1;
            InForce(allowed, p, steps, id) <==>
              || AdmittedAt(allowed, p, steps, id, n)
              || (InForce(allowed, p, steps[..n], id) && !DroppedAt(allowed, p, steps, id, n))
  {
    hide AdmittedAt, DroppedAt;
    var n := |steps| - 1;
    forall k: nat
      ensures k < n ==> (AdmittedAt(allowed, p, steps, id, k) <==> AdmittedAt(allowed, p, steps[..n], id, k))
      ensures k < n ==> (DroppedAt(allowed, p, steps, id, k) <==> DroppedAt(allowed, p, steps[..n], id, k))
      ensures k >= n ==> !AdmittedAt(allowed, p, steps[..n], id, k) && !DroppedAt(allowed, p, steps[..n], id, k)
      ensures k > n ==> !AdmittedAt(allowed, p, steps, id, k) && !DroppedAt(allowed, p, steps, id, k)
    {
      AdmittedSnoc(allowed, p, steps, id, k);
      AdmittedInside(allowed, p, steps, id, k);
      AdmittedInside(allowed, p, steps[..n], id, k);
    }
    if AdmittedAt(allowed, p, steps, id, n) {
      assert KeptSince(allowed, p, steps, id, n);
    }
    if InForce(allowed, p, steps[..n], id) && !DroppedAt(allowed, p, steps, id, n) {
      var k :| KeptSince(allowed, p, steps[..n], id, k);
      assert KeptSince(allowed, p, steps, id, k);
    }
    if InForce(allowed, p, steps, id) && !AdmittedAt(allowed, p, steps, id, n) {
      var k :| KeptSince(allowed, p, steps, id, k);
      assert KeptSince(allowed, p, steps[..n], id, k);
    }
  }

  lemma AdmittedInside(allowed: Allowed, p: Option<Pipeline>, steps: seq<Step>, id: Id, k: nat)
    ensures k >= |steps| ==> !AdmittedAt(allowed, p, steps, id, k) && !DroppedAt(allowed, p, steps, id, k)
  {
  }

  /**
    * In every run the connections tracked, which are those live and open, are exactly those admitted by the pipeline in
    * force at the time, and since then neither closed nor found by a reload that does not allow them.
    */
  lemma {:induction false} TrackedMeans(allowed: Allowed, p: Option<Pipeline>, steps: seq<Step>, s: State, id: Id)
    requires After(allowed, p, steps) == Some(s)
    ensures s.pipeline == LastStored(p, steps)
    ensures id in s.tracked <==> InForce(allowed, p, steps, id)
  {
    hide Enabled, Apply, InForce, Permitted;
    if steps == [] {
      NothingInForce(allowed, p, id);
    } else {
      var n := |steps| - 1;
      var t := After(allowed, p, steps[..n]).value;
      TrackedMeans(allowed, p, steps[..n], t, id);
      StepTracks(allowed, t, steps[n], id);
      InForceSnoc(allowed, p, steps, id);
    }
  }

  lemma NothingInForce(allowed: Allowed, p: Option<Pipeline>, id: Id)
    ensures !InForce(allowed, p, [], id)
  {
  }

  /** A reload touches nothing that the next pipeline allows. */
  lemma AllowedIsKept(allowed: Allowed, s: State, id: Id)
    requires Fenced(allowed, s) && s.lock.Storing? && id in s.lock.todo && Permitted(allowed, s.pipeline, id)
    ensures var t := Apply(allowed, s, StoreVisit(id)); id in t.tracked && t.conns == s.conns
  {
    assert id in s.tracked;
  }

  /** The window is real: closing overtaken by a reload leaves a disallowed connection open with the lock free. */
  lemma CloseWindow(allowed: Allowed, p: Pipeline, next: Pipeline, id: Id)
    requires allowed(p, id) && !allowed(next, id)
    ensures exists steps :: After(allowed, Some(p), steps).Some? &&
              BrokenFence(allowed, After(allowed, Some(p), steps).value, next)
  {
    var q := Some(p);
    var steps, s := Extend(allowed, q, [], Init(q), Dial(id));
    steps, s := Extend(allowed, q, steps, s, TrackLock(id));
    steps, s := Extend(allowed, q, steps, s, TrackDecide(id));
    steps, s := Extend(allowed, q, steps, s, CloseLock(id));
    steps, s := Extend(allowed, q, steps, s, CloseDelete(id));
    assert s.tracked == {};
    steps, s := Extend(allowed, q, steps, s, StoreLock(Some(next)));
    steps, s := Extend(allowed, q, steps, s, StoreUnlock);
    assert HandedOut(s, id) && s.conns[id].open;
  }

  lemma Extend(allowed: Allowed, p: Option<Pipeline>, steps: seq<Step>, s: State, step: Step)
    returns (steps': seq<Step>, s': State)
    requires After(allowed, p, steps) == Some(s) && Enabled(s, step)
    ensures After(allowed, p, steps') == Some(s') && s' == Apply(allowed, s, step)
  {
    steps', s' := steps + [step], Apply(allowed, s, step);
    OneMore(allowed, Init(p), steps, s, step);
  }

  /** The next pipeline is in, the lock is free, and yet a connection is open that should not be. */
  ghost predicate BrokenFence(allowed: Allowed, s: State, next: Pipeline) {
    s.pipeline == Some(next) && s.lock.Free? && !Revoked(allowed, s)
  }

  // ---- the code, one call at a time

  /** The pipeline a reload puts out of use, if there was another one before. */
  function Replaced(before: Option<Pipeline>, next: Option<Pipeline>): set<Pipeline> {
    if before.Some? && before != next then {before.value} else {}
  }

  /** What a swap has done to the connections it no longer has to look at, and to no others. */
  ghost predicate Swapped(allowed: Allowed, before: State, next: Option<Pipeline>, todo: set<Id>, tracked: set<Id>,
                          conns: map<Id, Conn>)
  {
    && todo <= tracked <= before.tracked
    && (forall id :: id in before.tracked - todo ==> (id in tracked <==> Permitted(allowed, next, id)))
    && forall id :: id in before.conns && !(id in before.tracked && !Permitted(allowed, next, id)) ==>
         id in conns && conns[id] == before.conns[id]
  }

  lemma SwapNone(allowed: Allowed, before: State, next: Option<Pipeline>)
    ensures Swapped(allowed, before, next, before.tracked, before.tracked, before.conns)
  {
  }

  lemma SwapOne(allowed: Allowed, before: State, next: Option<Pipeline>, todo: set<Id>, tracked: set<Id>,
                conns: map<Id, Conn>, id: Id)
    requires Swapped(allowed, before, next, todo, tracked, conns) && id in todo
    ensures if Permitted(allowed, next, id) then Swapped(allowed, before, next, todo - {id}, tracked, conns)
            else Swapped(allowed, before, next, todo - {id}, tracked - {id}, conns[id := Conn(Live, false)])
  {
    hide Permitted;
  }

  lemma SwapAll(allowed: Allowed, before: State, next: Option<Pipeline>, tracked: set<Id>, conns: map<Id, Conn>)
    requires Swapped(allowed, before, next, {}, tracked, conns)
    ensures tracked == set id | id in before.tracked && Permitted(allowed, next, id)
    ensures forall id :: id in before.conns && !(id in before.tracked && !Permitted(allowed, next, id)) ==>
              id in conns && conns[id] == before.conns[id]
  {
    hide Permitted;
  }

  /** PipelineHolder with the connections dialled through it. Each call is one run of the steps above. */
  class PipelineHolder {
    const allowed: Allowed
    var pipeline: Option<Pipeline>
    var connections: set<Id>
    var conns: map<Id, Conn>
    var closedPipelines: set<Pipeline>

    ghost function View(): State
      reads this
    {
      State(pipeline, connections, Free, conns)
    }

    constructor (allowed: Allowed, p: Option<Pipeline>)
      ensures this.allowed == allowed && View() == Init(p) && Fenced(allowed, View()) && closedPipelines == {}
    {
      this.allowed, pipeline, connections, conns, closedPipelines := allowed, p, {}, map[], {};
    }

    /** Store: the swap under the lock, and then the pipeline that was replaced is closed. */
    method Store(next: Option<Pipeline>) returns (ghost trace: seq<Step>)
      requires Fenced(allowed, View())
      modifies this
      ensures Fenced(allowed, View()) && From(allowed, old(View()), trace) == Some(View())
      ensures pipeline == next && connections == set id | id in old(connections) && Permitted(allowed, next, id)
      ensures forall id :: id in old(conns) && !(id in old(connections) && !Permitted(allowed, next, id)) ==>
                id in conns && conns[id] == old(conns)[id]
      ensures closedPipelines == old(closedPipelines) + Replaced(old(pipeline), next)
    {
      hide Fenced, From;
      var before := pipeline;
      trace := Swap(next);
      if before.Some? && before != next {
        closedPipelines := closedPipelines + {before.value};
      }
    }

    /** What Store does while it holds the lock. */
    method Swap(next: Option<Pipeline>) returns (ghost trace: seq<Step>)
      requires Fenced(allowed, View())
      modifies this
      ensures Fenced(allowed, View()) && From(allowed, old(View()), trace) == Some(View())
      ensures pipeline == next && connections == set id | id in old(connections) && Permitted(allowed, next, id)
      ensures forall id :: id in old(conns) && !(id in old(connections) && !Permitted(allowed, next, id)) ==>
                id in conns && conns[id] == old(conns)[id]
      ensures closedPipelines == old(closedPipelines)
    {
      hide Fenced, From, Swapped, Permitted;
      ghost var s := View();
      SwapNone(allowed, s, next);
      trace := Begin(allowed, s, StoreLock(next));
      s := Apply(allowed, s, StoreLock(next));
      pipeline := next;
      var todo := connections;
      while todo != {}
        invariant s == State(next, connections, Storing(todo), conns) && pipeline == next
        invariant closedPipelines == old(closedPipelines)
        invariant From(allowed, old(View()), trace) == Some(s) && Fenced(allowed, s)
        invariant Swapped(allowed, old(View()), next, todo, connections, conns)
        decreases |todo|
      {
        var id :| id in todo;
        SwapOne(allowed, old(View()), next, todo, connections, conns, id);
        trace, s := Continue(allowed, old(View()), trace, s, StoreVisit(id));
        if !Permitted(allowed, next, id) {
          connections := connections - {id};
          conns := conns[id := Conn(Live, false)];
        }
        todo := todo - {id};
      }
      SwapAll(allowed, old(View()), next, connections, conns);
      trace, s := Continue(allowed, old(View()), trace, s, StoreUnlock);
    }

    /** dialPrivate after a dial that succeeded: track the socket, and close it when admission is refused. */
    method DialPrivate(id: Id) returns (ok: bool, ghost trace: seq<Step>)
      requires Fenced(allowed, View()) && id !in conns
      modifies this
      ensures Fenced(allowed, View()) && From(allowed, old(View()), trace) == Some(View())
      ensures ok <==> Permitted(allowed, pipeline, id)
      ensures pipeline == old(pipeline) && connections == old(connections) + if ok then {id} else {}
      ensures closedPipelines == old(closedPipelines)
      ensures id in conns && conns[id] == if ok then Conn(Live, true) else Conn(Gone, false)
    {
      hide Fenced, From;
      ghost var s := View();
      trace := Begin(allowed, s, Dial(id));
      conns := conns[id := Conn(Dialed, true)];
      s := Apply(allowed, s, Dial(id));
      trace, s := Continue(allowed, old(View()), trace, s, TrackLock(id));
      trace, s := Continue(allowed, old(View()), trace, s, TrackDecide(id));
      ok := pipeline.Some? && allowed(pipeline.value, id);
      if ok {
        connections := connections + {id};
        conns := conns[id := Conn(Live, true)];
      } else {
        conns := conns[id := Conn(Refused, true)];
        trace, s := Continue(allowed, old(View()), trace, s, CloseRefused(id));
        conns := conns[id := Conn(Gone, false)];
      }
    }

    /** privateConnection.Close, which may be called again. */
    method Close(id: Id) returns (ghost trace: seq<Step>)
      requires Fenced(allowed, View()) && HandedOut(View(), id)
      modifies this
      ensures Fenced(allowed, View()) && From(allowed, old(View()), trace) == Some(View())
      ensures pipeline == old(pipeline) && connections == old(connections) - {id} &&
                conns == old(conns)[id := Conn(Gone, false)]
      ensures closedPipelines == old(closedPipelines)
    {
      hide Fenced, From;
      ghost var s := View();
      trace := Begin(allowed, s, CloseLock(id));
      s := Apply(allowed, s, CloseLock(id));
      trace, s := Continue(allowed, old(View()), trace, s, CloseDelete(id));
      connections := connections - {id};
      trace, s := Continue(allowed, old(View()), trace, s, CloseSocket(id));
      conns := conns[id := Conn(Gone, false)];
      assert s.conns == conns;
    }
  }

  lemma Begin(allowed: Allowed, s: State, step: Step) returns (trace: seq<Step>)
    requires Fenced(allowed, s) && Enabled(s, step)
    ensures From(allowed, s, trace) == Some(Apply(allowed, s, step)) && Fenced(allowed, Apply(allowed, s, step))
  {
    trace := [] + [step];
    OneMore(allowed, s, [], s, step);
    StepKeepsFence(allowed, s, step);
  }

  lemma Continue(allowed: Allowed, s0: State, trace: seq<Step>, s: State, step: Step)
    returns (trace': seq<Step>, s': State)
    requires From(allowed, s0, trace) == Some(s) && Fenced(allowed, s) && Enabled(s, step)
    ensures From(allowed, s0, trace') == Some(s') && s' == Apply(allowed, s, step) && Fenced(allowed, s')
  {
    trace', s' := trace + [step], Apply(allowed, s, step);
    OneMore(allowed, s0, trace, s, step);
    StepKeepsFence(allowed, s, step);
  }
}
