/**
  * The judge's circuit breaker. Calls are allowed and settled by many requests at once; a permit may be settled long
  * after the breaker has moved on. Both operations run under the breaker's lock.
  */
module Breaker {

  datatype Phase = Closed | Open | HalfOpen

  /** A permit that was given out: whether as a probe, and whether its one settlement has happened. */
  datatype Permit = Permit(probe: bool, settled: bool)

  datatype State = State(phase: Phase, failures: nat, openedAt: int, probing: bool, permits: seq<Permit>)

  datatype Config = Config(threshold: nat, cooldown: int)

  /** A call asks to be allowed, or the holder of a permit settles it; each reads the clock. */
  datatype Event = Allow(now: int) | Settle(permit: nat, success: bool, at: int)

  const START := State(Closed, 0, 0, false, [])

  const DEFAULT_FAILURES: nat := 5
  const DEFAULT_COOLDOWN: int := 10_000_000_000

  /** newCircuitBreaker. */
  function NewConfig(failures: int, cooldown: int): (c: Config)
    ensures c.threshold > 0 && c.cooldown > 0
    ensures failures > 0 ==> c.threshold == failures
    ensures cooldown > 0 ==> c.cooldown == cooldown
  {
    Config(if failures <= 0 then DEFAULT_FAILURES else failures, if cooldown <= 0 then DEFAULT_COOLDOWN else cooldown)
  }

  predicate Granted(c: Config, s: State, now: int) {
    match s.phase
    case Closed => true
    case Open => now - s.openedAt >= c.cooldown
    case HalfOpen => !s.probing
  }

  /** allow. */
  function Allowed(c: Config, s: State, now: int): State {
    if !Granted(c, s, now) then s
    else if s.phase.Closed? then s.(permits := s.permits + [Permit(false, false)])
    else s.(phase := HalfOpen, probing := true, permits := s.permits + [Permit(true, false)])
  }

  /** The body of a permit. */
  function Settled(c: Config, s: State, probe: bool, success: bool, now: int): State {
    var t := if probe then s.(probing := false) else s;
    if success then t.(failures := 0, phase := Closed, openedAt := 0)
    else if probe then t.(phase := Open, openedAt := now)
    else if s.failures + 1 >= c.threshold then t.(failures := s.failures + 1, phase := Open, openedAt := now)
    else t.(failures := s.failures + 1)
  }

  /** A permit works once. */
  function Apply(c: Config, s: State, e: Event): State {
    match e
    case Allow(now) => Allowed(c, s, now)
    case Settle(i, success, now) =>
      if i >= |s.permits| || s.permits[i].settled then s
      else Settled(c, s, s.permits[i].probe, success, now).(permits := s.permits[i := s.permits[i].(settled := true)])
  }

  function Run(c: Config, es: seq<Event>): State {
    if es == [] then START else Apply(c, Run(c, es[..|es| - 1]), es[|es| - 1])
  }

  // ---- what every run keeps

  predicate Sound(c: Config, s: State) {
    && (s.phase.HalfOpen? ==> s.probing)
    && (s.phase.Closed? ==> s.failures < c.threshold)
  }

  lemma {:induction false} AlwaysSound(c: Config, es: seq<Event>)
    requires c.threshold > 0
    ensures Sound(c, Run(c, es))
  {
    if es != [] {
      AlwaysSound(c, es[..|es| - 1]);
    }
  }

  /** Whether the call made by the last event was given a permit. */
  predicate GivesPermit(c: Config, es: seq<Event>)
    requires es != []
  {
    |Run(c, es).permits| > |Run(c, es[..|es| - 1]).permits|
  }

  /** Settling a permit again changes nothing, however late. */
  lemma {:induction false} SettledOnce(c: Config, es: seq<Event>, later: seq<Event>, i: nat, success: bool, now: int)
    requires i < |Run(c, es).permits| && Run(c, es).permits[i].settled
    ensures i < |Run(c, es + later).permits| && Run(c, es + later).permits[i].settled
    ensures Run(c, es + later + [Settle(i, success, now)]) == Run(c, es + later)
  {
    assert (es + later + [Settle(i, success, now)])[..|es + later|] == es + later;
    if later == [] {
      assert es + later == es;
    } else {
      var k := |later| - 1;
      assert (es + later)[..|es| + k] == es + later[..k];
      SettledOnce(c, es, later[..k], i, success, now);
      ApplyKeepsSettled(c, Run(c, es + later[..k]), later[k], i);
    }
  }

  lemma ApplyKeepsSettled(c: Config, s: State, e: Event, i: nat)
    requires i < |s.permits| && s.permits[i].settled
    ensures i < |Apply(c, s, e).permits| && Apply(c, s, e).permits[i].settled
  {
  }

  // ---- what failures counts

  predicate TakesEffect(s: State, e: Event) {
    e.Settle? && e.permit < |s.permits| && !s.permits[e.permit].settled
  }

  /** Ordinary calls that failed since the last success. */
  function FailuresInARow(c: Config, es: seq<Event>): nat {
    if es == [] then 0
    else
      var s, e := Run(c, es[..|es| - 1]), es[|es| - 1];
      if !TakesEffect(s, e) then FailuresInARow(c, es[..|es| - 1])
      else if e.success then 0
      else FailuresInARow(c, es[..|es| - 1]) + if s.permits[e.permit].probe then 0 else 1
  }

  lemma {:induction false} FailuresAreCounted(c: Config, es: seq<Event>)
    ensures Run(c, es).failures == FailuresInARow(c, es)
  {
    if es != [] {
      FailuresAreCounted(c, es[..|es| - 1]);
    }
  }

  /**
    * A closed breaker opens exactly at the failure that completes a row of threshold failures, or at a failed late
    * probe.
    */
  lemma Opens(c: Config, es: seq<Event>, e: Event)
    requires c.threshold > 0 && Run(c, es).phase.Closed?
    ensures var s := Run(c, es);
            Run(c, es + [e]).phase.Open? <==>
              TakesEffect(s, e) && !e.success && (s.permits[e.permit].probe || FailuresInARow(c, es) + 1 >= c.threshold)
  {
    assert (es + [e])[..|es|] == es;
    FailuresAreCounted(c, es);
  }

  /** A failure that opens the breaker, or keeps it open: of a probe, or one that completes a row. */
  predicate FailsOpen(c: Config, es: seq<Event>, e: Event) {
    && TakesEffect(Run(c, es), e) && !e.success
    && (Run(c, es).permits[e.permit].probe || FailuresInARow(c, es) + 1 >= c.threshold)
  }

  /** When the latest such failure happened. */
  function LastOpened(c: Config, es: seq<Event>): int {
    if es == [] then 0
    else
      var n := |es| - 1;
      if FailsOpen(c, es[..n], es[n]) then es[n].at else LastOpened(c, es[..n])
  }

  /** While open or half open the cooldown runs from the latest failure that opened it. */
  lemma {:induction false} CooldownRuns(c: Config, es: seq<Event>)
    ensures !Run(c, es).phase.Closed? ==> Run(c, es).openedAt == LastOpened(c, es)
  {
    if es != [] {
      CooldownRuns(c, es[..|es| - 1]);
      FailuresAreCounted(c, es[..|es| - 1]);
    }
  }

  /** What a settlement that takes effect makes of the breaker: a success closes it, such a failure opens it. */
  lemma PhaseAfter(c: Config, es: seq<Event>, e: Event)
    requires TakesEffect(Run(c, es), e)
    ensures Run(c, es + [e]).phase ==
            if e.success then Closed else if FailsOpen(c, es, e) then Open else Run(c, es).phase
  {
    assert (es + [e])[..|es|] == es;
    FailuresAreCounted(c, es);
  }

  /**
    * Over every run a call is let through exactly when the breaker is closed or the cooldown has passed since the
    * failure that opened it.
    */
  lemma LetThrough(c: Config, es: seq<Event>, now: int)
    requires c.threshold > 0
    ensures var s, t := Run(c, es), Run(c, es + [Allow(now)]);
            && (GivesPermit(c, es + [Allow(now)]) <==>
                 s.phase.Closed? || (s.phase.Open? && now - LastOpened(c, es) >= c.cooldown))
            && (s.phase.Open? && GivesPermit(c, es + [Allow(now)]) <==> !s.phase.HalfOpen? && t.phase.HalfOpen?)
            && (GivesPermit(c, es + [Allow(now)]) ==> t.permits == s.permits + [Permit(s.phase.Open?, false)])
  {
    assert (es + [Allow(now)])[..|es|] == es;
    AlwaysSound(c, es);
    CooldownRuns(c, es);
  }

  // ---- how many probes can be out

  function ProbesOut(permits: seq<Permit>): nat {
    if permits == [] then 0
    else
      var p := permits[|permits| - 1];
      ProbesOut(permits[..|permits| - 1]) + if p.probe && !p.settled then 1 else 0
  }

  /**
    * A permit given out before the probe is settled while half open, by a success or by a failure that completes a row.
    */
  predicate Stale(c: Config, s: State, e: Event) {
    && s.phase.HalfOpen? && TakesEffect(s, e) && !s.permits[e.permit].probe
    && (e.success || s.failures + 1 >= c.threshold)
  }

  predicate StaleAt(c: Config, es: seq<Event>, k: nat)
    requires k < |es|
  {
    Stale(c, Run(c, es[..k]), es[k])
  }

  ghost predicate NoneStale(c: Config, es: seq<Event>) {
    forall k :: 0 <= k < |es| ==> !StaleAt(c, es, k)
  }

  /** A probe is out exactly while the breaker is half open, and then only one. */
  predicate OneProbe(s: State) {
    ProbesOut(s.permits) == if s.phase.HalfOpen? then 1 else 0
  }

  predicate OneProbeAt(c: Config, es: seq<Event>, k: nat)
    requires k <= |es|
  {
    OneProbe(Run(c, es[..k]))
  }

  ghost predicate AlwaysOneProbe(c: Config, es: seq<Event>) {
    forall k :: 0 <= k <= |es| ==> OneProbeAt(c, es, k)
  }

  lemma ProbesOutSnoc(permits: seq<Permit>, p: Permit)
    ensures ProbesOut(permits + [p]) == ProbesOut(permits) + if p.probe && !p.settled then 1 else 0
  {
    assert (permits + [p])[..|permits|] == permits;
  }

  lemma {:induction false} ProbesOutSettle(permits: seq<Permit>, i: nat)
    requires i < |permits| && !permits[i].settled
    ensures ProbesOut(permits[i := permits[i].(settled := true)])
              == ProbesOut(permits) - if permits[i].probe then 1 else 0
  {
    var n, after := |permits| - 1, permits[i := permits[i].(settled := true)];
    if i < n {
      ProbesOutSettle(permits[..n], i);
      assert after[..n] == permits[..n][i := permits[i].(settled := true)];
    } else {
      assert after[..n] == permits[..n];
    }
  }

  /** From a state with its one probe, a step keeps it so exactly when it is not a stale settlement. */
  lemma StepKeepsOneProbe(c: Config, s: State, e: Event)
    requires Sound(c, s) && OneProbe(s)
    ensures OneProbe(Apply(c, s, e)) <==> !Stale(c, s, e)
  {
    hide ProbesOut;
    match e
    case Allow(now) => ProbesOutSnoc(s.permits, Permit(s.phase.Open?, false));
    case Settle(i, _, _) =>
      if TakesEffect(s, e) {
        if s.permits[i].probe {
          CountsAtLeast(s.permits, i);
        }
        ProbesOutSettle(s.permits, i);
      }
  }

  lemma {:induction false} CountsAtLeast(permits: seq<Permit>, i: nat)
    requires i < |permits| && permits[i].probe && !permits[i].settled
    ensures ProbesOut(permits) > 0
  {
    if i < |permits| - 1 {
      CountsAtLeast(permits[..|permits| - 1], i);
    }
  }

  /** A run has a probe out exactly while half open, and then only one, if and only if no settlement in it is stale. */
  lemma {:induction false} SingleProbe(c: Config, es: seq<Event>)
    requires c.threshold > 0
    ensures AlwaysOneProbe(c, es) <==> NoneStale(c, es)
  {
    hide OneProbe, Apply, AlwaysOneProbe, NoneStale, Stale;
    if es == [] {
      AtStart(c);
    } else {
      var k := |es| - 1;
      SingleProbe(c, es[..k]);
      ProbePrefixes(c, es);
      StalePrefixes(c, es);
      AlwaysSound(c, es[..k]);
      if OneProbe(Run(c, es[..k])) {
        StepKeepsOneProbe(c, Run(c, es[..k]), es[k]);
        assert OneProbe(Run(c, es)) <==> !StaleAt(c, es, k);
      }
    }
  }

  lemma ProbePrefixes(c: Config, es: seq<Event>)
    requires es != []
    ensures var k := |es| - 1;
            && (AlwaysOneProbe(c, es) <==> AlwaysOneProbe(c, es[..k]) && OneProbe(Run(c, es)))
            && (AlwaysOneProbe(c, es[..k]) ==> OneProbe(Run(c, es[..k])))
  {
    hide OneProbe, Run, OneProbeAt;
    var k := |es| - 1;
    forall j | 0 <= j <= k
      ensures OneProbeAt(c, es[..k], j) == OneProbeAt(c, es, j)
    {
      ProbePrefix(c, es, j, k);
    }
    OneProbeNow(c, es);
    OneProbeNow(c, es[..k]);
  }

  lemma ProbePrefix(c: Config, es: seq<Event>, j: nat, k: nat)
    requires j <= k <= |es|
    ensures OneProbeAt(c, es[..k], j) == OneProbeAt(c, es, j)
  {
    hide OneProbe, Run;
    assert es[..k][..j] == es[..j];
  }

  lemma OneProbeNow(c: Config, es: seq<Event>)
    ensures OneProbeAt(c, es, |es|) == OneProbe(Run(c, es))
  {
    hide OneProbe, Run;
    assert es[..|es|] == es;
  }

  lemma StalePrefixes(c: Config, es: seq<Event>)
    requires es != []
    ensures var k := |es| - 1; NoneStale(c, es) <==> NoneStale(c, es[..k]) && !StaleAt(c, es, k)
  {
    hide StaleAt;
    var k := |es| - 1;
    forall j | 0 <= j < k
      ensures StaleAt(c, es[..k], j) == StaleAt(c, es, j)
    {
      StalePrefix(c, es, j, k);
    }
  }

  lemma StalePrefix(c: Config, es: seq<Event>, j: nat, k: nat)
    requires j < k <= |es|
    ensures StaleAt(c, es[..k], j) == StaleAt(c, es, j)
  {
    assert es[..k][..j] == es[..j];
  }

  lemma AtStart(c: Config)
    ensures AlwaysOneProbe(c, []) && NoneStale(c, [])
  {
    var es: seq<Event> := [];
    assert forall k :: 0 <= k <= |es| ==> es[..k] == es;
  }

  /** Ordinary permits, of which the first i have been settled. */
  function Ordinary(n: nat, i: nat): (permits: seq<Permit>)
    ensures |permits| == n
  {
    seq(n, k => Permit(false, k < i))
  }

  lemma {:induction false} OrdinaryAreNoProbes(permits: seq<Permit>)
    requires forall k :: 0 <= k < |permits| ==> !permits[k].probe
    ensures ProbesOut(permits) == 0
  {
    if permits != [] {
      OrdinaryAreNoProbes(permits[..|permits| - 1]);
    }
  }

  /** Any number of calls can be under way while the breaker is closed. */
  lemma {:induction false} CallsUnderWay(c: Config, n: nat) returns (es: seq<Event>)
    ensures Run(c, es) == START.(permits := Ordinary(n, 0))
  {
    if n == 0 {
      es := [];
    } else {
      var init := CallsUnderWay(c, n - 1);
      var s;
      es, s := Extend(c, init, Run(c, init), Allow(0));
      assert Ordinary(n, 0) == Ordinary(n - 1, 0) + [Permit(false, false)];
    }
  }

  /** And fewer than threshold of them can fail before it opens. */
  lemma {:induction false} SomeFail(c: Config, n: nat, i: nat) returns (es: seq<Event>)
    requires i <= n && i < c.threshold
    ensures Run(c, es) == State(Closed, i, 0, false, Ordinary(n, i))
  {
    if i == 0 {
      es := CallsUnderWay(c, n);
    } else {
      var init := SomeFail(c, n, i - 1);
      var s;
      es, s := Extend(c, init, Run(c, init), Settle(i - 1, false, 0));
      assert Ordinary(n, i) == Ordinary(n, i - 1)[i - 1 := Permit(false, true)];
    }
  }

  /** Whatever the threshold, a stale failure can put two probes out at once. */
  lemma TwoProbes(c: Config)
    requires c.threshold > 0
    ensures exists es :: ProbesOut(Run(c, es).permits) == 2
  {
    hide ProbesOut;
    var t, probe := c.threshold, Permit(true, false);
    var es := SomeFail(c, t + 1, t - 1);
    var s := Run(c, es);
    es, s := Extend(c, es, s, Settle(t - 1, false, 0));
    assert s.phase.Open? && s.openedAt == 0 && s.failures == t && |s.permits| == t + 1;
    es, s := Extend(c, es, s, Allow(c.cooldown));
    assert s.phase.HalfOpen? && s.failures == t && |s.permits| == t + 2 && s.permits[t] == Permit(false, false);
    es, s := Extend(c, es, s, Settle(t, false, c.cooldown));
    assert s.phase.Open? && s.openedAt == c.cooldown;
    var plain := s.permits[..t + 1];
    assert s.permits == plain + [probe];
    es, s := Extend(c, es, s, Allow(2 * c.cooldown));
    OrdinaryAreNoProbes(plain);
    ProbesOutSnoc(plain, probe);
    ProbesOutSnoc(plain + [probe], probe);
  }

  lemma Extend(c: Config, es: seq<Event>, s: State, e: Event) returns (es': seq<Event>, s': State)
    requires Run(c, es) == s
    ensures Run(c, es') == s' && s' == Apply(c, s, e)
  {
    es', s' := es + [e], Apply(c, s, e);
    assert es'[..|es|] == es;
  }

  // ---- the code

  /** circuitBreaker. */
  class CircuitBreaker {
    const config: Config
    var phase: Phase
    var failures: nat
    var openedAt: int
    var halfOpenInUse: bool
    var permits: seq<Permit>

    ghost function View(): State
      reads this
    {
      State(phase, failures, openedAt, halfOpenInUse, permits)
    }

    constructor (failures: int, cooldown: int)
      ensures View() == START && config == NewConfig(failures, cooldown)
    {
      config := NewConfig(failures, cooldown);
      phase, this.failures, openedAt, halfOpenInUse, permits := Closed, 0, 0, false, [];
    }

    /** allow; the permit is its number. */
    method Allow(now: int) returns (permit: nat, ok: bool)
      modifies this
      ensures View() == Allowed(config, old(View()), now)
      ensures ok <==> Granted(config, old(View()), now)
      ensures ok ==> permit == |old(permits)| && |permits| == permit + 1
    {
      permit := |permits|;
      match phase
      case Closed =>
        permits := permits + [Permit(false, false)];
        return permit, true;
      case Open =>
        if now - openedAt < config.cooldown {
          return permit, false;
        }
        phase := HalfOpen;
        halfOpenInUse := true;
        permits := permits + [Permit(true, false)];
        return permit, true;
      case HalfOpen =>
        if halfOpenInUse {
          return permit, false;
        }
        halfOpenInUse := true;
        permits := permits + [Permit(true, false)];
        return permit, true;
    }

    /** A permit being settled. */
    method Settle(permit: nat, success: bool, now: int)
      requires permit < |permits|
      modifies this
      ensures View() == Apply(config, old(View()), Event.Settle(permit, success, now))
    {
      if permits[permit].settled {
        return;
      }
      var halfOpen := permits[permit].probe;
      permits := permits[permit := permits[permit].(settled := true)];
      if halfOpen {
        halfOpenInUse := false;
      }
      if success {
        failures := 0;
        phase := Closed;
        openedAt := 0;
        return;
      }
      if halfOpen {
        phase := Open;
        openedAt := now;
        return;
      }
      failures := failures + 1;
      if failures >= config.threshold {
        phase := Open;
        openedAt := now;
      }
    }
  }
}
