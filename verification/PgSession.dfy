/**
  * A whole session: setup establishes the role and the pinned settings, and then the relay runs. In a server whose
  * settings change only through text that reached it, what setup established stays in force to the end.
  */
module PgSession {
  import opened Wrappers
  import opened SqlAst
  import opened SqlClassifier
  import opened SqlPolicy
  import opened PgRelay

  datatype Setting = Setting(name: string, value: string)

  predicate Admissible(env: Env, valid: string -> bool, name: string) {
    name != "" && valid(name) && env.lower(name) != "role" && env.lower(name) != "session_authorization"
  }

  /** The settings an upstream may pin: named, well formed, not the role, and each only once. */
  predicate Acceptable(env: Env, valid: string -> bool, settings: seq<Setting>) {
    && (forall i :: 0 <= i < |settings| ==> Admissible(env, valid, settings[i].name))
    && (forall i, j :: 0 <= i < j < |settings| ==> env.lower(settings[i].name) != env.lower(settings[j].name))
  }

  function Names(env: Env, settings: seq<Setting>): (names: set<string>)
    ensures forall i :: 0 <= i < |settings| ==> env.lower(settings[i].name) in names
  {
    set i | 0 <= i < |settings| :: env.lower(settings[i].name)
  }

  lemma AcceptableSoFar(env: Env, valid: string -> bool, settings: seq<Setting>, k: nat)
    requires k <= |settings|
    ensures Acceptable(env, valid, settings) ==> Acceptable(env, valid, settings[..k])
    ensures k == 0 ==> Acceptable(env, valid, settings[..k]) && Names(env, settings[..k]) == {}
  {
  }

  /** One more setting is acceptable exactly when it is admissible and its name is new. */
  lemma AcceptableStep(env: Env, valid: string -> bool, settings: seq<Setting>, k: nat)
    requires k < |settings| && Acceptable(env, valid, settings[..k])
    ensures var name := settings[k].name;
            Acceptable(env, valid, settings[..k + 1]) <==>
              Admissible(env, valid, name) && env.lower(name) !in Names(env, settings[..k])
    ensures Names(env, settings[..k + 1]) == Names(env, settings[..k]) + {env.lower(settings[k].name)}
  {
    hide Admissible;
    var all, init := settings[..k + 1], settings[..k];
    assert all == init + [settings[k]];
    assert forall i :: 0 <= i < k ==> all[i] == init[i];
  }

  /** compileSettings: the names to pin, or nothing when the settings are refused. */
  method CompileSettings(env: Env, valid: string -> bool, settings: seq<Setting>) returns (pinned: Option<set<string>>)
    ensures pinned.Some? <==> Acceptable(env, valid, settings)
    ensures pinned.Some? ==> pinned.value == Names(env, settings)
  {
    hide Acceptable, Names, Admissible;
    var names: set<string> := {};
    AcceptableSoFar(env, valid, settings, 0);
    for k := 0 to |settings|
      invariant Acceptable(env, valid, settings[..k]) && names == Names(env, settings[..k])
    {
      var name := settings[k].name;
      AcceptableStep(env, valid, settings, k);
      if !Admissible(env, valid, name) || env.lower(name) in names {
        AcceptableSoFar(env, valid, settings, k + 1);
        return None;
      }
      names := names + {env.lower(name)};
    }
    assert settings[..|settings|] == settings;
    return Some(names);
  }

  /** The upstream session: its settings, and the texts that have reached it. */
  datatype World = World(settings: map<string, string>, texts: set<string>)

  /** Setup succeeded: the pinned settings and the role have their values. */
  predicate Established(env: Env, settings: seq<Setting>, role: string, values: map<string, string>) {
    && (forall i :: 0 <= i < |settings| ==>
          env.lower(settings[i].name) in values && values[env.lower(settings[i].name)] == settings[i].value)
    && (role != "" ==> "role" in values && values["role"] == role)
  }

  /** The settings after these have been made, one after the other. */
  function Made(env: Env, settings: seq<Setting>, values: map<string, string>): map<string, string> {
    if settings == [] then values
    else
      var k := |settings| - 1;
      Made(env, settings[..k], values)[env.lower(settings[k].name) := settings[k].value]
  }

  /** Nothing but these settings is touched. */
  lemma {:induction false} MadeElsewhere(env: Env, settings: seq<Setting>, values: map<string, string>, name: string)
    requires name !in Names(env, settings)
    ensures name in Made(env, settings, values) <==> name in values
    ensures name in values ==> Made(env, settings, values)[name] == values[name]
  {
    if settings != [] {
      var k := |settings| - 1;
      NamesSnoc(env, settings);
      MadeElsewhere(env, settings[..k], values, name);
    }
  }

  lemma NamesSnoc(env: Env, settings: seq<Setting>)
    requires settings != []
    ensures Names(env, settings) ==
            Names(env, settings[..|settings| - 1]) + {env.lower(settings[|settings| - 1].name)}
  {
    var init := settings[..|settings| - 1];
    assert forall i :: 0 <= i < |init| ==> init[i] == settings[i];
  }

  /** Names told apart, each setting has its value. */
  lemma {:induction false} MadeEstablishes(env: Env, settings: seq<Setting>, values: map<string, string>, i: nat)
    requires Acceptable(env, _ => true, settings) && i < |settings|
    ensures var name := env.lower(settings[i].name);
            name != "role" && name in Made(env, settings, values) &&
            Made(env, settings, values)[name] == settings[i].value
  {
    var k := |settings| - 1;
    if i < k {
      AcceptableSoFar(env, _ => true, settings, k);
      MadeEstablishes(env, settings[..k], values, i);
    }
  }

  /** applySessionSetup; accepts says which of its requests the server grants, the last being the role. */
  method ApplySessionSetup(env: Env, settings: seq<Setting>, role: string, w: World, accepts: seq<bool>)
    returns (ok: bool, w': World)
    requires |accepts| == |settings| + 1 && Acceptable(env, _ => true, settings)
    ensures ok ==> Established(env, settings, role, w'.settings) && w'.texts == w.texts
    ensures ok ==> forall name :: name !in Names(env, settings) && (role == "" || name != "role") ==>
              (name in w'.settings <==> name in w.settings) &&
              (name in w.settings ==> w'.settings[name] == w.settings[name])
    ensures ok <==> (forall i :: 0 <= i < |settings| ==> accepts[i]) && (role == "" || accepts[|settings|])
  {
    hide Acceptable, Names;
    w' := w;
    assert settings[..0] == [];
    for k := 0 to |settings|
      invariant w'.texts == w.texts && w'.settings == Made(env, settings[..k], w.settings)
      invariant forall i :: 0 <= i < k ==> accepts[i]
    {
      assert settings[..k + 1][..k] == settings[..k];
      if !accepts[k] {
        return false, w';
      }
      var name := env.lower(settings[k].name);
      w' := w'.(settings := w'.settings[name := settings[k].value]);
    }
    assert settings[..|settings|] == settings;
    forall i | 0 <= i < |settings|
      ensures env.lower(settings[i].name) != "role" && env.lower(settings[i].name) in w'.settings
      ensures w'.settings[env.lower(settings[i].name)] == settings[i].value
    {
      MadeEstablishes(env, settings, w.settings, i);
    }
    forall name | name !in Names(env, settings)
      ensures name in w'.settings <==> name in w.settings
      ensures name in w.settings ==> w'.settings[name] == w.settings[name]
    {
      MadeElsewhere(env, settings, w.settings, name);
    }
    if role != "" {
      if !accepts[|settings|] {
        return false, w';
      }
      w' := w'.(settings := w'.settings["role" := role]);
    }
    return true, w';
  }

  // ---- runs

  datatype System = System(relay: State, world: World)

  /** A message passes through the relay, or the server executes something and ends up with other settings. */
  datatype SessionEvent = Relayed(e: Event) | Executed(settings: map<string, string>)

  predicate Agree(p: set<string>, a: map<string, string>, b: map<string, string>) {
    forall name :: name in p ==> (name in a <==> name in b) && (name in a ==> a[name] == b[name])
  }

  /**
    * What none of the texts that reached the server may change, stays as it is, whichever of them run, and how often.
    */
  ghost predicate Evolves(env: Env, w: World, settings: map<string, string>)
    requires Shrinks(env)
  {
    forall p: set<string> :: (forall t :: t in w.texts ==> !MayChange(env, p, t)) ==> Agree(p, w.settings, settings)
  }

  function TextOf(m: Frontend): set<string> {
    if m.Query? || m.Parse? then {m.sql} else {}
  }

  /** The texts among messages. */
  function Texts(sent: seq<Frontend>): set<string> {
    if sent == [] then {} else Texts(sent[..|sent| - 1]) + TextOf(sent[|sent| - 1])
  }

  ghost predicate Next(env: Env, policy: Policy, x: System, e: SessionEvent, x': System)
    requires Shrinks(env)
  {
    match e
    case Relayed(e) =>
      && x'.relay == Step(policy, x.relay, e)
      && x'.world == x.world.(texts := x.world.texts + Texts(x'.relay.sent))
    case Executed(settings) =>
      && x' == x.(world := x.world.(settings := settings))
      && Evolves(env, x.world, settings)
  }

  /** The policy the relay applies is the statement policy for these pins. */
  ghost predicate Enforces(env: Env, policy: Policy, pinned: set<string>)
    requires Shrinks(env)
  {
    forall sql :: policy(sql) == Judge(Classify(env, sql), pinned)
  }

  /** A run: it starts with an idle relay and a server no client text has reached, and every step is a legal one. */
  ghost predicate IsRun(env: Env, policy: Policy, start: World, xs: seq<System>, es: seq<SessionEvent>)
    requires Shrinks(env)
  {
    && |xs| == |es| + 1 && xs[0] == System(START, start) && start.texts == {}
    && forall k :: 0 <= k < |es| ==> Next(env, policy, xs[k], es[k], xs[k + 1])
  }

  /** Everything that went up passed the policy, and nothing else reached the server. */
  ghost predicate Guarded(policy: Policy, x: System) {
    Screened(policy, x.relay.sent) && forall t :: t in x.world.texts ==> policy(t).Allow?
  }

  lemma {:induction false} ScreenedTexts(policy: Policy, sent: seq<Frontend>)
    requires Screened(policy, sent)
    ensures forall t :: t in Texts(sent) ==> policy(t).Allow?
  {
    if sent != [] {
      ScreenedTexts(policy, sent[..|sent| - 1]);
      assert sent[|sent| - 1] in sent;
    }
  }

  lemma StepScreens(policy: Policy, s: State, e: Event)
    requires Screened(policy, s.sent)
    ensures Screened(policy, Step(policy, s, e).sent)
  {
  }

  lemma NextKeeps(env: Env, policy: Policy, pinned: set<string>, x: System, e: SessionEvent, x': System)
    requires Shrinks(env) && "" !in pinned && Enforces(env, policy, pinned) && Guarded(policy, x) &&
              Next(env, policy, x, e, x')
    ensures Guarded(policy, x') && Agree(Protected(pinned), x.world.settings, x'.world.settings)
  {
    hide MayChange, Classify, Judge, Step, Screened;
    match e
    case Relayed(e) =>
      StepScreens(policy, x.relay, e);
      ScreenedTexts(policy, x'.relay.sent);
    case Executed(settings) =>
      forall t | t in x.world.texts
        ensures !MayChange(env, Protected(pinned), t)
      {
        VerdictIsExact(env, t, pinned);
      }
  }

  /** End to end: over every run, from any start, the role and the pinned settings keep the values they started with. */
  lemma {:induction false} PinsHold(env: Env, policy: Policy, pinned: set<string>, start: World, xs: seq<System>,
                                    es: seq<SessionEvent>, k: nat)
    requires Shrinks(env) && "" !in pinned && Enforces(env, policy, pinned) && IsRun(env, policy, start, xs, es) &&
              k < |xs|
    ensures Guarded(policy, xs[k]) && Agree(Protected(pinned), start.settings, xs[k].world.settings)
  {
    hide Next, Enforces;
    if k > 0 {
      PinsHold(env, policy, pinned, start, xs, es, k - 1);
      NextKeeps(env, policy, pinned, xs[k - 1], es[k - 1], xs[k]);
    }
  }

  /** What setup established is in force at every moment of every run that follows. */
  lemma SetupStaysInForce(env: Env, policy: Policy, settings: seq<Setting>, role: string, start: World, xs: seq<System>,
                          es: seq<SessionEvent>, k: nat)
    requires Shrinks(env) && (forall s :: s != "" ==> env.lower(s) != "") && Acceptable(env, _ => true, settings)
    requires Enforces(env, policy, Names(env, settings)) && Established(env, settings, role, start.settings)
    requires IsRun(env, policy, start, xs, es) && k < |xs|
    ensures Established(env, settings, role, xs[k].world.settings)
  {
    hide Enforces, IsRun;
    var pinned := Names(env, settings);
    PinsHold(env, policy, pinned, start, xs, es, k);
    assert forall i :: 0 <= i < |settings| ==> env.lower(settings[i].name) in Protected(pinned);
    assert "role" in Protected(pinned);
  }
}
