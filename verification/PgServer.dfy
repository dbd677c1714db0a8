/**
  * A server that executes what reached it. Whatever it has learned it may run at any time and as often as it likes:
  * texts sent or prepared, the statements in them, routines they define, the bodies of those, and SQL embedded there,
  * at any depth of calls. A setting changes only by a construct that is executed. Such a server meets the premise of
  * the session theorems, so they hold of it.
  */
module PgServer {
  import opened SqlAst
  import opened SqlPolicy
  import opened PgRelay
  import opened PgSession

  /** A text, one of its statements, a tree, the body of a routine, a part of one, or code nobody can inspect. */
  datatype Code =
    | Text(sql: string)
    | Stmt(sql: string, stmt: RawStmt)
    | Tree(node: Node)
    | Body(sql: string, stmt: RawStmt)
    | Part(value: Json, bound: nat)
    | Anything

  // ---- what leads to what

  ghost predicate TextEnters(env: Env, sql: string, c: Code) {
    !Opaque(env, sql) && exists i :: 0 <= i < |env.parse(sql).value| && c == Stmt(sql, env.parse(sql).value[i])
  }

  ghost predicate StmtEnters(sql: string, s: RawStmt, c: Code) {
    match s.stmt
    case Some(DoBlock) => c == Anything
    case Some(Plain(root)) => c == Tree(root)
    case Some(CreateFunction(root, _, _)) => c == Tree(root) || c == Body(sql, s)
    case _ => false
  }

  /** A nested text that cannot be inspected may be anything. */
  ghost predicate NestedEnters(env: Env, sql: string, c: Code) {
    c == if Opaque(env, sql) then Anything else Text(sql)
  }

  ghost predicate BodyEnters(env: Env, sql: string, s: RawStmt, c: Code) {
    && s.stmt.Some? && s.stmt.value.CreateFunction?
    && match StringOption(env, s.stmt.value.options, "language")
       case None => c == Anything
       case Some(language) =>
         if env.equalFold(language, "plpgsql") then
           var tree := env.plpgsql(RawSql(sql, s));
           c == if tree.None? then Anything else Part(tree.value, env.size(sql))
         else if !env.equalFold(language, "sql") then c == Anything
         else
           && !s.stmt.value.sqlBody
           && match StringOption(env, s.stmt.value.options, "as")
              case None => c == Anything
              case Some(body) => NestedEnters(env, body, c)
  }

  ghost predicate FieldEnters(env: Env, key: string, item: Json, n: nat, c: Code) {
    if RunsDynamicSql(key) then c == Anything
    else if key == "PLpgSQL_expr" then
      match EmbeddedSql(env, item)
      case Malformed => c == Anything
      case TypeName => false
      case Sql(text) => NestedEnters(env, text, c)
    else c == Part(item, n)
  }

  ghost predicate PartEnters(env: Env, v: Json, n: nat, c: Code) {
    match v
    case Arr(items) => exists i :: 0 <= i < |items| && c == Part(items[i], n)
    case Obj(fields) => exists i :: 0 <= i < |fields| && FieldEnters(env, fields[i].0, fields[i].1, n, c)
    case _ => false
  }

  /** What executing, preparing, defining or calling one piece of code may bring up next. */
  ghost predicate Enters(env: Env, from: Code, to: Code) {
    match from
    case Text(sql) => TextEnters(env, sql, to)
    case Stmt(sql, s) => StmtEnters(sql, s, to)
    case Tree(n) => exists i :: 0 <= i < |n.children| && to == Tree(n.children[i])
    case Body(sql, s) => BodyEnters(env, sql, s, to)
    case Part(v, n) => PartEnters(env, v, n, to)
    case Anything => to == Anything
  }

  // ---- what it may change

  ghost predicate Sound(env: Env, c: Code) {
    match c
    case Stmt(sql, s) => StmtShrinks(env, sql, s)
    case Body(sql, s) => s.stmt.Some? && s.stmt.value.CreateFunction? && StmtShrinks(env, sql, s)
    case Part(v, n) => EmbeddedBelow(env, v, n)
    case _ => true
  }

  ghost predicate CodeMayChange(env: Env, p: set<string>, c: Code)
    requires Shrinks(env) && Sound(env, c)
  {
    match c
    case Text(sql) => MayChange(env, p, sql)
    case Stmt(sql, s) => StmtMayChange(env, p, sql, s)
    case Tree(n) => TreeMayChange(env, p, n)
    case Body(sql, s) => BodyMayChange(env, p, sql, s)
    case Part(v, n) => JsonMayChange(env, p, v, n)
    case Anything => true
  }

  /** Nothing that code brings up may change more than the code itself. */
  ghost predicate Passes(env: Env, p: set<string>, from: Code, to: Code)
    requires Shrinks(env)
  {
    Sound(env, from) ==> Sound(env, to) && (CodeMayChange(env, p, to) ==> CodeMayChange(env, p, from))
  }

  lemma TextPasses(env: Env, p: set<string>, sql: string, c: Code)
    requires Shrinks(env) && TextEnters(env, sql, c)
    ensures Passes(env, p, Text(sql), c)
  {
    hide StmtMayChange, StmtShrinks, Opaque;
    assert ShrinksIn(env, sql);
    NotOpaque(env, sql);
  }

  lemma NotOpaque(env: Env, sql: string)
    ensures !Opaque(env, sql) ==> env.parse(sql).Some?
  {
  }

  lemma StmtPasses(env: Env, p: set<string>, sql: string, s: RawStmt, c: Code)
    requires Shrinks(env) && StmtEnters(sql, s, c)
    ensures Passes(env, p, Stmt(sql, s), c)
  {
    hide TreeMayChange, BodyMayChange, StmtShrinks;
  }

  lemma TreePasses(env: Env, p: set<string>, n: Node, i: nat)
    requires Shrinks(env) && i < |n.children|
    ensures Passes(env, p, Tree(n), Tree(n.children[i]))
  {
    hide Changes;
  }

  lemma BodyPasses(env: Env, p: set<string>, sql: string, s: RawStmt, c: Code)
    requires Shrinks(env) && BodyEnters(env, sql, s, c)
    ensures Passes(env, p, Body(sql, s), c)
  {
    hide MayChange, JsonMayChange, Opaque, StringOption, EmbeddedBelow;
  }

  lemma FieldPasses(env: Env, p: set<string>, v: Json, i: nat, n: nat, c: Code)
    requires Shrinks(env) && v.Obj? && i < |v.fields| && FieldEnters(env, v.fields[i].0, v.fields[i].1, n, c)
    requires EmbeddedBelow(env, v, n)
    ensures Sound(env, c) && (CodeMayChange(env, p, c) ==> FieldMayChange(env, p, v, i, n))
  {
    hide MayChange, JsonMayChange, Opaque, EmbeddedSql;
  }

  lemma PartPasses(env: Env, p: set<string>, v: Json, n: nat, c: Code)
    requires Shrinks(env) && PartEnters(env, v, n, c)
    ensures Passes(env, p, Part(v, n), c)
  {
    hide FieldMayChange, FieldEnters, MayChange;
    if EmbeddedBelow(env, v, n) && v.Obj? {
      var i :| 0 <= i < |v.fields| && FieldEnters(env, v.fields[i].0, v.fields[i].1, n, c);
      FieldPasses(env, p, v, i, n, c);
    }
  }

  lemma EntersPasses(env: Env, p: set<string>, from: Code, to: Code)
    requires Shrinks(env) && Enters(env, from, to)
    ensures Passes(env, p, from, to)
  {
    hide Passes, TextEnters, StmtEnters, BodyEnters, PartEnters;
    match from {
      case Text(sql) => TextPasses(env, p, sql, to);
      case Stmt(sql, s) => StmtPasses(env, p, sql, s, to);
      case Tree(n) =>
        var i :| 0 <= i < |n.children| && to == Tree(n.children[i]);
        TreePasses(env, p, n, i);
      case Body(sql, s) => BodyPasses(env, p, sql, s, to);
      case Part(v, n) => PartPasses(env, p, v, n, to);
      case Anything => AnythingPasses(env, p);
    }
  }

  lemma AnythingPasses(env: Env, p: set<string>)
    requires Shrinks(env)
    ensures Passes(env, p, Anything, Anything)
  {
  }

  // ---- the server

  /** The settings in force, and every piece of code the server has come to know. */
  datatype Server = Server(settings: map<string, string>, known: set<Code>)

  datatype Action = Learn(from: Code, to: Code) | Execute(code: Code, settings: map<string, string>)

  predicate SameSetting(name: string, a: map<string, string>, b: map<string, string>) {
    (name in a <==> name in b) && (name in a ==> a[name] == b[name])
  }

  /** What executing one construct may do to the settings; code that cannot be inspected may do anything. */
  ghost predicate Writes(env: Env, c: Code, a: map<string, string>, b: map<string, string>) {
    match c
    case Anything => true
    case Tree(n) => forall name :: !Changes(env, {name}, n) ==> SameSetting(name, a, b)
    case _ => a == b
  }

  ghost predicate Acts(env: Env, s: Server, a: Action, s': Server) {
    match a
    case Learn(from, to) => from in s.known && Enters(env, from, to) && s' == s.(known := s.known + {to})
    case Execute(c, settings) => c in s.known && Writes(env, c, s.settings, settings) && s' == s.(settings := settings)
  }

  /** What the code may change, some text that reached the server may change. */
  ghost predicate Accounted(env: Env, texts: set<string>, c: Code)
    requires Shrinks(env)
  {
    Sound(env, c) && forall p :: CodeMayChange(env, p, c) ==> exists t :: t in texts && MayChange(env, p, t)
  }

  ghost predicate AllAccounted(env: Env, texts: set<string>, known: set<Code>)
    requires Shrinks(env)
  {
    forall c :: c in known ==> Accounted(env, texts, c)
  }

  lemma LearnKeeps(env: Env, texts: set<string>, from: Code, to: Code)
    requires Shrinks(env) && Accounted(env, texts, from) && Enters(env, from, to)
    ensures Accounted(env, texts, to)
  {
    hide CodeMayChange, Enters, MayChange, Sound;
    EntersPasses(env, {}, from, to);
    forall p | CodeMayChange(env, p, to)
      ensures exists t :: t in texts && MayChange(env, p, t)
    {
      EntersPasses(env, p, from, to);
    }
  }

  lemma ChangesOne(env: Env, p: set<string>, n: Node, name: string)
    requires name in p && Changes(env, {name}, n)
    ensures Changes(env, p, n)
  {
    hide MentionsSettings, CallsSetConfig;
  }

  /** Executing known code changes no setting that none of the texts may change. */
  lemma ExecuteEvolves(env: Env, texts: set<string>, c: Code, a: map<string, string>, b: map<string, string>)
    requires Shrinks(env) && Accounted(env, texts, c) && Writes(env, c, a, b)
    ensures Evolves(env, World(a, texts), b)
  {
    hide MayChange, Changes;
    forall p: set<string> | forall t :: t in texts ==> !MayChange(env, p, t)
      ensures Agree(p, a, b)
    {
      assert !CodeMayChange(env, p, c);
      forall name | name in p
        ensures SameSetting(name, a, b)
      {
        if c.Tree? && Changes(env, {name}, c.node) {
          ChangesOne(env, p, c.node, name);
        }
      }
    }
  }

  lemma NothingChanges(env: Env, w: World)
    requires Shrinks(env)
    ensures Evolves(env, w, w.settings)
  {
    hide MayChange;
  }

  // ---- sessions with such a server

  /** The relay, the server and the texts that have reached it. */
  datatype Session = Session(relay: State, server: Server, texts: set<string>)

  datatype Move = Carry(e: Event) | Act(a: Action)

  function AsCode(texts: set<string>): set<Code> {
    set t | t in texts :: Text(t)
  }

  ghost predicate Moves(env: Env, policy: Policy, x: Session, m: Move, x': Session) {
    match m
    case Carry(e) =>
      && x'.relay == Step(policy, x.relay, e)
      && x'.texts == x.texts + Texts(x'.relay.sent)
      && x'.server == x.server.(known := x.server.known + AsCode(Texts(x'.relay.sent)))
    case Act(a) => Acts(env, x.server, a, x'.server) && x' == x.(server := x'.server)
  }

  /** The session as the theorems about sessions see it. */
  function Seen(x: Session): System {
    System(x.relay, World(x.server.settings, x.texts))
  }

  function SeenMove(m: Move, x': Session): SessionEvent {
    match m
    case Carry(e) => Relayed(e)
    case Act(_) => Executed(x'.server.settings)
  }

  lemma TextIsAccounted(env: Env, texts: set<string>, t: string)
    requires Shrinks(env) && t in texts
    ensures Accounted(env, texts, Text(t))
  {
    hide MayChange;
  }

  lemma MoreTexts(env: Env, texts: set<string>, more: set<string>, c: Code)
    requires Shrinks(env) && Accounted(env, texts, c)
    ensures Accounted(env, texts + more, c)
  {
    hide MayChange, CodeMayChange;
    forall p | CodeMayChange(env, p, c)
      ensures exists t :: t in texts + more && MayChange(env, p, t)
    {
      var t :| t in texts && MayChange(env, p, t);
      assert t in texts + more;
    }
  }

  lemma CarryKeeps(env: Env, texts: set<string>, more: set<string>, known: set<Code>)
    requires Shrinks(env) && AllAccounted(env, texts, known)
    ensures AllAccounted(env, texts + more, known + AsCode(more))
  {
    hide Accounted;
    forall c | c in known + AsCode(more)
      ensures Accounted(env, texts + more, c)
    {
      if c in known {
        MoreTexts(env, texts, more, c);
      } else {
        TextIsAccounted(env, texts + more, c.sql);
      }
    }
  }

  /** A move of the session is a step of the session as the theorems see it, and all known code stays accounted for. */
  lemma MoveIsStep(env: Env, policy: Policy, x: Session, m: Move, x': Session)
    requires Shrinks(env) && AllAccounted(env, x.texts, x.server.known) && Moves(env, policy, x, m, x')
    ensures Next(env, policy, Seen(x), SeenMove(m, x'), Seen(x'))
    ensures AllAccounted(env, x'.texts, x'.server.known)
  {
    hide Accounted, Evolves, Enters, Writes, Step;
    match m {
      case Carry(e) => CarryKeeps(env, x.texts, Texts(x'.relay.sent), x.server.known);
      case Act(Learn(from, to)) =>
        LearnKeeps(env, x.texts, from, to);
        NothingChanges(env, Seen(x).world);
      case Act(Execute(c, settings)) => ExecuteEvolves(env, x.texts, c, x.server.settings, settings);
    }
  }

  /** A run of the session: it starts with an idle relay and a server that knows no code. */
  ghost predicate IsSession(env: Env, policy: Policy, settings: map<string, string>, xs: seq<Session>, ms: seq<Move>) {
    && |xs| == |ms| + 1 && xs[0] == Session(START, Server(settings, {}), {})
    && forall k :: 0 <= k < |ms| ==> Moves(env, policy, xs[k], ms[k], xs[k + 1])
  }

  lemma {:induction false} SessionIsAccounted(env: Env, policy: Policy, settings: map<string, string>, xs: seq<Session>,
                                              ms: seq<Move>, k: nat)
    requires Shrinks(env) && IsSession(env, policy, settings, xs, ms) && k < |xs|
    ensures AllAccounted(env, xs[k].texts, xs[k].server.known)
  {
    hide Moves, Accounted;
    if k > 0 {
      SessionIsAccounted(env, policy, settings, xs, ms, k - 1);
      MoveIsStep(env, policy, xs[k - 1], ms[k - 1], xs[k]);
    }
  }

  function SeenRun(xs: seq<Session>): seq<System> {
    seq(|xs|, k requires 0 <= k < |xs| => Seen(xs[k]))
  }

  function SeenMoves(xs: seq<Session>, ms: seq<Move>): seq<SessionEvent>
    requires |xs| == |ms| + 1
  {
    seq(|ms|, k requires 0 <= k < |ms| => SeenMove(ms[k], xs[k + 1]))
  }

  /** Every session with such a server is a run of which the session theorems speak. */
  lemma SessionIsRun(env: Env, policy: Policy, settings: map<string, string>, xs: seq<Session>, ms: seq<Move>)
    requires Shrinks(env) && IsSession(env, policy, settings, xs, ms)
    ensures IsRun(env, policy, World(settings, {}), SeenRun(xs), SeenMoves(xs, ms))
  {
    hide Moves, AllAccounted, Next, Seen, SeenMove;
    SeenStart(settings);
    forall k | 0 <= k < |ms|
      ensures Next(env, policy, SeenRun(xs)[k], SeenMoves(xs, ms)[k], SeenRun(xs)[k + 1])
    {
      SessionIsAccounted(env, policy, settings, xs, ms, k);
      MoveIsStep(env, policy, xs[k], ms[k], xs[k + 1]);
    }
  }

  lemma SeenStart(settings: map<string, string>)
    ensures Seen(Session(START, Server(settings, {}), {})) == System(START, World(settings, {}))
  {
  }

  /**
    * What setup established is in force at every moment of every session: whatever the client sends, and whatever the
    * server runs of what it has learned, prepared statements and routines defined earlier included.
    */
  lemma PinsHoldInServer(env: Env, policy: Policy, settings: seq<Setting>, role: string, start: map<string, string>,
                         xs: seq<Session>, ms: seq<Move>, k: nat)
    requires Shrinks(env) && (forall s :: s != "" ==> env.lower(s) != "") && Acceptable(env, _ => true, settings)
    requires Enforces(env, policy, Names(env, settings)) && Established(env, settings, role, start)
    requires IsSession(env, policy, start, xs, ms) && k < |xs|
    ensures Established(env, settings, role, xs[k].server.settings)
  {
    hide IsSession, IsRun, Established, Acceptable, Enforces;
    SessionLength(env, policy, start, xs, ms);
    SessionIsRun(env, policy, start, xs, ms);
    SetupStaysInForce(env, policy, settings, role, World(start, {}), SeenRun(xs), SeenMoves(xs, ms), k);
  }

  lemma SessionLength(env: Env, policy: Policy, settings: map<string, string>, xs: seq<Session>, ms: seq<Move>)
    requires IsSession(env, policy, settings, xs, ms)
    ensures |xs| == |ms| + 1
  {
  }
}
