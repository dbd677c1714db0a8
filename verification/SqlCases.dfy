/**
  * What the policy says of each construct, read off the messages of a text in the order in which they stand: whether
  * the text is rejected, and the reason given for it.
  */
module SqlCases {
  import opened Wrappers
  import opened SqlAst
  import opened SqlClassifier
  import opened SqlPolicy

  // ---- the messages of a tree, in order

  /** The messages of a tree, each before those in its fields. */
  function Preorder(n: Node): seq<Node>
    decreases n
  {
    [n] + PreorderAll(n.children)
  }

  function PreorderAll(ns: seq<Node>): seq<Node>
    decreases ns
  {
    if ns == [] then [] else Preorder(ns[0]) + PreorderAll(ns[1..])
  }

  lemma {:induction false} PreorderHoldsAll(n: Node, root: Node)
    ensures n in Preorder(root) <==> Occurs(n, root)
    decreases root
  {
    hide Occurs;
    OccursStep(n, root);
    PreorderAllHolds(n, root.children);
  }

  lemma OccursStep(n: Node, root: Node)
    ensures Occurs(n, root) <==> n == root || exists i :: 0 <= i < |root.children| && Occurs(n, root.children[i])
  {
  }

  lemma {:induction false} PreorderAllHolds(n: Node, ns: seq<Node>)
    ensures n in PreorderAll(ns) <==> exists i :: 0 <= i < |ns| && Occurs(n, ns[i])
    decreases ns
  {
    hide Occurs;
    if ns != [] {
      PreorderHoldsAll(n, ns[0]);
      PreorderAllHolds(n, ns[1..]);
      assert forall i :: 0 <= i < |ns[1..]| ==> ns[1..][i] == ns[i + 1];
      assert forall i :: 1 <= i < |ns| ==> ns[i] == ns[1..][i - 1];
    }
  }

  function VisitAll(env: Env, m: Op, ns: seq<Node>): Op
    decreases ns
  {
    if ns == [] then m else VisitAll(env, Visit(env, m, ns[0]), ns[1..])
  }

  lemma {:induction false} VisitConcat(env: Env, m: Op, a: seq<Node>, b: seq<Node>)
    ensures VisitAll(env, m, a + b) == VisitAll(env, VisitAll(env, m, a), b)
    decreases a
  {
    hide Visit;
    if a == [] {
      assert a + b == b;
    } else {
      assert (a + b)[1..] == a[1..] + b;
      VisitConcat(env, Visit(env, m, a[0]), a[1..], b);
    }
  }

  /** The walk visits the messages in that order. */
  lemma {:induction false} WalkVisits(env: Env, m: Op, n: Node)
    ensures Walk(env, m, n) == VisitAll(env, m, Preorder(n))
    decreases n
  {
    hide Visit;
    assert Preorder(n)[1..] == PreorderAll(n.children);
    WalkAllVisits(env, Visit(env, m, n), n.children);
  }

  lemma {:induction false} WalkAllVisits(env: Env, m: Op, ns: seq<Node>)
    ensures WalkAll(env, m, ns) == VisitAll(env, m, PreorderAll(ns))
    decreases ns
  {
    hide Visit;
    if ns != [] {
      WalkVisits(env, m, ns[0]);
      WalkAllVisits(env, Walk(env, m, ns[0]), ns[1..]);
      VisitConcat(env, m, Preorder(ns[0]), PreorderAll(ns[1..]));
    }
  }

  // ---- the kind of each construct, and the reason for it

  /** What a message is for the policy, apart from the settings it names. */
  ghost function KindOf(env: Env, n: Node): OpKind {
    match n.message
    case VariableSet(k, name) =>
      if k == ResetAll then OpOther
      else if env.lower(name) == "role" then (if k == Reset then OpResetRole else OpSetRole)
      else if env.lower(name) == "session_authorization" then
        (if k == Reset then OpResetSessionAuthorization else OpSetSessionAuthorization)
      else OpOther
    case Update(relation) => if relation == Some("pg_settings") then OpSettingsCatalogWrite else OpOther
    case Insert(relation) => if relation == Some("pg_settings") then OpSettingsCatalogWrite else OpOther
    case View => if MentionsSettings(n) then OpSettingsCatalogWrite else OpOther
    case Rule => if MentionsSettings(n) then OpSettingsCatalogWrite else OpOther
    case Define(k) => if k == OtherObject then OpCallbackDefinition else OpOther
    case BindsCallbacks => OpCallbackDefinition
    case FuncCall(names, _) => if CallsSetConfig(env, names) then OpSetConfig else OpOther
    case _ => OpOther
  }

  ghost function FirstKind(env: Env, ns: seq<Node>): OpKind {
    if ns == [] then OpOther else if KindOf(env, ns[0]) != OpOther then KindOf(env, ns[0]) else FirstKind(env, ns[1..])
  }

  function ReasonFor(kind: OpKind): Option<RejectReason> {
    match kind
    case OpSetRole => Some(RejectClientRoleChange)
    case OpResetRole => Some(RejectClientRoleChange)
    case OpSetSessionAuthorization => Some(RejectClientRoleChange)
    case OpResetSessionAuthorization => Some(RejectClientRoleChange)
    case OpSetConfig => Some(RejectSetConfig)
    case OpDoBlock => Some(RejectDoBlock)
    case OpUninspectableRoutine => Some(RejectUninspectableRoutine)
    case OpSettingsCatalogWrite => Some(RejectSettingsCatalogWrite)
    case OpCallbackDefinition => Some(RejectCallbackDefinition)
    case OpOther => None
    case OpEmpty => None
    case OpParseError => None
  }

  predicate ResetsAll(n: Node) {
    n.message.VariableSet? && n.message.setKind == ResetAll
  }

  /** SET, SET LOCAL and RESET of the setting, or set_config with its name as a literal first argument. */
  ghost predicate Sets(env: Env, n: Node, name: string) {
    match n.message
    case VariableSet(k, written) => k != ResetAll && env.lower(written) == name
    case FuncCall(names, args) =>
      CallsSetConfig(env, names) && |args| > 0 && args[0].Some? && env.lower(args[0].value) == name
    case _ => false
  }

  ghost predicate AnySets(env: Env, ns: seq<Node>, names: set<string>) {
    exists n, name :: n in ns && name in names && Sets(env, n, name)
  }

  /** The verdict on messages in order: the first reason, and without one RESET ALL, DISCARD ALL, a pinned setting. */
  ghost function Expected(env: Env, ns: seq<Node>, pinned: set<string>): Verdict {
    if ReasonFor(FirstKind(env, ns)).Some? then Reject(ReasonFor(FirstKind(env, ns)).value)
    else if exists n :: n in ns && ResetsAll(n) then Reject(RejectResetAll)
    else if exists n :: n in ns && n.message == Discard(true) then Reject(RejectDiscardAll)
    else if AnySets(env, ns, pinned) then Reject(RejectPinnedSetting)
    else Allow
  }

  lemma VisitKind(env: Env, m: Op, n: Node)
    ensures Visit(env, m, n).kind == if m.kind == OpOther then KindOf(env, n) else m.kind
  {
    hide ReferencesPgSettings, MentionsSettings, IsSetConfig, CallsSetConfig, ConfigTarget;
    ReferencesMeans(n);
    if n.message.FuncCall? {
      IsSetConfigMeans(env, n.message.names);
    }
  }

  /** The first kind found is kept. */
  lemma {:induction false} VisitAllKind(env: Env, m: Op, ns: seq<Node>)
    ensures VisitAll(env, m, ns).kind == if m.kind == OpOther then FirstKind(env, ns) else m.kind
    decreases ns
  {
    hide Visit, KindOf;
    if ns != [] {
      VisitKind(env, m, ns[0]);
      VisitAllKind(env, Visit(env, m, ns[0]), ns[1..]);
    }
  }

  /** A kind with a reason is rejected for it, whatever else was found. */
  lemma KindDecides(op: Op, pinned: set<string>)
    ensures ReasonFor(op.kind).Some? ==> Judge(op, pinned) == Reject(ReasonFor(op.kind).value)
  {
  }

  lemma VisitFlags(env: Env, m: Op, n: Node)
    ensures Visit(env, m, n).resetAll <==> m.resetAll || ResetsAll(n)
    ensures Visit(env, m, n).discard <==> m.discard || n.message == Discard(true)
  {
    hide ReferencesPgSettings, IsSetConfig, ConfigTarget;
  }

  lemma {:induction false} VisitAllFlags(env: Env, m: Op, ns: seq<Node>)
    ensures VisitAll(env, m, ns).resetAll <==> m.resetAll || exists n :: n in ns && ResetsAll(n)
    ensures VisitAll(env, m, ns).discard <==> m.discard || exists n :: n in ns && n.message == Discard(true)
    decreases ns
  {
    hide Visit, ResetsAll;
    if ns != [] {
      VisitFlags(env, m, ns[0]);
      VisitAllFlags(env, Visit(env, m, ns[0]), ns[1..]);
      assert forall n :: n in ns <==> n == ns[0] || n in ns[1..];
    }
  }

  lemma VisitSettings(env: Env, m: Op, n: Node, name: string)
    requires name != ""
    ensures name in Visit(env, m, n).setGUCs <==> name in m.setGUCs || Sets(env, n, name)
  {
    hide ReferencesPgSettings, IsSetConfig, CallsSetConfig;
    if n.message.FuncCall? {
      IsSetConfigMeans(env, n.message.names);
    }
  }

  lemma {:induction false} VisitAllSettings(env: Env, m: Op, ns: seq<Node>, name: string)
    requires name != ""
    ensures name in VisitAll(env, m, ns).setGUCs <==> name in m.setGUCs || AnySets(env, ns, {name})
    decreases ns
  {
    hide Visit, Sets;
    if ns != [] {
      VisitSettings(env, m, ns[0], name);
      VisitAllSettings(env, Visit(env, m, ns[0]), ns[1..], name);
      AnySetsCons(env, ns, name);
    }
  }

  lemma AnySetsCons(env: Env, ns: seq<Node>, name: string)
    requires ns != []
    ensures AnySets(env, ns, {name}) <==> Sets(env, ns[0], name) || AnySets(env, ns[1..], {name})
  {
    hide Sets;
    assert forall n :: n in ns <==> n == ns[0] || n in ns[1..];
    if Sets(env, ns[0], name) {
      assert ns[0] in ns && name in {name};
    }
    if AnySets(env, ns[1..], {name}) {
      var n :| n in ns[1..] && Sets(env, n, name);
      assert n in ns && name in {name};
    }
  }

  lemma AnyPinned(env: Env, m: Op, ns: seq<Node>, pinned: set<string>)
    requires "" !in pinned && m.setGUCs == []
    ensures var gucs := VisitAll(env, m, ns).setGUCs;
            (exists i :: 0 <= i < |gucs| && gucs[i] in pinned) <==> AnySets(env, ns, pinned)
  {
    hide VisitAll, Sets;
    var gucs := VisitAll(env, m, ns).setGUCs;
    if i :| 0 <= i < |gucs| && gucs[i] in pinned {
      VisitAllSettings(env, m, ns, gucs[i]);
      var n :| n in ns && Sets(env, n, gucs[i]);
      assert n in ns && gucs[i] in pinned;
    }
    if AnySets(env, ns, pinned) {
      var n, name :| n in ns && name in pinned && Sets(env, n, name);
      assert n in ns && name in {name};
      VisitAllSettings(env, m, ns, name);
    }
  }

  /** The verdict on a list of messages is the expected one. */
  lemma VisitedVerdict(env: Env, ns: seq<Node>, pinned: set<string>)
    requires "" !in pinned
    ensures Judge(VisitAll(env, NOTHING, ns), pinned) == Expected(env, ns, pinned)
  {
    hide VisitAll, FirstKind, AnySets, ResetsAll;
    VisitAllKind(env, NOTHING, ns);
    KindDecides(VisitAll(env, NOTHING, ns), pinned);
    VisitAllFlags(env, NOTHING, ns);
    AnyPinned(env, NOTHING, ns, pinned);
  }

  // ---- texts

  /** A statement whose code is all in its tree. */
  predicate AllInTree(s: RawStmt) {
    s.stmt.Some? ==> s.stmt.value.Plain? || s.stmt.value.Transaction?
  }

  function MessagesOf(s: RawStmt): seq<Node> {
    if s.stmt.Some? && s.stmt.value.Plain? then Preorder(s.stmt.value.root) else []
  }

  /** The messages of the statements, one statement after the other. */
  function Messages(stmts: seq<RawStmt>): seq<Node> {
    if stmts == [] then [] else Messages(stmts[..|stmts| - 1]) + MessagesOf(stmts[|stmts| - 1])
  }

  lemma MergeParts(a: Op, b: Op, kind: OpKind, name: string)
    ensures WithKind(Merge(a, b), kind) == Merge(a, WithKind(b, kind))
    ensures WithSetting(Merge(a, b), name) == Merge(a, WithSetting(b, name))
    ensures Merge(a, b).(resetAll := true) == Merge(a, b.(resetAll := true))
    ensures Merge(a, b).(discard := true) == Merge(a, b.(discard := true))
  {
    Assoc(a.setGUCs, b.setGUCs, [name]);
  }

  lemma Assoc<T>(a: seq<T>, b: seq<T>, c: seq<T>)
    ensures a + (b + c) == a + b + c
  {
  }

  lemma MergeVisit(env: Env, a: Op, b: Op, n: Node)
    ensures Visit(env, Merge(a, b), n) == Merge(a, Visit(env, b, n))
  {
    hide ReferencesPgSettings, IsSetConfig, ConfigTarget, Merge, WithKind, WithSetting, RoleKind, DefinesCallbacks;
    MergeParts(a, b, OpSettingsCatalogWrite, "");
    MergeParts(a, b, OpCallbackDefinition, "");
    match n.message
    case VariableSet(k, name) =>
      MergeParts(a, b, OpOther, env.lower(name));
      MergeParts(a, WithSetting(b, env.lower(name)), RoleKind(env.lower(name), k), "");
    case FuncCall(names, args) =>
      MergeParts(a, b, OpOther, ConfigTarget(env, args));
      MergeParts(a, WithSetting(b, ConfigTarget(env, args)), OpSetConfig, "");
    case _ =>
  }

  lemma {:induction false} MergeVisitAll(env: Env, a: Op, b: Op, ns: seq<Node>)
    ensures VisitAll(env, Merge(a, b), ns) == Merge(a, VisitAll(env, b, ns))
    decreases ns
  {
    hide Visit, Merge;
    if ns != [] {
      MergeVisit(env, a, b, ns[0]);
      MergeVisitAll(env, a, Visit(env, b, ns[0]), ns[1..]);
    }
  }

  lemma MergeNothing(a: Op)
    ensures Merge(a, NOTHING) == a
  {
  }

  lemma {:induction false} ClassifyVisits(env: Env, sql: string, stmts: seq<RawStmt>)
    requires Shrinks(env) && forall i :: 0 <= i < |stmts| ==> StmtShrinks(env, sql, stmts[i]) && AllInTree(stmts[i])
    ensures ClassifyAll(env, sql, stmts) == VisitAll(env, NOTHING, Messages(stmts))
  {
    hide StmtShrinks, Merge, Walk, Preorder, VisitAll;
    if stmts == [] {
      NothingVisited(env, NOTHING);
    } else {
      var k := |stmts| - 1;
      var op, s := ClassifyAll(env, sql, stmts[..k]), stmts[k];
      ClassifyVisits(env, sql, stmts[..k]);
      VisitConcat(env, NOTHING, Messages(stmts[..k]), MessagesOf(s));
      MergeNothing(op);
      NothingVisited(env, op);
      if s.stmt.Some? && s.stmt.value.Plain? {
        WalkVisits(env, NOTHING, s.stmt.value.root);
        MergeVisitAll(env, op, NOTHING, Preorder(s.stmt.value.root));
      }
    }
  }

  lemma NothingVisited(env: Env, m: Op)
    ensures VisitAll(env, m, []) == m
  {
  }

  /**
    * For every text whose code is all in its trees, the verdict, with its reason, is read off the messages in their
    * order.
    */
  lemma TextVerdict(env: Env, sql: string, stmts: seq<RawStmt>, pinned: set<string>)
    requires Shrinks(env) && "" !in pinned && Statements(env, sql, stmts)
    requires forall i :: 0 <= i < |stmts| ==> AllInTree(stmts[i])
    ensures Judge(Classify(env, sql), pinned) == Expected(env, Messages(stmts), pinned)
  {
    hide ClassifyAll, VisitAll, Messages, Judge, Expected, StmtShrinks;
    assert ShrinksIn(env, sql);
    ClassifyVisits(env, sql, stmts);
    VisitedVerdict(env, Messages(stmts), pinned);
  }

  /** Such a text is reported as what the first of its messages is that is of a kind; an opaque one as what it lacks. */
  lemma TextKind(env: Env, sql: string, stmts: seq<RawStmt>)
    requires Shrinks(env)
    ensures Statements(env, sql, stmts) && (forall i :: 0 <= i < |stmts| ==> AllInTree(stmts[i])) ==>
              Classify(env, sql).kind == FirstKind(env, Messages(stmts))
    ensures Opaque(env, sql) ==>
              Classify(env, sql).kind == if env.blank(sql) || env.parse(sql).Some? then OpEmpty else OpParseError
  {
    hide ClassifyAll, VisitAll, Messages, StmtShrinks, FirstKind;
    assert ShrinksIn(env, sql);
    if Statements(env, sql, stmts) && forall i :: 0 <= i < |stmts| ==> AllInTree(stmts[i]) {
      ClassifyVisits(env, sql, stmts);
      VisitAllKind(env, NOTHING, Messages(stmts));
    }
  }

  /** The settings such a text is found to write are those that some message of it sets. */
  lemma SettingsWritten(env: Env, sql: string, stmts: seq<RawStmt>, name: string)
    requires Shrinks(env) && name != "" && Statements(env, sql, stmts)
    requires forall i :: 0 <= i < |stmts| ==> AllInTree(stmts[i])
    ensures name in Classify(env, sql).setGUCs <==> exists n :: n in Messages(stmts) && Sets(env, n, name)
  {
    hide ClassifyAll, VisitAll, Messages, Sets, StmtShrinks;
    assert ShrinksIn(env, sql);
    ClassifyVisits(env, sql, stmts);
    VisitAllSettings(env, NOTHING, Messages(stmts), name);
    if n :| n in Messages(stmts) && Sets(env, n, name) {
      assert name in {name};
    }
  }

  // ---- calls

  /** The statement's tree, if it has one, holds the message. */
  ghost predicate Holds(s: RawStmt, n: Node) {
    s.stmt.Some? && (s.stmt.value.Plain? || s.stmt.value.CreateFunction?) && Occurs(n, s.stmt.value.root)
  }

  lemma {:induction false} OccursMayChange(env: Env, p: set<string>, n: Node, root: Node)
    requires Occurs(n, root) && Changes(env, p, n)
    ensures TreeMayChange(env, p, root)
    decreases root
  {
    hide Changes;
    if n != root {
      var i :| 0 <= i < |root.children| && Occurs(n, root.children[i]);
      OccursMayChange(env, p, n, root.children[i]);
    }
  }

  /** One message, at any depth of any statement, is enough for the text to be rejected. */
  lemma OneIsEnough(env: Env, sql: string, stmts: seq<RawStmt>, i: nat, n: Node, pinned: set<string>)
    requires Shrinks(env) && "" !in pinned && Statements(env, sql, stmts) && i < |stmts|
    requires Holds(stmts[i], n) && Changes(env, Protected(pinned), n)
    ensures Judge(Classify(env, sql), pinned).Reject?
  {
    hide Classify, Judge, TreeMayChange, BodyMayChange, Changes, StmtShrinks, Occurs;
    assert ShrinksIn(env, sql);
    VerdictIsExact(env, sql, pinned);
    OccursMayChange(env, Protected(pinned), n, stmts[i].stmt.value.root);
    assert StmtMayChange(env, Protected(pinned), sql, stmts[i]);
  }

  /** A call of set_config is rejected in whatever schema it is called and with whatever arguments. */
  lemma SetConfigIsRejected(env: Env, sql: string, stmts: seq<RawStmt>, i: nat, n: Node, schema: seq<Option<string>>,
                            f: string, args: seq<Option<string>>, pinned: set<string>)
    requires Shrinks(env) && "" !in pinned && Statements(env, sql, stmts) && i < |stmts| && Holds(stmts[i], n)
    requires n.message == FuncCall(schema + [Some(f)], args) && env.equalFold(f, "set_config")
    ensures Judge(Classify(env, sql), pinned).Reject?
  {
    hide Classify, Judge, Holds, Shrinks, Statements;
    OneIsEnough(env, sql, stmts, i, n, pinned);
  }

  /** A message that is a call of something else, or of nothing the policy cares about. */
  predicate Harmless(env: Env, n: Node) {
    || n.message.OtherMessage? || n.message.RangeVar?
    || (n.message.FuncCall? && (n.message.names == [] || n.message.names[|n.message.names| - 1].None?))
    || (n.message.FuncCall? && n.message.names != [] && n.message.names[|n.message.names| - 1].Some? &&
        !env.equalFold(n.message.names[|n.message.names| - 1].value, "set_config"))
  }

  lemma HarmlessMessage(env: Env, n: Node)
    requires Harmless(env, n)
    ensures KindOf(env, n) == OpOther && !ResetsAll(n) && n.message != Discard(true)
    ensures forall name :: !Sets(env, n, name)
  {
    hide CallsSetConfig, MentionsSettings;
    if n.message.FuncCall? {
      IsSetConfigMeans(env, n.message.names);
    }
  }

  lemma {:induction false} HarmlessHasNoKind(env: Env, ns: seq<Node>)
    requires forall n :: n in ns ==> Harmless(env, n)
    ensures FirstKind(env, ns) == OpOther
    ensures forall n :: n in ns ==> !ResetsAll(n) && n.message != Discard(true)
    ensures forall n, name :: n in ns ==> !Sets(env, n, name)
  {
    hide Harmless, KindOf, ResetsAll, Sets;
    if ns != [] {
      assert ns[0] in ns;
      HarmlessMessage(env, ns[0]);
      assert forall n :: n in ns[1..] ==> n in ns;
      HarmlessHasNoKind(env, ns[1..]);
      assert forall n :: n in ns ==> n == ns[0] || n in ns[1..];
    }
  }

  /** Calls of other functions are let through, even where a schema is called set_config. */
  lemma OtherCallsAreAllowed(env: Env, sql: string, stmts: seq<RawStmt>, pinned: set<string>)
    requires Shrinks(env) && "" !in pinned && Statements(env, sql, stmts)
    requires forall i :: 0 <= i < |stmts| ==> AllInTree(stmts[i])
    requires forall n :: n in Messages(stmts) ==> Harmless(env, n)
    ensures Judge(Classify(env, sql), pinned).Allow?
  {
    hide Classify, Judge, Shrinks, Statements, Messages;
    TextVerdict(env, sql, stmts, pinned);
    HarmlessHasNoKind(env, Messages(stmts));
  }

  // ---- the other reasons

  /** A DO block is rejected as one. */
  lemma DoBlockReason(env: Env, sql: string, s: RawStmt, pinned: set<string>)
    requires Shrinks(env) && Statements(env, sql, [s]) && s.stmt == Some(DoBlock)
    ensures Judge(Classify(env, sql), pinned) == Reject(RejectDoBlock)
  {
    hide StmtShrinks;
    assert ShrinksIn(env, sql) && env.parse(sql).value[0] == s;
    OneStatement(env, sql, s);
  }

  lemma OneStatement(env: Env, sql: string, s: RawStmt)
    requires Shrinks(env) && StmtShrinks(env, sql, s) && s.stmt.Some?
    ensures ClassifyAll(env, sql, [s]) == ClassifyStmt(env, sql, s)
  {
    hide StmtShrinks, ClassifyStmt;
    assert [s][..0] == [];
    assert ClassifyAll(env, sql, []) == NOTHING;
  }

  /** A body that cannot be looked into: no language, another one, no text, or a text that does not parse. */
  ghost predicate CannotInspect(env: Env, sql: string, s: RawStmt)
    requires s.stmt.Some? && s.stmt.value.CreateFunction?
  {
    var CreateFunction(_, options, sqlBody) := s.stmt.value;
    match StringOption(env, options, "language")
    case None => true
    case Some(language) =>
      if env.equalFold(language, "plpgsql") then env.plpgsql(RawSql(sql, s)).None?
      else if !env.equalFold(language, "sql") then true
      else
        !sqlBody &&
        var body := StringOption(env, options, "as");
        body.None? || Opaque(env, body.value)
  }

  lemma OpaqueKind(env: Env, sql: string)
    requires Shrinks(env) && Opaque(env, sql)
    ensures Classify(env, sql).kind in {OpEmpty, OpParseError}
  {
  }

  lemma UninspectableKind(env: Env, sql: string, s: RawStmt)
    requires Shrinks(env) && s.stmt.Some? && s.stmt.value.CreateFunction? && StmtShrinks(env, sql, s)
    requires ScanMutations(env, s.stmt.value.root).kind == OpOther && CannotInspect(env, sql, s)
    ensures ClassifyRoutine(env, sql, s).kind == OpUninspectableRoutine
  {
    hide StringOption, Classify, Walk, Opaque;
    var body := StringOption(env, s.stmt.value.options, "as");
    if body.Some? && Opaque(env, body.value) {
      OpaqueKind(env, body.value);
    }
  }

  /** A routine whose body cannot be inspected is rejected as such, unless its definition gives another reason. */
  lemma UninspectableReason(env: Env, sql: string, s: RawStmt, pinned: set<string>)
    requires Shrinks(env) && "" !in pinned && Statements(env, sql, [s]) && s.stmt.Some? && s.stmt.value.CreateFunction?
    requires FirstKind(env, Preorder(s.stmt.value.root)) == OpOther && CannotInspect(env, sql, s)
    ensures Judge(Classify(env, sql), pinned) == Reject(RejectUninspectableRoutine)
  {
    hide StmtShrinks, ClassifyAll, Walk, Preorder, FirstKind, CannotInspect, ClassifyRoutine;
    assert ShrinksIn(env, sql) && env.parse(sql).value[0] == s;
    OneStatement(env, sql, s);
    WalkVisits(env, NOTHING, s.stmt.value.root);
    VisitAllKind(env, NOTHING, Preorder(s.stmt.value.root));
    UninspectableKind(env, sql, s);
  }
}
