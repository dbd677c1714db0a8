/**
  * The verdict on a text, and what it is worth: a text is let through exactly when nothing in it, at any depth of
  * routine bodies and embedded SQL, may change the role or a pinned setting.
  */
module SqlPolicy {
  import opened Wrappers
  import opened SqlAst
  import opened SqlClassifier

  datatype RejectReason =
    | RejectClientRoleChange | RejectDoBlock | RejectPinnedSetting | RejectResetAll | RejectDiscardAll | RejectSetConfig
    | RejectFunctionCall | RejectUninspectableRoutine | RejectSettingsCatalogWrite | RejectCallbackDefinition

  datatype Verdict = Allow | Reject(reason: RejectReason)

  /** The membership loop over the settings written. */
  method WritesPinned(names: seq<string>, pinned: set<string>) returns (found: bool)
    ensures found <==> exists i :: 0 <= i < |names| && names[i] in pinned
  {
    for i := 0 to |names|
      invariant forall j :: 0 <= j < i ==> names[j] !in pinned
    {
      if names[i] in pinned {
        return true;
      }
    }
    return false;
  }

  /** ClassifyClientStatement, given what the classifier found. */
  function Judge(op: Op, pinned: set<string>): Verdict {
    match op.kind
    case OpSetRole => Reject(RejectClientRoleChange)
    case OpSetSessionAuthorization => Reject(RejectClientRoleChange)
    case OpResetRole => Reject(RejectClientRoleChange)
    case OpResetSessionAuthorization => Reject(RejectClientRoleChange)
    case OpSetConfig => Reject(RejectSetConfig)
    case OpDoBlock => Reject(RejectDoBlock)
    case OpUninspectableRoutine => Reject(RejectUninspectableRoutine)
    case OpSettingsCatalogWrite => Reject(RejectSettingsCatalogWrite)
    case OpCallbackDefinition => Reject(RejectCallbackDefinition)
    case _ =>
      if op.resetAll then Reject(RejectResetAll)
      else if op.discard then Reject(RejectDiscardAll)
      else if exists i :: 0 <= i < |op.setGUCs| && op.setGUCs[i] in pinned then Reject(RejectPinnedSetting)
      else Allow
  }

  /** The role and the pinned settings. */
  function Protected(pinned: set<string>): set<string> {
    pinned + {"role", "session_authorization"}
  }

  // ---- what a text may change

  /** n is a message of the tree. */
  ghost predicate Occurs(n: Node, root: Node) {
    n == root || exists i :: 0 <= i < |root.children| && Occurs(n, root.children[i])
  }

  ghost predicate MentionsSettings(root: Node) {
    exists n :: Occurs(n, root) && n.message == RangeVar("pg_settings")
  }

  /** A call of set_config, in whatever schema. */
  ghost predicate CallsSetConfig(env: Env, names: seq<Option<string>>) {
    exists schema: seq<Option<string>>, f: string :: names == schema + [Some(f)] && env.equalFold(f, "set_config")
  }

  /** Whether the message by itself may change a setting of p. */
  ghost predicate Changes(env: Env, p: set<string>, n: Node) {
    match n.message
    case VariableSet(ResetAll, _) => true
    case VariableSet(_, name) => env.lower(name) in p
    case Discard(all) => all
    case Update(relation) => relation == Some("pg_settings")
    case Insert(relation) => relation == Some("pg_settings")
    case View => MentionsSettings(n)
    case Rule => MentionsSettings(n)
    case Define(k) => k == OtherObject
    case BindsCallbacks => true
    case FuncCall(names, _) => CallsSetConfig(env, names)
    case _ => false
  }

  ghost predicate TreeMayChange(env: Env, p: set<string>, n: Node) {
    Changes(env, p, n) || exists i :: 0 <= i < |n.children| && TreeMayChange(env, p, n.children[i])
  }

  /** A nested text in which there is nothing to inspect. */
  predicate Opaque(env: Env, sql: string) {
    env.blank(sql) || env.parse(sql).None? || |env.parse(sql).value| == 0
  }

  /** A text that does not parse changes nothing; one that does may change what any of its statements may. */
  ghost predicate MayChange(env: Env, p: set<string>, sql: string)
    requires Shrinks(env)
    decreases env.size(sql), 4, 0, 0
  {
    assert ShrinksIn(env, sql);
    && !Opaque(env, sql)
    && exists i :: 0 <= i < |env.parse(sql).value| && StmtMayChange(env, p, sql, env.parse(sql).value[i])
  }

  ghost predicate StmtMayChange(env: Env, p: set<string>, sql: string, s: RawStmt)
    requires Shrinks(env) && StmtShrinks(env, sql, s)
    decreases env.size(sql), 2, 0, 0
  {
    match s.stmt
    case None => false
    case Some(Transaction) => false
    case Some(DoBlock) => true
    case Some(CreateFunction(root, _, _)) => TreeMayChange(env, p, root) || BodyMayChange(env, p, sql, s)
    case Some(Plain(root)) => TreeMayChange(env, p, root)
  }

  /** A body in another language, or one that cannot be inspected, may change anything. */
  ghost predicate BodyMayChange(env: Env, p: set<string>, sql: string, s: RawStmt)
    requires Shrinks(env) && s.stmt.Some? && s.stmt.value.CreateFunction? && StmtShrinks(env, sql, s)
    decreases env.size(sql), 1, 0, 0
  {
    var CreateFunction(_, options, sqlBody) := s.stmt.value;
    match StringOption(env, options, "language")
    case None => true
    case Some(language) =>
      if env.equalFold(language, "plpgsql") then
        var tree := env.plpgsql(RawSql(sql, s));
        tree.None? || JsonMayChange(env, p, tree.value, env.size(sql))
      else if !env.equalFold(language, "sql") then true
      else
        !sqlBody &&
        var body := StringOption(env, options, "as");
        body.None? || Opaque(env, body.value) || MayChange(env, p, body.value)
  }

  /** The keys under which the PL/pgSQL parser puts SQL that is put together when it runs. */
  predicate RunsDynamicSql(key: string) {
    key == "PLpgSQL_stmt_dynexecute" || key == "PLpgSQL_stmt_dynfors" || key == "dynquery"
  }

  /** Dynamic SQL may change anything; embedded SQL what its text may. */
  ghost predicate JsonMayChange(env: Env, p: set<string>, value: Json, n: nat)
    requires Shrinks(env) && EmbeddedBelow(env, value, n)
    decreases n, 0, value, 1
  {
    match value
    case Arr(items) => exists i :: 0 <= i < |items| && JsonMayChange(env, p, items[i], n)
    case Obj(fields) => exists i :: 0 <= i < |fields| && FieldMayChange(env, p, value, i, n)
    case _ => false
  }

  ghost predicate FieldMayChange(env: Env, p: set<string>, value: Json, i: nat, n: nat)
    requires Shrinks(env) && EmbeddedBelow(env, value, n) && value.Obj? && i < |value.fields|
    decreases n, 0, value, 0
  {
    var (key, item) := value.fields[i];
    if RunsDynamicSql(key) then true
    else if key == "PLpgSQL_expr" then
      var e := EmbeddedSql(env, item);
      e.Malformed? || (e.Sql? && (Opaque(env, e.text) || MayChange(env, p, e.text)))
    else JsonMayChange(env, p, item, n)
  }

  /** Whether one of the first k fields may. */
  ghost predicate AnyField(env: Env, p: set<string>, value: Json, k: nat, n: nat)
    requires Shrinks(env) && EmbeddedBelow(env, value, n) && value.Obj? && k <= |value.fields|
  {
    exists i :: 0 <= i < k && FieldMayChange(env, p, value, i, n)
  }

  // ---- the verdict is exact

  /** The classifier never reports a kind that would hide a later, rejected one. */
  predicate Clean(op: Op) {
    op.kind != OpEmpty && op.kind != OpParseError
  }

  predicate Rejected(op: Op, pinned: set<string>) {
    Judge(op, pinned).Reject?
  }

  lemma MergeRejects(a: Op, b: Op, pinned: set<string>)
    requires Clean(a) && Clean(b)
    ensures Clean(Merge(a, b))
    ensures Rejected(Merge(a, b), pinned) <==> Rejected(a, pinned) || Rejected(b, pinned)
  {
    var m := Merge(a, b);
    assert forall i :: 0 <= i < |a.setGUCs| ==> m.setGUCs[i] == a.setGUCs[i];
    assert forall i :: 0 <= i < |b.setGUCs| ==> m.setGUCs[|a.setGUCs| + i] == b.setGUCs[i];
  }

  lemma WithSettingRejects(m: Op, name: string, pinned: set<string>)
    requires Clean(m) && "" !in pinned
    ensures Clean(WithSetting(m, name))
    ensures Rejected(WithSetting(m, name), pinned) <==> Rejected(m, pinned) || name in pinned
  {
    var m' := WithSetting(m, name);
    if name != "" {
      assert m'.setGUCs[|m.setGUCs|] == name;
      assert forall i :: 0 <= i < |m.setGUCs| ==> m'.setGUCs[i] == m.setGUCs[i];
    }
  }

  /** The search for pg_settings finds every mention. */
  lemma {:induction false} ReferencesMeans(root: Node)
    ensures ReferencesPgSettings(root) <==> MentionsSettings(root)
  {
    forall i | 0 <= i < |root.children|
      ensures ReferencesPgSettings(root.children[i]) <==> MentionsSettings(root.children[i])
    {
      ReferencesMeans(root.children[i]);
    }
    if ReferencesPgSettings(root) {
      if root.message == RangeVar("pg_settings") {
        assert Occurs(root, root);
      } else {
        var i :| 0 <= i < |root.children| && ReferencesPgSettings(root.children[i]);
        var n :| Occurs(n, root.children[i]) && n.message == RangeVar("pg_settings");
        assert Occurs(n, root);
      }
    }
    if MentionsSettings(root) {
      var n :| Occurs(n, root) && n.message == RangeVar("pg_settings");
      if n != root {
        var i :| 0 <= i < |root.children| && Occurs(n, root.children[i]);
        assert MentionsSettings(root.children[i]);
      }
    }
  }

  /** Only the last name of a call counts. */
  lemma IsSetConfigMeans(env: Env, names: seq<Option<string>>)
    ensures IsSetConfig(env, names) <==> CallsSetConfig(env, names)
  {
    if IsSetConfig(env, names) {
      assert names == names[..|names| - 1] + [Some(names[|names| - 1].value)];
    }
  }

  lemma VisitRejects(env: Env, m: Op, n: Node, pinned: set<string>)
    requires Clean(m) && "" !in pinned
    ensures Clean(Visit(env, m, n))
    ensures Rejected(Visit(env, m, n), pinned) <==> Rejected(m, pinned) || Changes(env, Protected(pinned), n)
  {
    hide Clean, Rejected, WithSetting, WithKind, ReferencesPgSettings, IsSetConfig, ConfigTarget, MentionsSettings,
      CallsSetConfig;
    FlagsReject(m, pinned);
    ReferencesMeans(n);
    WithKindRejects(m, OpSettingsCatalogWrite, pinned);
    WithKindRejects(m, OpCallbackDefinition, pinned);
    match n.message
    case VariableSet(k, name) =>
      WithSettingRejects(m, env.lower(name), pinned);
      WithKindRejects(WithSetting(m, env.lower(name)), RoleKind(env.lower(name), k), pinned);
    case FuncCall(names, args) =>
      IsSetConfigMeans(env, names);
      WithSettingRejects(m, ConfigTarget(env, args), pinned);
      WithKindRejects(WithSetting(m, ConfigTarget(env, args)), OpSetConfig, pinned);
    case _ =>
  }

  lemma FlagsReject(m: Op, pinned: set<string>)
    requires Clean(m)
    ensures Clean(m.(resetAll := true)) && Rejected(m.(resetAll := true), pinned)
    ensures Clean(m.(discard := true)) && Rejected(m.(discard := true), pinned)
  {
  }

  /** A kind other than the neutral one is rejected, whatever was found before it. */
  lemma WithKindRejects(m: Op, kind: OpKind, pinned: set<string>)
    requires Clean(m) && kind != OpEmpty && kind != OpParseError
    ensures Clean(WithKind(m, kind)) && (kind == OpOther ==> WithKind(m, kind) == m)
    ensures kind != OpOther ==> Rejected(WithKind(m, kind), pinned)
  {
  }

  lemma {:induction false} WalkRejects(env: Env, m: Op, n: Node, pinned: set<string>)
    requires Clean(m) && "" !in pinned
    ensures Clean(Walk(env, m, n))
    ensures Rejected(Walk(env, m, n), pinned) <==> Rejected(m, pinned) || TreeMayChange(env, Protected(pinned), n)
    decreases n
  {
    hide Rejected, Visit, Changes, Clean;
    VisitRejects(env, m, n, pinned);
    WalkAllRejects(env, Visit(env, m, n), n.children, pinned);
  }

  lemma {:induction false} WalkAllRejects(env: Env, m: Op, ns: seq<Node>, pinned: set<string>)
    requires Clean(m) && "" !in pinned
    ensures Clean(WalkAll(env, m, ns))
    ensures Rejected(WalkAll(env, m, ns), pinned) <==>
              Rejected(m, pinned) || exists i :: 0 <= i < |ns| && TreeMayChange(env, Protected(pinned), ns[i])
    decreases ns
  {
    hide Rejected, Visit, Changes, Clean, TreeMayChange;
    if ns != [] {
      WalkRejects(env, m, ns[0], pinned);
      WalkAllRejects(env, Walk(env, m, ns[0]), ns[1..], pinned);
      assert forall i :: 0 <= i < |ns[1..]| ==> ns[1..][i] == ns[i + 1];
      assert forall i :: 1 <= i < |ns| ==> ns[i] == ns[1..][i - 1];
    }
  }

  lemma ScanMutationsRejects(env: Env, root: Node, pinned: set<string>)
    requires "" !in pinned
    ensures Clean(ScanMutations(env, root))
    ensures Rejected(ScanMutations(env, root), pinned) <==> TreeMayChange(env, Protected(pinned), root)
  {
    WalkRejects(env, NOTHING, root, pinned);
  }

  /** A scan that goes through is rejected exactly when found may be changed; one that gives up has found it. */
  ghost predicate ScanExact(scan: Scan, m: Op, pinned: set<string>, found: bool) {
    if scan.ok then Clean(scan.m) && (Rejected(scan.m, pinned) <==> Rejected(m, pinned) || found) else found
  }

  /** The verdict on a text is exact, and it is clean unless the text is opaque. */
  lemma {:induction false} ClassifyExact(env: Env, sql: string, pinned: set<string>)
    requires Shrinks(env) && "" !in pinned
    ensures !Clean(Classify(env, sql)) <==> Opaque(env, sql)
    ensures Rejected(Classify(env, sql), pinned) <==> MayChange(env, Protected(pinned), sql)
    decreases env.size(sql), 4, 0, 0, 0
  {
    hide StmtMayChange, ClassifyAll;
    assert ShrinksIn(env, sql);
    if !Opaque(env, sql) {
      ClassifyAllExact(env, sql, env.parse(sql).value, pinned);
    }
  }

  lemma {:induction false} ClassifyAllExact(env: Env, sql: string, stmts: seq<RawStmt>, pinned: set<string>)
    requires Shrinks(env) && "" !in pinned && forall i :: 0 <= i < |stmts| ==> StmtShrinks(env, sql, stmts[i])
    ensures Clean(ClassifyAll(env, sql, stmts))
    ensures Rejected(ClassifyAll(env, sql, stmts), pinned) <==>
              exists i :: 0 <= i < |stmts| && StmtMayChange(env, Protected(pinned), sql, stmts[i])
    decreases env.size(sql), 3, |stmts|, 0, 0
  {
    hide StmtMayChange, ClassifyStmt, Rejected, Clean, Merge, StmtShrinks;
    if stmts == [] {
      NothingIsClean(pinned);
    } else {
      var k := |stmts| - 1;
      ClassifyAllExact(env, sql, stmts[..k], pinned);
      assert forall i :: 0 <= i < k ==> stmts[..k][i] == stmts[i];
      StmtExact(env, sql, stmts[k], pinned);
      if stmts[k].stmt.Some? {
        MergeRejects(ClassifyAll(env, sql, stmts[..k]), ClassifyStmt(env, sql, stmts[k]), pinned);
      }
    }
  }

  lemma NothingIsClean(pinned: set<string>)
    ensures Clean(NOTHING) && !Rejected(NOTHING, pinned)
  {
  }

  lemma {:induction false} StmtExact(env: Env, sql: string, s: RawStmt, pinned: set<string>)
    requires Shrinks(env) && "" !in pinned && StmtShrinks(env, sql, s)
    ensures s.stmt.None? ==> !StmtMayChange(env, Protected(pinned), sql, s)
    ensures s.stmt.Some? ==> Clean(ClassifyStmt(env, sql, s))
    ensures s.stmt.Some? ==>
              (Rejected(ClassifyStmt(env, sql, s), pinned) <==> StmtMayChange(env, Protected(pinned), sql, s))
    decreases env.size(sql), 2, 0, 0, 0
  {
    hide ClassifyRoutine, BodyMayChange, TreeMayChange, ScanMutations, StmtShrinks;
    match s.stmt
    case Some(CreateFunction(_, _, _)) =>
      RoutineExact(env, sql, s, pinned);
    case Some(Plain(root)) =>
      ScanMutationsRejects(env, root, pinned);
    case _ =>
  }

  lemma {:induction false} RoutineExact(env: Env, sql: string, s: RawStmt, pinned: set<string>)
    requires Shrinks(env) && "" !in pinned && s.stmt.Some? && s.stmt.value.CreateFunction? && StmtShrinks(env, sql, s)
    ensures Clean(ClassifyRoutine(env, sql, s))
    ensures Rejected(ClassifyRoutine(env, sql, s), pinned) <==>
              TreeMayChange(env, Protected(pinned), s.stmt.value.root) || BodyMayChange(env, Protected(pinned), sql, s)
    decreases env.size(sql), 1, 0, 0, 0
  {
    hide Classify, MayChange, Opaque, TreeMayChange, ScanMutations, JsonMayChange, ClassifyPlpgsql, EmbeddedBelow,
      StringOption, Merge;
    var CreateFunction(root, options, sqlBody) := s.stmt.value;
    var m, language := ScanMutations(env, root), StringOption(env, options, "language");
    ScanMutationsRejects(env, root, pinned);
    if m.kind == OpOther && language.Some? {
      if env.equalFold(language.value, "plpgsql") {
        var tree := env.plpgsql(RawSql(sql, s));
        PlpgsqlExact(env, tree, env.size(sql), pinned);
        MergeRejects(m, ClassifyPlpgsql(env, tree, env.size(sql)), pinned);
      } else if env.equalFold(language.value, "sql") && !sqlBody {
        var body := StringOption(env, options, "as");
        if body.Some? {
          ClassifyExact(env, body.value, pinned);
          if !Opaque(env, body.value) {
            MergeRejects(m, Classify(env, body.value), pinned);
          }
        }
      }
    }
  }

  lemma {:induction false} PlpgsqlExact(env: Env, tree: Option<Json>, n: nat, pinned: set<string>)
    requires Shrinks(env) && "" !in pinned && (tree.Some? ==> EmbeddedBelow(env, tree.value, n))
    ensures Clean(ClassifyPlpgsql(env, tree, n))
    ensures Rejected(ClassifyPlpgsql(env, tree, n), pinned) <==>
              tree.None? || JsonMayChange(env, Protected(pinned), tree.value, n)
    decreases n, 0, tree, 2, 0
  {
    hide ScanJson, JsonMayChange;
    NothingIsClean(pinned);
    if tree.Some? {
      JsonExact(env, NOTHING, tree.value, n, pinned);
    }
  }

  lemma {:induction false} JsonExact(env: Env, m: Op, value: Json, n: nat, pinned: set<string>)
    requires Shrinks(env) && "" !in pinned && EmbeddedBelow(env, value, n) && Clean(m)
    ensures ScanExact(ScanJson(env, m, value, n), m, pinned, JsonMayChange(env, Protected(pinned), value, n))
    decreases n, 0, value, 1, 0
  {
    hide Rejected, ScanItems, ScanFields, FieldMayChange;
    match value
    case Arr(items) => ItemsExact(env, m, value, |items|, n, pinned);
    case Obj(fields) => FieldsExact(env, m, value, |fields|, n, pinned);
    case _ =>
  }

  lemma {:induction false} ItemsExact(env: Env, m: Op, value: Json, k: nat, n: nat, pinned: set<string>)
    requires Shrinks(env) && "" !in pinned && EmbeddedBelow(env, value, n) && Clean(m) && value.Arr? &&
              k <= |value.items|
    ensures ScanExact(ScanItems(env, m, value, k, n), m, pinned,
                      exists i :: 0 <= i < k && JsonMayChange(env, Protected(pinned), value.items[i], n))
    decreases n, 0, value, 0, k
  {
    hide Rejected, ScanJson, JsonMayChange, Clean;
    if k > 0 {
      ItemsExact(env, m, value, k - 1, n, pinned);
      var scan := ScanItems(env, m, value, k - 1, n);
      if scan.ok {
        JsonExact(env, scan.m, value.items[k - 1], n, pinned);
      }
    }
  }

  lemma {:induction false} FieldsExact(env: Env, m: Op, value: Json, k: nat, n: nat, pinned: set<string>)
    requires Shrinks(env) && "" !in pinned && EmbeddedBelow(env, value, n) && Clean(m) && value.Obj? &&
              k <= |value.fields|
    ensures ScanExact(ScanFields(env, m, value, k, n), m, pinned, AnyField(env, Protected(pinned), value, k, n))
    decreases n, 0, value, 0, k
  {
    hide Rejected, ScanField, FieldMayChange, Clean;
    if k > 0 {
      FieldsExact(env, m, value, k - 1, n, pinned);
      var scan := ScanFields(env, m, value, k - 1, n);
      if scan.ok {
        FieldExact(env, scan.m, value, k - 1, n, pinned);
      }
    }
  }

  lemma {:induction false} FieldExact(env: Env, m: Op, value: Json, k: nat, n: nat, pinned: set<string>)
    requires Shrinks(env) && "" !in pinned && EmbeddedBelow(env, value, n) && Clean(m) && value.Obj? &&
              k < |value.fields|
    ensures ScanExact(ScanField(env, m, value, k, n), m, pinned, FieldMayChange(env, Protected(pinned), value, k, n))
    decreases n, 0, value, 0, k
  {
    hide Rejected, ScanJson, JsonMayChange, Classify, MayChange, Opaque, EmbeddedSql, Merge;
    NothingIsClean(pinned);
    var (key, item) := value.fields[k];
    if key !in DYNAMIC {
      if key == EXPR {
        match EmbeddedSql(env, item)
        case Sql(text) =>
          ClassifyExact(env, text, pinned);
          if Clean(Classify(env, text)) {
            MergeRejects(m, Classify(env, text), pinned);
          }
        case _ =>
          MergeRejects(m, NOTHING, pinned);
      } else {
        JsonExact(env, m, item, n, pinned);
      }
    }
  }

  /** The policy lets a text through exactly when nothing in it may change the role or a pinned setting. */
  lemma VerdictIsExact(env: Env, sql: string, pinned: set<string>)
    requires Shrinks(env) && "" !in pinned
    ensures Judge(Classify(env, sql), pinned).Allow? <==> !MayChange(env, Protected(pinned), sql)
  {
    ClassifyExact(env, sql, pinned);
  }

  lemma OnlyPins(op: Op, pinned: set<string>)
    ensures Judge(op, pinned) == Reject(RejectPinnedSetting) <==> Rejected(op, pinned) && !Rejected(op, {})
  {
  }

  /** A pinned setting is the reason given exactly when the text would have been let through without the pins. */
  lemma PinnedReason(env: Env, sql: string, pinned: set<string>)
    requires Shrinks(env) && "" !in pinned
    ensures Judge(Classify(env, sql), pinned) == Reject(RejectPinnedSetting) <==>
              MayChange(env, Protected(pinned), sql) && !MayChange(env, Protected({}), sql)
  {
    hide Classify, MayChange, Judge;
    OnlyPins(Classify(env, sql), pinned);
    ClassifyExact(env, sql, pinned);
    ClassifyExact(env, sql, {});
  }

  // ---- composition and order

  /** The measure that bounds the recursion does not matter to the answer. */
  lemma {:induction false} JsonMeasureIrrelevant(env: Env, p: set<string>, value: Json, n: nat, n': nat)
    requires Shrinks(env) && EmbeddedBelow(env, value, n) && EmbeddedBelow(env, value, n')
    ensures JsonMayChange(env, p, value, n) == JsonMayChange(env, p, value, n')
    decreases value
  {
    hide MayChange, EmbeddedSql, Opaque;
    match value
    case Arr(items) =>
      forall i | 0 <= i < |items|
        ensures JsonMayChange(env, p, items[i], n) == JsonMayChange(env, p, items[i], n')
      {
        JsonMeasureIrrelevant(env, p, items[i], n, n');
      }
    case Obj(fields) =>
      forall i: nat | i < |fields|
        ensures FieldMayChange(env, p, value, i, n) == FieldMayChange(env, p, value, i, n')
      {
        if fields[i].0 != EXPR {
          JsonMeasureIrrelevant(env, p, fields[i].1, n, n');
        }
      }
    case _ =>
  }

  /** The same statement with the same source text, wherever it stands. */
  predicate SameStatement(sql: string, s: RawStmt, sql': string, s': RawStmt) {
    s.stmt == s'.stmt && RawSql(sql, s) == RawSql(sql', s')
  }

  lemma SameStatementSameAnswer(env: Env, p: set<string>, sql: string, s: RawStmt, sql': string, s': RawStmt)
    requires Shrinks(env) && StmtShrinks(env, sql, s) && StmtShrinks(env, sql', s') && SameStatement(sql, s, sql', s')
    ensures StmtMayChange(env, p, sql, s) == StmtMayChange(env, p, sql', s')
  {
    hide MayChange, TreeMayChange, JsonMayChange, Opaque, StringOption;
    if s.stmt.Some? && s.stmt.value.CreateFunction? {
      var tree := env.plpgsql(RawSql(sql, s));
      if tree.Some? {
        JsonMeasureIrrelevant(env, p, tree.value, env.size(sql), env.size(sql'));
      }
    }
  }

  ghost predicate Statements(env: Env, sql: string, stmts: seq<RawStmt>) {
    !env.blank(sql) && env.parse(sql) == Some(stmts) && stmts != []
  }

  /** Every statement of one text is also a statement of the other. */
  ghost predicate Within(sql: string, stmts: seq<RawStmt>, sql': string, stmts': seq<RawStmt>) {
    forall i :: 0 <= i < |stmts| ==> exists j :: 0 <= j < |stmts'| && SameStatement(sql, stmts[i], sql', stmts'[j])
  }

  lemma WithinMayChange(env: Env, p: set<string>, sql: string, stmts: seq<RawStmt>, sql': string, stmts': seq<RawStmt>)
    requires Shrinks(env) && Statements(env, sql, stmts) && Statements(env, sql', stmts') &&
              Within(sql, stmts, sql', stmts')
    ensures MayChange(env, p, sql) ==> MayChange(env, p, sql')
  {
    hide StmtMayChange, SameStatement, StmtShrinks;
    assert ShrinksIn(env, sql) && ShrinksIn(env, sql');
    if MayChange(env, p, sql) {
      var i :| 0 <= i < |stmts| && StmtMayChange(env, p, sql, stmts[i]);
      var j :| 0 <= j < |stmts'| && SameStatement(sql, stmts[i], sql', stmts'[j]);
      SameStatementSameAnswer(env, p, sql, stmts[i], sql', stmts'[j]);
    }
  }

  /** Neither the order nor the repetition of statements matters to the verdict. */
  lemma OrderIrrelevant(env: Env, pinned: set<string>, sql: string, stmts: seq<RawStmt>, sql': string,
                        stmts': seq<RawStmt>)
    requires Shrinks(env) && "" !in pinned && Statements(env, sql, stmts) && Statements(env, sql', stmts')
    requires Within(sql, stmts, sql', stmts') && Within(sql', stmts', sql, stmts)
    ensures Judge(Classify(env, sql), pinned).Allow? <==> Judge(Classify(env, sql'), pinned).Allow?
  {
    hide MayChange, Classify;
    VerdictIsExact(env, sql, pinned);
    VerdictIsExact(env, sql', pinned);
    WithinMayChange(env, Protected(pinned), sql, stmts, sql', stmts');
    WithinMayChange(env, Protected(pinned), sql', stmts', sql, stmts);
  }

  /** A batch is let through exactly when each of its statements, sent alone, is. */
  lemma BatchIsItsStatements(env: Env, pinned: set<string>, sql: string, stmts: seq<RawStmt>, alone: seq<string>,
                             single: seq<RawStmt>)
    requires Shrinks(env) && "" !in pinned && Statements(env, sql, stmts) && |alone| == |single| == |stmts|
    requires forall i :: 0 <= i < |stmts| ==>
               Statements(env, alone[i], [single[i]]) && SameStatement(sql, stmts[i], alone[i], single[i])
    ensures Judge(Classify(env, sql), pinned).Allow? <==>
              forall i :: 0 <= i < |stmts| ==> Judge(Classify(env, alone[i]), pinned).Allow?
  {
    hide StmtMayChange, SameStatement, StmtShrinks, Classify, Judge;
    var p := Protected(pinned);
    VerdictIsExact(env, sql, pinned);
    assert ShrinksIn(env, sql);
    forall i | 0 <= i < |stmts|
      ensures Judge(Classify(env, alone[i]), pinned).Allow? <==> !StmtMayChange(env, p, sql, stmts[i])
    {
      assert ShrinksIn(env, alone[i]);
      assert env.parse(alone[i]).value[0] == single[i];
      VerdictIsExact(env, alone[i], pinned);
      SameStatementSameAnswer(env, p, sql, stmts[i], alone[i], single[i]);
    }
  }
}
