/**
  * The statement classifier: what a text does that the role and settings policy cares about, found by walking the
  * statements, the bodies of the routines they define, and the SQL embedded in PL/pgSQL bodies.
  */
module SqlClassifier {
  import opened Wrappers
  import opened SqlAst

  datatype OpKind =
    | OpOther | OpSetRole | OpSetSessionAuthorization | OpResetRole | OpResetSessionAuthorization
    | OpEmpty | OpDoBlock | OpParseError | OpSetConfig | OpUninspectableRoutine | OpSettingsCatalogWrite
    | OpCallbackDefinition

  /** What a text does: its kind, the settings it writes, and whether it resets all of them. */
  datatype Op = Op(kind: OpKind, setGUCs: seq<string>, resetAll: bool, discard: bool)

  const NOTHING := Op(OpOther, [], false, false)

  function OfKind(kind: OpKind): Op {
    NOTHING.(kind := kind)
  }

  /** The first kind found is kept. */
  function WithKind(m: Op, kind: OpKind): Op {
    if m.kind == OpOther then m.(kind := kind) else m
  }

  function WithSetting(m: Op, name: string): Op {
    if name == "" then m else m.(setGUCs := m.setGUCs + [name])
  }

  /** mergeMutations. */
  function Merge(dst: Op, src: Op): Op {
    Op(if dst.kind == OpOther then src.kind else dst.kind, dst.setGUCs + src.setGUCs,
       dst.resetAll || src.resetAll, dst.discard || src.discard)
  }

  /** roleKindFor; OpOther when the setting is not about the role. */
  function RoleKind(name: string, k: SetKind): OpKind {
    if name == "role" then (if k == Reset then OpResetRole else OpSetRole)
    else if name == "session_authorization" then
      (if k == Reset then OpResetSessionAuthorization else OpSetSessionAuthorization)
    else OpOther
  }

  predicate DefinesCallbacks(k: ObjectKind) {
    k != Collation && k != TsDictionary && k != TsConfiguration
  }

  predicate IsSetConfig(env: Env, names: seq<Option<string>>) {
    |names| > 0 && names[|names| - 1].Some? && env.equalFold(names[|names| - 1].value, "set_config")
  }

  /** The setting a set_config call names, or "" when it is not a literal. */
  function ConfigTarget(env: Env, args: seq<Option<string>>): string {
    if |args| >= 1 && args[0].Some? then env.lower(args[0].value) else ""
  }

  predicate ReferencesPgSettings(n: Node) {
    n.message == RangeVar("pg_settings") || exists i :: 0 <= i < |n.children| && ReferencesPgSettings(n.children[i])
  }

  /** The visitor of scanMutations. */
  function Visit(env: Env, m: Op, n: Node): Op {
    match n.message
    case VariableSet(ResetAll, _) => m.(resetAll := true)
    case VariableSet(k, name) => WithKind(WithSetting(m, env.lower(name)), RoleKind(env.lower(name), k))
    case Discard(all) => if all then m.(discard := true) else m
    case Update(relation) => if relation == Some("pg_settings") then WithKind(m, OpSettingsCatalogWrite) else m
    case Insert(relation) => if relation == Some("pg_settings") then WithKind(m, OpSettingsCatalogWrite) else m
    case View => if ReferencesPgSettings(n) then WithKind(m, OpSettingsCatalogWrite) else m
    case Rule => if ReferencesPgSettings(n) then WithKind(m, OpSettingsCatalogWrite) else m
    case Define(k) => if DefinesCallbacks(k) then WithKind(m, OpCallbackDefinition) else m
    case BindsCallbacks => WithKind(m, OpCallbackDefinition)
    case FuncCall(names, args) =>
      if IsSetConfig(env, names) then WithKind(WithSetting(m, ConfigTarget(env, args)), OpSetConfig) else m
    case _ => m
  }

  /** walkProto with that visitor, which never stops the walk. */
  function Walk(env: Env, m: Op, n: Node): Op
    decreases n
  {
    WalkAll(env, Visit(env, m, n), n.children)
  }

  function WalkAll(env: Env, m: Op, ns: seq<Node>): Op
    decreases ns
  {
    if ns == [] then m else WalkAll(env, Walk(env, m, ns[0]), ns[1..])
  }

  /** scanMutations. */
  function ScanMutations(env: Env, root: Node): Op {
    Walk(env, NOTHING, root)
  }

  /** classifyUncached: the union of what the statements do. */
  function Classify(env: Env, sql: string): Op
    requires Shrinks(env)
    decreases env.size(sql), 4, 0, 0
  {
    if env.blank(sql) then OfKind(OpEmpty)
    else
      match env.parse(sql)
      case None => OfKind(OpParseError)
      case Some(stmts) =>
        assert ShrinksIn(env, sql);
        if |stmts| == 0 then OfKind(OpEmpty) else ClassifyAll(env, sql, stmts)
  }

  function ClassifyAll(env: Env, sql: string, stmts: seq<RawStmt>): Op
    requires Shrinks(env) && forall i :: 0 <= i < |stmts| ==> StmtShrinks(env, sql, stmts[i])
    decreases env.size(sql), 3, |stmts|, 0
  {
    if stmts == [] then NOTHING
    else
      var k := |stmts| - 1;
      var op := ClassifyAll(env, sql, stmts[..k]);
      if stmts[k].stmt.None? then op else Merge(op, ClassifyStmt(env, sql, stmts[k]))
  }

  function ClassifyStmt(env: Env, sql: string, s: RawStmt): Op
    requires Shrinks(env) && s.stmt.Some? && StmtShrinks(env, sql, s)
    decreases env.size(sql), 2, 0, 0
  {
    match s.stmt.value
    case Transaction => NOTHING
    case DoBlock => OfKind(OpDoBlock)
    case CreateFunction(root, options, sqlBody) => ClassifyRoutine(env, sql, s)
    case Plain(root) => ScanMutations(env, root)
  }

  /** classifyRoutineDefinition. */
  function ClassifyRoutine(env: Env, sql: string, s: RawStmt): Op
    requires Shrinks(env) && s.stmt.Some? && s.stmt.value.CreateFunction? && StmtShrinks(env, sql, s)
    decreases env.size(sql), 1, 0, 0
  {
    var CreateFunction(root, options, sqlBody) := s.stmt.value;
    var m := ScanMutations(env, root);
    if m.kind != OpOther then m
    else
      match StringOption(env, options, "language")
      case None => m.(kind := OpUninspectableRoutine)
      case Some(language) =>
        if env.equalFold(language, "plpgsql") then
          Merge(m, ClassifyPlpgsql(env, env.plpgsql(RawSql(sql, s)), env.size(sql)))
        else if !env.equalFold(language, "sql") then m.(kind := OpUninspectableRoutine)
        else if sqlBody then m
        else
          match StringOption(env, options, "as")
          case None => m.(kind := OpUninspectableRoutine)
          case Some(body) =>
            var op := Classify(env, body);
            if op.kind == OpParseError || op.kind == OpEmpty then m.(kind := OpUninspectableRoutine) else Merge(m, op)
  }

  /** A scan of a PL/pgSQL tree: whether it went through, and what it had found when it ended. */
  datatype Scan = Scan(ok: bool, m: Op)

  /** classifyPLpgSQL, given what the PL/pgSQL parser made of the definition. */
  function ClassifyPlpgsql(env: Env, tree: Option<Json>, n: nat): Op
    requires Shrinks(env) && (tree.Some? ==> EmbeddedBelow(env, tree.value, n))
    decreases n, 0, tree, 2, 0
  {
    match tree
    case None => OfKind(OpUninspectableRoutine)
    case Some(value) =>
      var scan := ScanJson(env, NOTHING, value, n);
      if scan.ok then scan.m else scan.m.(kind := OpUninspectableRoutine)
  }

  /** scanPLpgSQL. */
  function ScanJson(env: Env, m: Op, value: Json, n: nat): Scan
    requires Shrinks(env) && EmbeddedBelow(env, value, n)
    decreases n, 0, value, 1, 0
  {
    match value
    case Arr(items) => ScanItems(env, m, value, |items|, n)
    case Obj(fields) => ScanFields(env, m, value, |fields|, n)
    case _ => Scan(true, m)
  }

  function ScanItems(env: Env, m: Op, value: Json, k: nat, n: nat): Scan
    requires Shrinks(env) && EmbeddedBelow(env, value, n) && value.Arr? && k <= |value.items|
    decreases n, 0, value, 0, k
  {
    if k == 0 then Scan(true, m)
    else
      var scan := ScanItems(env, m, value, k - 1, n);
      if scan.ok then ScanJson(env, scan.m, value.items[k - 1], n) else scan
  }

  function ScanFields(env: Env, m: Op, value: Json, k: nat, n: nat): Scan
    requires Shrinks(env) && EmbeddedBelow(env, value, n) && value.Obj? && k <= |value.fields|
    decreases n, 0, value, 0, k
  {
    if k == 0 then Scan(true, m)
    else
      var scan := ScanFields(env, m, value, k - 1, n);
      if scan.ok then ScanField(env, scan.m, value, k - 1, n) else scan
  }

  /** One field of an object: dynamic SQL ends the scan, an expression is classified, anything else is entered. */
  function ScanField(env: Env, m: Op, value: Json, k: nat, n: nat): Scan
    requires Shrinks(env) && EmbeddedBelow(env, value, n) && value.Obj? && k < |value.fields|
    decreases n, 0, value, 0, k
  {
    var (key, item) := value.fields[k];
    if key in DYNAMIC then Scan(false, m)
    else if key == EXPR then
      match EmbeddedSql(env, item)
      case Malformed => Scan(false, m)
      case TypeName => Scan(true, Merge(m, NOTHING))
      case Sql(text) =>
        var op := Classify(env, text);
        if op.kind == OpParseError || op.kind == OpEmpty then Scan(false, m) else Scan(true, Merge(m, op))
    else ScanJson(env, m, item, n)
  }
}
