/**
  * The memo in front of the classifier. Nested texts go through it too, and entries may be evicted at any time; what
  * is reported for a text never depends on either.
  */
module SqlMemo {
  import opened Wrappers
  import opened SqlAst
  import opened SqlClassifier
  import opened SqlPolicy

  const CAPACITY: int := 1024

  lemma {:induction false} WalkAllSnoc(env: Env, m: Op, ns: seq<Node>, i: nat)
    requires i < |ns|
    ensures WalkAll(env, m, ns[..i + 1]) == Walk(env, WalkAll(env, m, ns[..i]), ns[i])
    decreases i
  {
    hide Walk;
    if i == 0 {
      assert ns[..1] == [ns[0]] && ns[..0] == [];
      assert WalkAll(env, Walk(env, m, ns[0]), [ns[0]][1..]) == Walk(env, m, ns[0]);
    } else {
      assert ns[..i + 1][1..] == ns[1..][..i] && ns[..i][1..] == ns[1..][..i - 1];
      WalkAllSnoc(env, Walk(env, m, ns[0]), ns[1..], i - 1);
    }
  }

  /** The record scanMutations fills while it walks a tree. */
  class Mutations {
    const env: Env
    var m: Op

    constructor (env: Env)
      ensures this.env == env && m == NOTHING
    {
      this.env, m := env, NOTHING;
    }

    method WriteSetting(name: string)
      modifies this
      ensures m == WithSetting(old(m), name)
    {
      if name != "" {
        m := m.(setGUCs := m.setGUCs + [name]);
      }
    }

    method NoteKind(kind: OpKind)
      modifies this
      ensures m == WithKind(old(m), kind)
    {
      if m.kind == OpOther {
        m := m.(kind := kind);
      }
    }

    /** The visitor. */
    method VisitMessage(n: Node)
      modifies this
      ensures m == Visit(env, old(m), n)
    {
      match n.message {
        case VariableSet(k, name) =>
          if k == ResetAll {
            m := m.(resetAll := true);
          } else {
            WriteSetting(env.lower(name));
            NoteKind(RoleKind(env.lower(name), k));
          }
        case Discard(all) =>
          if all {
            m := m.(discard := true);
          }
        case Update(relation) =>
          if relation == Some("pg_settings") {
            NoteKind(OpSettingsCatalogWrite);
          }
        case Insert(relation) =>
          if relation == Some("pg_settings") {
            NoteKind(OpSettingsCatalogWrite);
          }
        case View =>
          if ReferencesPgSettings(n) {
            NoteKind(OpSettingsCatalogWrite);
          }
        case Rule =>
          if ReferencesPgSettings(n) {
            NoteKind(OpSettingsCatalogWrite);
          }
        case Define(k) =>
          if DefinesCallbacks(k) {
            NoteKind(OpCallbackDefinition);
          }
        case BindsCallbacks => NoteKind(OpCallbackDefinition);
        case FuncCall(names, args) =>
          if IsSetConfig(env, names) {
            WriteSetting(ConfigTarget(env, args));
            NoteKind(OpSetConfig);
          }
        case _ =>
      }
    }

    /** walkProto: the message itself, and then every message in its fields. */
    method WalkProto(n: Node)
      modifies this
      ensures m == Walk(env, old(m), n)
      decreases n
    {
      hide Visit;
      VisitMessage(n);
      ghost var visited := m;
      for i := 0 to |n.children|
        invariant m == WalkAll(env, visited, n.children[..i])
      {
        WalkProto(n.children[i]);
        WalkAllSnoc(env, visited, n.children, i);
      }
      assert n.children[..|n.children|] == n.children;
    }
  }

  class Memo {
    const env: Env
    var cache: map<string, Op>

    /** Whatever is cached is what the classifier says. */
    ghost predicate Valid()
      reads this
    {
      Shrinks(env) && |cache| <= CAPACITY && forall sql :: sql in cache ==> cache[sql] == Classify(env, sql)
    }

    constructor (env: Env)
      requires Shrinks(env)
      ensures Valid() && this.env == env && cache == map[]
    {
      this.env, cache := env, map[];
    }

    /** Adds an entry; which others survive is the cache's business. */
    method Add(sql: string, op: Op)
      requires Valid() && op == Classify(env, sql)
      modifies this
      ensures Valid() && cache.Keys <= old(cache.Keys) + {sql}
    {
      hide Classify;
      var grown := cache[sql := op];
      ghost var none: set<string> := {};
      assert none <= grown.Keys && |none| <= CAPACITY;
      var kept: set<string> :| kept <= grown.Keys && |kept| <= CAPACITY;
      cache := map k | k in kept :: grown[k];
      assert cache.Keys == kept;
    }

    /** Classify. */
    method ClassifyText(sql: string) returns (op: Op)
      requires Valid()
      modifies this
      ensures Valid() && op == Classify(env, sql)
      decreases env.size(sql), 4, 0, 0, 0
    {
      hide Classify;
      if sql in cache {
        return cache[sql];
      }
      op := ClassifyUncached(sql);
      Add(sql, op);
    }

    method ClassifyUncached(sql: string) returns (op: Op)
      requires Valid()
      modifies this
      ensures Valid() && op == Classify(env, sql)
      decreases env.size(sql), 3, 0, 0, 0
    {
      hide ClassifyAll;
      if env.blank(sql) {
        return OfKind(OpEmpty);
      }
      var result := env.parse(sql);
      if result.None? {
        return OfKind(OpParseError);
      }
      var stmts := result.value;
      if |stmts| == 0 {
        return OfKind(OpEmpty);
      }
      assert ShrinksIn(env, sql);
      op := ClassifyStmts(sql, stmts);
    }

    method ClassifyStmts(sql: string, stmts: seq<RawStmt>) returns (op: Op)
      requires Valid() && forall i :: 0 <= i < |stmts| ==> StmtShrinks(env, sql, stmts[i])
      modifies this
      ensures Valid() && op == ClassifyAll(env, sql, stmts)
      decreases env.size(sql), 2, 0, 0, 0
    {
      hide Classify, SqlClassifier.ClassifyStmt, StmtShrinks;
      op := NOTHING;
      for k := 0 to |stmts|
        invariant Valid() && op == ClassifyAll(env, sql, stmts[..k])
      {
        assert stmts[..k + 1][..k] == stmts[..k];
        if stmts[k].stmt.Some? {
          var m := ClassifyStmt(sql, stmts[k]);
          op := Merge(op, m);
        }
      }
      assert stmts[..|stmts|] == stmts;
    }

    method ClassifyStmt(sql: string, s: RawStmt) returns (op: Op)
      requires Valid() && s.stmt.Some? && StmtShrinks(env, sql, s)
      modifies this
      ensures Valid() && op == SqlClassifier.ClassifyStmt(env, sql, s)
      decreases env.size(sql), 1, 0, 0, 0
    {
      hide Classify, ClassifyPlpgsql, StringOption, ScanMutations;
      match s.stmt.value
      case Transaction => return NOTHING;
      case DoBlock => return OfKind(OpDoBlock);
      case Plain(root) =>
        var found := Scanned(root);
        return found;
      case CreateFunction(root, options, sqlBody) =>
        var m := Scanned(root);
        if m.kind != OpOther {
          return m;
        }
        var language := RoutineStringOption(options, "language");
        if language.None? {
          return m.(kind := OpUninspectableRoutine);
        }
        if env.equalFold(language.value, "plpgsql") {
          var inner := ClassifyRoutineTree(env.plpgsql(RawSql(sql, s)), env.size(sql));
          return Merge(m, inner);
        }
        if !env.equalFold(language.value, "sql") {
          return m.(kind := OpUninspectableRoutine);
        }
        if sqlBody {
          return m;
        }
        var body := RoutineStringOption(options, "as");
        if body.None? {
          return m.(kind := OpUninspectableRoutine);
        }
        var inner := ClassifyText(body.value);
        if inner.kind == OpParseError || inner.kind == OpEmpty {
          return m.(kind := OpUninspectableRoutine);
        }
        return Merge(m, inner);
    }

    method RoutineStringOption(options: seq<Option<DefElem>>, name: string) returns (text: Option<string>)
      ensures text == StringOption(env, options, name)
    {
      for k := 0 to |options|
        invariant forall j :: 0 <= j < k ==> !Named(env, options[j], name)
      {
        if Named(env, options[k], name) {
          FirstOptionDecides(env, options, name, k);
          return ArgText(options[k].value.arg);
        }
      }
      FirstOptionDecides(env, options, name, |options|);
      return None;
    }

    /** scanMutations. */
    method Scanned(root: Node) returns (op: Op)
      ensures op == ScanMutations(env, root)
    {
      hide Walk;
      var found := new Mutations(env);
      found.WalkProto(root);
      return found.m;
    }

    method ClassifyRoutineTree(tree: Option<Json>, n: nat) returns (op: Op)
      requires Valid() && (tree.Some? ==> EmbeddedBelow(env, tree.value, n))
      modifies this
      ensures Valid() && op == ClassifyPlpgsql(env, tree, n)
      decreases n, 0, tree, 2, 0
    {
      hide Classify, SqlClassifier.ScanJson;
      if tree.None? {
        return OfKind(OpUninspectableRoutine);
      }
      var ok, m := ScanTree(NOTHING, tree.value, n);
      return if ok then m else m.(kind := OpUninspectableRoutine);
    }

    /** scanPLpgSQL. */
    method ScanTree(m0: Op, value: Json, n: nat) returns (ok: bool, m: Op)
      requires Valid() && EmbeddedBelow(env, value, n)
      modifies this
      ensures Valid() && Scan(ok, m) == ScanJson(env, m0, value, n)
      decreases n, 0, value, 1, 0
    {
      hide Classify, EmbeddedSql;
      ok, m := true, m0;
      match value
      case Arr(items) =>
        for k := 0 to |items|
          invariant Valid() && Scan(true, m) == ScanItems(env, m0, value, k, n)
        {
          ItemsStop(env, m0, value, k + 1, |items|, n);
          ok, m := ScanTree(m, items[k], n);
          if !ok {
            return;
          }
        }
      case Obj(fields) =>
        for k := 0 to |fields|
          invariant Valid() && Scan(true, m) == ScanFields(env, m0, value, k, n)
        {
          FieldsStop(env, m0, value, k + 1, |fields|, n);
          ok, m := ScanEntry(m, value, k, n);
          if !ok {
            return;
          }
        }
      case _ =>
    }

    /** One field of an object. */
    method ScanEntry(m0: Op, value: Json, k: nat, n: nat) returns (ok: bool, m: Op)
      requires Valid() && EmbeddedBelow(env, value, n) && value.Obj? && k < |value.fields|
      modifies this
      ensures Valid() && Scan(ok, m) == ScanField(env, m0, value, k, n)
      decreases n, 0, value, 0, 0
    {
      hide Classify, ScanJson;
      var (key, item) := value.fields[k];
      if key in DYNAMIC {
        return false, m0;
      }
      if key == EXPR {
        match EmbeddedSql(env, item)
        case Malformed => return false, m0;
        case TypeName => return true, Merge(m0, NOTHING);
        case Sql(text) =>
          var op := ClassifyText(text);
          if op.kind == OpParseError || op.kind == OpEmpty {
            return false, m0;
          }
          return true, Merge(m0, op);
      }
      ok, m := ScanTree(m0, item, n);
    }

    /** ClassifyClientStatement. */
    method Decide(sql: string, pinned: set<string>) returns (v: Verdict)
      requires Valid()
      modifies this
      ensures Valid() && v == Judge(Classify(env, sql), pinned)
    {
      hide Classify;
      var op := ClassifyText(sql);
      var writes := WritesPinned(op.setGUCs, pinned);
      match op.kind
      case OpSetRole => return Reject(RejectClientRoleChange);
      case OpSetSessionAuthorization => return Reject(RejectClientRoleChange);
      case OpResetRole => return Reject(RejectClientRoleChange);
      case OpResetSessionAuthorization => return Reject(RejectClientRoleChange);
      case OpSetConfig => return Reject(RejectSetConfig);
      case OpDoBlock => return Reject(RejectDoBlock);
      case OpUninspectableRoutine => return Reject(RejectUninspectableRoutine);
      case OpSettingsCatalogWrite => return Reject(RejectSettingsCatalogWrite);
      case OpCallbackDefinition => return Reject(RejectCallbackDefinition);
      case _ =>
        if op.resetAll {
          return Reject(RejectResetAll);
        }
        if op.discard {
          return Reject(RejectDiscardAll);
        }
        return if writes then Reject(RejectPinnedSetting) else Allow;
    }
  }

  /** Once a scan gives up it stays given up. */
  lemma {:induction false} ItemsStop(env: Env, m: Op, value: Json, j: nat, k: nat, n: nat)
    requires Shrinks(env) && EmbeddedBelow(env, value, n) && value.Arr? && j <= k <= |value.items|
    ensures !ScanItems(env, m, value, j, n).ok ==> ScanItems(env, m, value, k, n) == ScanItems(env, m, value, j, n)
  {
    if j < k {
      ItemsStop(env, m, value, j, k - 1, n);
    }
  }

  lemma {:induction false} FieldsStop(env: Env, m: Op, value: Json, j: nat, k: nat, n: nat)
    requires Shrinks(env) && EmbeddedBelow(env, value, n) && value.Obj? && j <= k <= |value.fields|
    ensures !ScanFields(env, m, value, j, n).ok ==> ScanFields(env, m, value, k, n) == ScanFields(env, m, value, j, n)
  {
    if j < k {
      FieldsStop(env, m, value, j, k - 1, n);
    }
  }
}
