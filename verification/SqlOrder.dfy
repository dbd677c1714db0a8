/**
  * The order of traversal. The fields of a message are walked in whatever order reflection gives them, and the fields
  * of a JSON object in the random order of a map; at every depth, and through every nested text, neither order matters
  * to the verdict.
  */
module SqlOrder {
  import opened Wrappers
  import opened SqlAst
  import opened SqlClassifier
  import opened SqlPolicy

  // ---- trees of messages

  /** The same message, and each child is found among the children of the other, at every depth. */
  predicate TreeWithin(n: Node, n': Node)
    decreases n, 0
  {
    n.message == n'.message && forall i :: 0 <= i < |n.children| ==> TreeAmong(n.children[i], n'.children)
  }

  predicate TreeAmong(n: Node, ns: seq<Node>)
    decreases n, 1
  {
    exists j :: 0 <= j < |ns| && TreeWithin(n, ns[j])
  }

  /** The same tree, whatever the order of the fields of each message. */
  predicate SameTree(n: Node, n': Node) {
    TreeWithin(n, n') && TreeWithin(n', n)
  }

  lemma {:induction false} TreeIsItself(n: Node)
    ensures TreeWithin(n, n)
  {
    forall i | 0 <= i < |n.children|
      ensures TreeAmong(n.children[i], n.children)
    {
      TreeIsItself(n.children[i]);
    }
  }

  lemma ShuffledWithin(n: Node, n': Node)
    requires n.message == n'.message && forall c :: c in n.children ==> c in n'.children
    ensures TreeWithin(n, n')
  {
    forall i | 0 <= i < |n.children|
      ensures TreeAmong(n.children[i], n'.children)
    {
      assert n.children[i] in n.children;
      var j :| 0 <= j < |n'.children| && n'.children[j] == n.children[i];
      TreeIsItself(n.children[i]);
    }
  }

  /** In particular the children of one message may be shuffled. */
  lemma ShuffledTree(n: Node, n': Node)
    requires n.message == n'.message && forall c :: c in n.children <==> c in n'.children
    ensures SameTree(n, n')
  {
    ShuffledWithin(n, n');
    ShuffledWithin(n', n);
  }

  lemma {:induction false} OccursWithin(m: Node, n: Node, n': Node) returns (m': Node)
    requires TreeWithin(n, n') && Occurs(m, n)
    ensures Occurs(m', n') && m'.message == m.message
    decreases n
  {
    if m == n {
      m' := n';
    } else {
      var i :| 0 <= i < |n.children| && Occurs(m, n.children[i]);
      assert TreeAmong(n.children[i], n'.children);
      var j :| 0 <= j < |n'.children| && TreeWithin(n.children[i], n'.children[j]);
      m' := OccursWithin(m, n.children[i], n'.children[j]);
    }
  }

  lemma MentionsWithin(n: Node, n': Node)
    requires TreeWithin(n, n') && MentionsSettings(n)
    ensures MentionsSettings(n')
  {
    hide TreeWithin, Occurs;
    var m :| Occurs(m, n) && m.message == RangeVar("pg_settings");
    var m' := OccursWithin(m, n, n');
  }

  /** Two environments whose string functions agree. */
  ghost predicate SameStrings(env: Env, env': Env) {
    env.lower == env'.lower && env.equalFold == env'.equalFold && env.blank == env'.blank
  }

  lemma SameCalls(env: Env, env': Env, n: Node)
    requires SameStrings(env, env')
    ensures n.message.FuncCall? ==>
              (CallsSetConfig(env, n.message.names) <==> CallsSetConfig(env', n.message.names))
  {
  }

  lemma ChangesWithin(env: Env, env': Env, p: set<string>, n: Node, n': Node)
    requires SameStrings(env, env') && TreeWithin(n, n') && Changes(env, p, n)
    ensures Changes(env', p, n')
  {
    hide MentionsSettings, CallsSetConfig;
    SameCalls(env, env', n);
    if MentionsSettings(n) {
      MentionsWithin(n, n');
    }
  }

  lemma {:induction false} TreeChangesWithin(env: Env, env': Env, p: set<string>, n: Node, n': Node)
    requires SameStrings(env, env') && TreeWithin(n, n') && TreeMayChange(env, p, n)
    ensures TreeMayChange(env', p, n')
  {
    hide Changes, SameStrings;
    if Changes(env, p, n) {
      ChangesWithin(env, env', p, n, n');
    } else {
      var i :| 0 <= i < |n.children| && TreeMayChange(env, p, n.children[i]);
      assert TreeAmong(n.children[i], n'.children);
      var j :| 0 <= j < |n'.children| && TreeWithin(n.children[i], n'.children[j]);
      TreeChangesWithin(env, env', p, n.children[i], n'.children[j]);
    }
  }

  /** Whatever order the fields of the messages are walked in, at any depth, a tree is rejected or it is not. */
  lemma ChildOrderIrrelevant(env: Env, n: Node, n': Node, pinned: set<string>)
    requires SameTree(n, n') && "" !in pinned
    ensures Rejected(ScanMutations(env, n), pinned) <==> Rejected(ScanMutations(env, n'), pinned)
  {
    hide TreeWithin, ScanMutations, TreeMayChange, Rejected;
    var p := Protected(pinned);
    ScanMutationsRejects(env, n, pinned);
    ScanMutationsRejects(env, n', pinned);
    if TreeMayChange(env, p, n) {
      TreeChangesWithin(env, env, p, n, n');
    }
    if TreeMayChange(env, p, n') {
      TreeChangesWithin(env, env, p, n', n);
    }
  }

  // ---- JSON

  /** An object is a map: no key comes twice. */
  predicate UniqueKeys(fields: seq<(string, Json)>) {
    forall i, j :: 0 <= i < j < |fields| ==> fields[i].0 != fields[j].0
  }

  predicate HasKey(fields: seq<(string, Json)>, key: string) {
    exists i :: 0 <= i < |fields| && fields[i].0 == key
  }

  /** Objects have the same keys in any order, and each part is found in the other, at every depth. */
  ghost predicate JsonWithin(v: Json, v': Json)
    decreases v, 0
  {
    match v
    case Arr(items) => v'.Arr? && forall i :: 0 <= i < |items| ==> JsonAmong(items[i], v'.items)
    case Obj(fields) =>
      && v'.Obj? && UniqueKeys(fields) && UniqueKeys(v'.fields)
      && (forall key :: HasKey(fields, key) <==> HasKey(v'.fields, key))
      && forall i :: 0 <= i < |fields| ==> FieldAmong(fields[i].0, fields[i].1, v'.fields)
    case _ => v' == v
  }

  ghost predicate JsonAmong(v: Json, vs: seq<Json>)
    decreases v, 1
  {
    exists j :: 0 <= j < |vs| && JsonWithin(v, vs[j])
  }

  ghost predicate FieldAmong(key: string, v: Json, fields: seq<(string, Json)>)
    decreases v, 1
  {
    exists j :: 0 <= j < |fields| && fields[j].0 == key && JsonWithin(v, fields[j].1)
  }

  /** The same value, whatever the order of the fields of each object. */
  ghost predicate SameJson(v: Json, v': Json) {
    JsonWithin(v, v') && JsonWithin(v', v)
  }

  predicate MapsThroughout(v: Json) {
    match v
    case Arr(items) => forall i :: 0 <= i < |items| ==> MapsThroughout(items[i])
    case Obj(fields) => UniqueKeys(fields) && forall i :: 0 <= i < |fields| ==> MapsThroughout(fields[i].1)
    case _ => true
  }

  lemma {:induction false} JsonIsItself(v: Json)
    requires MapsThroughout(v)
    ensures JsonWithin(v, v)
  {
    match v
    case Arr(items) =>
      forall i | 0 <= i < |items|
        ensures JsonAmong(items[i], items)
      {
        JsonIsItself(items[i]);
      }
    case Obj(fields) =>
      forall i | 0 <= i < |fields|
        ensures FieldAmong(fields[i].0, fields[i].1, fields)
      {
        JsonIsItself(fields[i].1);
      }
    case _ =>
  }

  lemma ShuffledFields(v: Json, v': Json)
    requires v.Obj? && v'.Obj? && MapsThroughout(v) && MapsThroughout(v')
    requires forall f :: f in v.fields <==> f in v'.fields
    ensures JsonWithin(v, v')
  {
    hide UniqueKeys;
    SharedKeys(v.fields, v'.fields);
    SharedKeys(v'.fields, v.fields);
    forall i | 0 <= i < |v.fields|
      ensures FieldAmong(v.fields[i].0, v.fields[i].1, v'.fields)
    {
      assert v.fields[i] in v.fields;
      var j :| 0 <= j < |v'.fields| && v'.fields[j] == v.fields[i];
      JsonIsItself(v.fields[i].1);
    }
  }

  lemma SharedKeys(fields: seq<(string, Json)>, fields': seq<(string, Json)>)
    requires forall f :: f in fields ==> f in fields'
    ensures forall key :: HasKey(fields, key) ==> HasKey(fields', key)
  {
    forall key | HasKey(fields, key)
      ensures HasKey(fields', key)
    {
      var i :| 0 <= i < |fields| && fields[i].0 == key;
      assert fields[i] in fields;
      var j :| 0 <= j < |fields'| && fields'[j] == fields[i];
    }
  }

  lemma {:induction false} LookupAt(fields: seq<(string, Json)>, i: nat)
    requires UniqueKeys(fields) && i < |fields|
    ensures Lookup(fields, fields[i].0) == Some(fields[i].1)
  {
    if i > 0 {
      LookupAt(fields[1..], i - 1);
    }
  }

  lemma {:induction false} LookupNothing(fields: seq<(string, Json)>, key: string)
    requires !HasKey(fields, key)
    ensures Lookup(fields, key) == None
  {
    if fields != [] {
      assert forall i :: 0 <= i < |fields| - 1 ==> fields[1..][i] == fields[i + 1];
      LookupNothing(fields[1..], key);
    }
  }

  /** A lookup does not depend on the order. */
  lemma LookupWithin(v: Json, v': Json, key: string)
    requires v.Obj? && JsonWithin(v, v')
    ensures v'.Obj?
    ensures match (Lookup(v.fields, key), Lookup(v'.fields, key))
            case (Some(x), Some(x')) => JsonWithin(x, x')
            case (None, None) => true
            case _ => false
  {
    hide Lookup, UniqueKeys;
    if HasKey(v.fields, key) {
      var i :| 0 <= i < |v.fields| && v.fields[i].0 == key;
      LookupAt(v.fields, i);
      assert FieldAmong(v.fields[i].0, v.fields[i].1, v'.fields);
      var j :| 0 <= j < |v'.fields| && v'.fields[j].0 == key && JsonWithin(v.fields[i].1, v'.fields[j].1);
      LookupAt(v'.fields, j);
    } else {
      LookupNothing(v.fields, key);
      LookupNothing(v'.fields, key);
    }
  }

  lemma ScalarWithin(v: Json, v': Json)
    requires JsonWithin(v, v')
    ensures v.Obj? == v'.Obj? && v.Arr? == v'.Arr? && (!v.Obj? && !v.Arr? ==> v == v')
  {
  }

  /** Nor does what an embedded expression asks to have classified. */
  lemma EmbeddedWithin(env: Env, env': Env, v: Json, v': Json)
    requires SameStrings(env, env') && JsonWithin(v, v')
    ensures EmbeddedSql(env, v) == EmbeddedSql(env', v')
  {
    hide Lookup, AfterAssign, JsonWithin;
    ScalarWithin(v, v');
    if v.Obj? {
      LookupWithin(v, v', "query");
      LookupWithin(v, v', "parseMode");
      var query, mode := Lookup(v.fields, "query"), Lookup(v.fields, "parseMode");
      if query.Some? {
        ScalarWithin(query.value, Lookup(v'.fields, "query").value);
      }
      if mode.Some? {
        ScalarWithin(mode.value, Lookup(v'.fields, "parseMode").value);
      }
    }
  }

  // ---- whole texts

  /** The same statement at the same place, its tree within the other's. */
  ghost predicate StmtWithin(s: RawStmt, s': RawStmt) {
    && s.location == s'.location && s.length == s'.length && s.stmt.Some? == s'.stmt.Some?
    && (s.stmt.Some? ==>
          match s.stmt.value
          case Plain(root) => s'.stmt.value.Plain? && TreeWithin(root, s'.stmt.value.root)
          case CreateFunction(root, options, body) =>
            && s'.stmt.value.CreateFunction? && TreeWithin(root, s'.stmt.value.root)
            && options == s'.stmt.value.options && body == s'.stmt.value.sqlBody
          case stmt => s'.stmt.value == stmt)
  }

  ghost predicate ParseWithin(a: Option<seq<RawStmt>>, b: Option<seq<RawStmt>>) {
    && a.Some? == b.Some?
    && (a.Some? ==> |a.value| == |b.value| && forall i :: 0 <= i < |a.value| ==> StmtWithin(a.value[i], b.value[i]))
  }

  ghost predicate BodyWithin(a: Option<Json>, b: Option<Json>) {
    a.Some? == b.Some? && (a.Some? ==> JsonWithin(a.value, b.value))
  }

  ghost predicate EnvWithin(env: Env, env': Env) {
    && SameStrings(env, env')
    && (forall sql :: ParseWithin(env.parse(sql), env'.parse(sql)))
    && (forall sql :: BodyWithin(env.plpgsql(sql), env'.plpgsql(sql)))
  }

  /** The parsers of both environments return the same trees, each in an order of its own. */
  ghost predicate SameUpToOrder(env: Env, env': Env) {
    EnvWithin(env, env') && EnvWithin(env', env)
  }

  lemma EnvParses(env: Env, env': Env, sql: string)
    requires EnvWithin(env, env')
    ensures SameStrings(env, env') && ParseWithin(env.parse(sql), env'.parse(sql)) &&
              Opaque(env, sql) == Opaque(env', sql)
    ensures BodyWithin(env.plpgsql(sql), env'.plpgsql(sql))
  {
    hide StmtWithin;
    assert ParseWithin(env.parse(sql), env'.parse(sql));
  }

  lemma {:induction false} TextWithin(env: Env, env': Env, p: set<string>, sql: string)
    requires Shrinks(env) && Shrinks(env') && EnvWithin(env, env') && MayChange(env, p, sql)
    ensures MayChange(env', p, sql)
    decreases env.size(sql), 4, 0, 0, 0
  {
    hide StmtMayChange, StmtWithin, StmtShrinks, EnvWithin;
    EnvParses(env, env', sql);
    assert ShrinksIn(env, sql) && ShrinksIn(env', sql);
    var stmts, stmts' := env.parse(sql).value, env'.parse(sql).value;
    var i :| 0 <= i < |stmts| && StmtMayChange(env, p, sql, stmts[i]);
    StatementWithin(env, env', p, sql, stmts[i], stmts'[i]);
  }

  lemma {:induction false} StatementWithin(env: Env, env': Env, p: set<string>, sql: string, s: RawStmt, s': RawStmt)
    requires Shrinks(env) && Shrinks(env') && EnvWithin(env, env') && StmtWithin(s, s')
    requires StmtShrinks(env, sql, s) && StmtShrinks(env', sql, s') && StmtMayChange(env, p, sql, s)
    ensures StmtMayChange(env', p, sql, s')
    decreases env.size(sql), 2, 0, 0, 0
  {
    hide TreeMayChange, BodyMayChange, TreeWithin, StmtShrinks, EnvWithin, SameStrings;
    EnvParses(env, env', sql);
    match s.stmt.value
    case DoBlock =>
    case Plain(root) => TreeChangesWithin(env, env', p, root, s'.stmt.value.root);
    case CreateFunction(root, _, _) =>
      if TreeMayChange(env, p, root) {
        TreeChangesWithin(env, env', p, root, s'.stmt.value.root);
      } else {
        RoutineWithin(env, env', p, sql, s, s');
      }
  }

  lemma {:induction false} RoutineWithin(env: Env, env': Env, p: set<string>, sql: string, s: RawStmt, s': RawStmt)
    requires Shrinks(env) && Shrinks(env') && EnvWithin(env, env') && StmtWithin(s, s')
    requires s.stmt.Some? && s.stmt.value.CreateFunction? && s'.stmt.Some? && s'.stmt.value.CreateFunction?
    requires StmtShrinks(env, sql, s) && StmtShrinks(env', sql, s') && BodyMayChange(env, p, sql, s)
    ensures BodyMayChange(env', p, sql, s')
    decreases env.size(sql), 1, 0, 0, 0
  {
    hide MayChange, JsonMayChange, Opaque, StringOption, TreeWithin, JsonWithin, EmbeddedBelow, EnvWithin;
    var options := s.stmt.value.options;
    EnvParses(env, env', RawSql(sql, s));
    OptionWithin(env, env', options, "language");
    OptionWithin(env, env', options, "as");
    var tree, body := env.plpgsql(RawSql(sql, s)), StringOption(env, options, "as");
    if tree.Some? && JsonMayChange(env, p, tree.value, env.size(sql)) {
      TreeOfJsonWithin(env, env', p, tree.value, env'.plpgsql(RawSql(sql, s)).value, env.size(sql), env'.size(sql));
    }
    if body.Some? {
      EnvParses(env, env', body.value);
      if MayChange(env, p, body.value) {
        TextWithin(env, env', p, body.value);
      }
    }
  }

  lemma {:induction false} OptionWithin(env: Env, env': Env, options: seq<Option<DefElem>>, name: string)
    requires SameStrings(env, env')
    ensures StringOption(env, options, name) == StringOption(env', options, name)
  {
    if options != [] {
      OptionWithin(env, env', options[1..], name);
    }
  }

  lemma {:induction false} TreeOfJsonWithin(env: Env, env': Env, p: set<string>, v: Json, v': Json, n: nat, n': nat)
    requires Shrinks(env) && Shrinks(env') && EnvWithin(env, env') && JsonWithin(v, v')
    requires EmbeddedBelow(env, v, n) && EmbeddedBelow(env', v', n') && JsonMayChange(env, p, v, n)
    ensures JsonMayChange(env', p, v', n')
    decreases n, 0, v, 1, 0
  {
    hide FieldMayChange, EnvWithin, UniqueKeys, HasKey;
    match v
    case Arr(items) =>
      var i :| 0 <= i < |items| && JsonMayChange(env, p, items[i], n);
      assert JsonAmong(items[i], v'.items);
      var j :| 0 <= j < |v'.items| && JsonWithin(items[i], v'.items[j]);
      TreeOfJsonWithin(env, env', p, items[i], v'.items[j], n, n');
    case Obj(fields) =>
      var i :| 0 <= i < |fields| && FieldMayChange(env, p, v, i, n);
      assert FieldAmong(fields[i].0, fields[i].1, v'.fields);
      var j :| 0 <= j < |v'.fields| && v'.fields[j].0 == fields[i].0 && JsonWithin(fields[i].1, v'.fields[j].1);
      FieldWithin(env, env', p, v, i, v', j, n, n');
  }

  lemma {:induction false} FieldWithin(env: Env, env': Env, p: set<string>, v: Json, i: nat, v': Json, j: nat, n: nat,
                                       n': nat)
    requires Shrinks(env) && Shrinks(env') && EnvWithin(env, env') && v.Obj? && v'.Obj?
    requires EmbeddedBelow(env, v, n) && EmbeddedBelow(env', v', n') && i < |v.fields| && j < |v'.fields|
    requires v.fields[i].0 == v'.fields[j].0 && JsonWithin(v.fields[i].1, v'.fields[j].1) &&
              FieldMayChange(env, p, v, i, n)
    ensures FieldMayChange(env', p, v', j, n')
    decreases n, 0, v, 0, 0
  {
    hide MayChange, EmbeddedSql, Opaque, JsonMayChange, JsonWithin, EnvWithin;
    var (key, item) := v.fields[i];
    if !RunsDynamicSql(key) {
      if key == "PLpgSQL_expr" {
        EnvParses(env, env', "");
        EmbeddedWithin(env, env', item, v'.fields[j].1);
        var e := EmbeddedSql(env, item);
        if e.Sql? {
          EnvParses(env, env', e.text);
          if MayChange(env, p, e.text) {
            TextWithin(env, env', p, e.text);
          }
        }
      } else {
        TreeOfJsonWithin(env, env', p, item, v'.fields[j].1, n, n');
      }
    }
  }

  /** Whatever orders the trees of all texts involved are traversed in, the verdict is the same. */
  lemma TraversalOrderIrrelevant(env: Env, env': Env, sql: string, pinned: set<string>)
    requires Shrinks(env) && Shrinks(env') && SameUpToOrder(env, env') && "" !in pinned
    ensures Judge(Classify(env, sql), pinned).Allow? <==> Judge(Classify(env', sql), pinned).Allow?
  {
    hide MayChange, Classify, Judge, EnvWithin;
    var p := Protected(pinned);
    VerdictIsExact(env, sql, pinned);
    VerdictIsExact(env', sql, pinned);
    if MayChange(env, p, sql) {
      TextWithin(env, env', p, sql);
    }
    if MayChange(env', p, sql) {
      TextWithin(env', env, p, sql);
    }
  }

  // ---- shuffles

  /** A message whose fields are walked in another order is judged alike. */
  lemma ShuffledTreeIsJudgedAlike(env: Env, n: Node, n': Node, pinned: set<string>)
    requires n.message == n'.message && (forall c :: c in n.children <==> c in n'.children) && "" !in pinned
    ensures Rejected(ScanMutations(env, n), pinned) <==> Rejected(ScanMutations(env, n'), pinned)
  {
    hide SameTree, ScanMutations, Rejected;
    ShuffledTree(n, n');
    ChildOrderIrrelevant(env, n, n', pinned);
  }

  /** The same body, or one whose outermost object has its fields in another order. */
  ghost predicate ShuffledBody(a: Option<Json>, b: Option<Json>) {
    && a.Some? == b.Some?
    && (a.Some? ==> MapsThroughout(a.value) && MapsThroughout(b.value))
    && (a.Some? && a != b ==> a.value.Obj? && b.value.Obj? && forall f :: f in a.value.fields <==> f in b.value.fields)
  }

  lemma StmtIsItself(s: RawStmt)
    ensures StmtWithin(s, s)
  {
    hide TreeWithin;
    if s.stmt.Some? && (s.stmt.value.Plain? || s.stmt.value.CreateFunction?) {
      TreeIsItself(s.stmt.value.root);
    }
  }

  lemma ShuffledEnv(env: Env, env': Env)
    requires env' == env.(plpgsql := env'.plpgsql)
    requires forall sql :: ShuffledBody(env.plpgsql(sql), env'.plpgsql(sql))
    ensures EnvWithin(env, env')
  {
    hide StmtWithin, JsonWithin, MapsThroughout;
    forall sql
      ensures ParseWithin(env.parse(sql), env'.parse(sql)) && BodyWithin(env.plpgsql(sql), env'.plpgsql(sql))
    {
      if env.parse(sql).Some? {
        forall i | 0 <= i < |env.parse(sql).value|
          ensures StmtWithin(env.parse(sql).value[i], env.parse(sql).value[i])
        {
          StmtIsItself(env.parse(sql).value[i]);
        }
      }
      var a, b := env.plpgsql(sql), env'.plpgsql(sql);
      assert ShuffledBody(a, b);
      if a.Some? && a == b {
        JsonIsItself(a.value);
      } else if a.Some? {
        ShuffledFields(a.value, b.value);
      }
    }
  }

  /** Bodies whose outermost objects come in another order leave the verdict on every text as it is. */
  lemma ShuffledBodiesAreJudgedAlike(env: Env, env': Env, sql: string, pinned: set<string>)
    requires Shrinks(env) && Shrinks(env') && "" !in pinned && env' == env.(plpgsql := env'.plpgsql)
    requires forall sql :: ShuffledBody(env.plpgsql(sql), env'.plpgsql(sql))
    ensures Judge(Classify(env, sql), pinned).Allow? <==> Judge(Classify(env', sql), pinned).Allow?
  {
    hide EnvWithin, Classify, Judge;
    ShuffledEnv(env, env');
    forall sql
      ensures ShuffledBody(env'.plpgsql(sql), env.plpgsql(sql))
    {
      assert ShuffledBody(env.plpgsql(sql), env'.plpgsql(sql));
    }
    ShuffledEnv(env', env);
    TraversalOrderIrrelevant(env, env', sql, pinned);
  }
}
