/**
  * PostgreSQL statements as the policy sees them: the tree of messages the SQL parser returns, the options of a routine
  * definition, and the JSON tree the PL/pgSQL parser returns. The parsers themselves are parameters.
  */
module SqlAst {
  import opened Wrappers

  datatype SetKind = SetValue | SetDefault | SetCurrent | SetMulti | Reset | ResetAll

  datatype ObjectKind = Collation | TsDictionary | TsConfiguration | OtherObject

  /** What one message of the tree is, as far as the policy tells them apart. */
  datatype Message =
    | VariableSet(setKind: SetKind, name: string)
    | Discard(all: bool)
    | Update(relation: Option<string>)
    | Insert(relation: Option<string>)
    | View
    | Rule
    | RangeVar(relname: string)
    | Define(objectKind: ObjectKind)
    | BindsCallbacks
    | FuncCall(names: seq<Option<string>>, args: seq<Option<string>>)
    | OtherMessage

  /** A message with the messages its fields hold. */
  datatype Node = Node(message: Message, children: seq<Node>)

  datatype Arg = NoArg | StringArg(text: string) | ListArg(items: seq<Option<string>>) | OtherArg

  /** An option of a routine definition. */
  datatype DefElem = DefElem(name: string, arg: Arg)

  datatype Statement =
    | Transaction
    | DoBlock
    | CreateFunction(root: Node, options: seq<Option<DefElem>>, sqlBody: bool)
    | Plain(root: Node)

  /** One statement of a text, with where it stands there. */
  datatype RawStmt = RawStmt(stmt: Option<Statement>, location: int, length: int)

  /** A JSON value; the fields of an object come in the order of some traversal. */
  datatype Json = Scalar | Str(s: string) | Num(n: real) | Arr(items: seq<Json>) | Obj(fields: seq<(string, Json)>)

  /**
    * The foreign code: both parsers, the string functions, and a measure by which nested texts shrink.
    */
  datatype Env = Env(
    parse: string -> Option<seq<RawStmt>>,
    plpgsql: string -> Option<Json>,
    lower: string -> string,
    equalFold: (string, string) -> bool,
    blank: string -> bool,
    size: string -> nat
  )

  /** rawStatementSQL: the part of the text that holds the statement, or all of it when the bounds make no sense. */
  function RawSql(sql: string, s: RawStmt): string {
    if s.location < 0 || s.location > |sql| then sql
    else if s.length <= 0 then sql[s.location..]
    else if s.location + s.length > |sql| then sql
    else sql[s.location..s.location + s.length]
  }

  /** The text between the bounds; with no length, all that follows; with bounds that make no sense, everything. */
  lemma RawSqlCuts(before: string, text: string, after: string, s: RawStmt)
    ensures s.location == |before| && s.length == |text| > 0 ==> RawSql(before + text + after, s) == text
    ensures s.location == |before| && s.length <= 0 ==> RawSql(before + text, s) == text
    ensures (s.location < 0 || s.location > |text| || (s.length > 0 && s.location + s.length > |text|)) ==>
              RawSql(text, s) == text
  {
    assert (before + text + after)[|before|..|before| + |text|] == text;
    assert (before + text)[|before|..] == text;
  }

  /** nodeString of an argument, or of the one item of a list. */
  function ArgText(arg: Arg): Option<string> {
    match arg
    case StringArg(text) => Some(text)
    case ListArg(items) => if |items| == 1 then items[0] else None
    case _ => None
  }

  /** A text is given as it stands or as the one item of a list, and in no other way. */
  lemma ArgTextMeans(arg: Arg, text: string)
    ensures ArgText(arg) == Some(text) <==> arg == StringArg(text) || arg == ListArg([Some(text)])
  {
    if arg.ListArg? && |arg.items| == 1 {
      assert arg.items == [arg.items[0]];
    }
  }

  predicate Named(env: Env, option: Option<DefElem>, name: string) {
    option.Some? && env.equalFold(option.value.name, name)
  }

  /** routineStringOption. */
  function StringOption(env: Env, options: seq<Option<DefElem>>, name: string): Option<string> {
    if options == [] then None
    else if Named(env, options[0], name) then ArgText(options[0].value.arg)
    else StringOption(env, options[1..], name)
  }

  /** The first option of that name decides, whatever comes after it; without one there is no value. */
  lemma {:induction false} FirstOptionDecides(env: Env, options: seq<Option<DefElem>>, name: string, k: nat)
    requires k <= |options| && forall j :: 0 <= j < k ==> !Named(env, options[j], name)
    requires k < |options| ==> Named(env, options[k], name)
    ensures StringOption(env, options, name) == if k == |options| then None else ArgText(options[k].value.arg)
  {
    if k > 0 {
      FirstOptionDecides(env, options[1..], name, k - 1);
    }
  }

  /** The value of a field, as a map lookup gives it. */
  function Lookup(fields: seq<(string, Json)>, key: string): Option<Json> {
    if fields == [] then None else if fields[0].0 == key then Some(fields[0].1) else Lookup(fields[1..], key)
  }

  predicate AssignAt(query: string, i: int) {
    0 <= i < |query| - 1 && query[i] == ':' && query[i + 1] == '='
  }

  /** strings.Cut at ":=": what follows it. */
  function AfterAssign(query: string): Option<string> {
    if |query| < 2 then None
    else if AssignAt(query, 0) then Some(query[2..])
    else AfterAssign(query[1..])
  }

  /** It is cut at the first ":=", and not at all when there is none. */
  lemma {:induction false} CutsAtFirst(query: string, i: nat)
    requires i <= |query| && forall j :: 0 <= j < i ==> !AssignAt(query, j)
    requires i < |query| ==> AssignAt(query, i)
    ensures AfterAssign(query) == if i == |query| then None else Some(query[i + 2..])
  {
    if i > 0 && |query| >= 2 {
      assert !AssignAt(query, 0);
      assert forall j :: 0 <= j < i - 1 && AssignAt(query[1..], j) ==> AssignAt(query, j + 1);
      CutsAtFirst(query[1..], i - 1);
    }
  }

  /** What an embedded PL/pgSQL expression asks to have classified. */
  datatype Embedded = Malformed | TypeName | Sql(text: string)

  /** classifyPLpgSQLExpression, up to the classification. */
  function EmbeddedSql(env: Env, expr: Json): Embedded {
    if !expr.Obj? then Malformed
    else
      match Lookup(expr.fields, "query")
      case Some(Str(query)) =>
        if env.blank(query) then Malformed
        else
          var mode := match Lookup(expr.fields, "parseMode") case Some(Num(n)) => n case _ => 0.0;
          if mode == 0.0 then Sql(query)
          else if mode == 2.0 then Sql("SELECT " + query)
          else if mode >= 3.0 then (
            match AfterAssign(query)
            case Some(rhs) => if env.blank(rhs) then Malformed else Sql("SELECT " + rhs)
            case None => Malformed
          )
          else TypeName
      case _ => Malformed
  }

  /** The first field of a name is the one looked up. */
  lemma {:induction false} FirstFieldDecides(fields: seq<(string, Json)>, key: string, k: nat)
    requires k <= |fields| && forall j :: 0 <= j < k ==> fields[j].0 != key
    requires k < |fields| ==> fields[k].0 == key
    ensures Lookup(fields, key) == if k == |fields| then None else Some(fields[k].1)
  {
    if k > 0 {
      FirstFieldDecides(fields[1..], key, k - 1);
    }
  }

  /** The parse mode a PL/pgSQL expression is given; 0 when it is given none. */
  predicate HasMode(fields: seq<(string, Json)>, mode: real) {
    match Lookup(fields, "parseMode")
    case Some(Num(n)) => mode == n
    case _ => mode == 0.0
  }

  /**
    * Statements are read as they stand, expressions as what a SELECT gives, and assignments by what is right of their
    * first ":="; the other modes are names of types.
    */
  lemma EmbeddedByMode(env: Env, fields: seq<(string, Json)>, query: string, mode: real, lhs: string, rhs: string)
    requires Lookup(fields, "query") == Some(Str(query)) && !env.blank(query) && HasMode(fields, mode)
    ensures var e := EmbeddedSql(env, Obj(fields));
            && (mode == 0.0 ==> e == Sql(query))
            && (mode == 2.0 ==> e == Sql("SELECT " + query))
            && (mode != 0.0 && mode != 2.0 && mode < 3.0 ==> e == TypeName)
            && (mode >= 3.0 && query == lhs + ":=" + rhs && (forall j :: 0 <= j < |lhs| ==> !AssignAt(query, j)) ==>
                  e == if env.blank(rhs) then Malformed else Sql("SELECT " + rhs))
            && (mode >= 3.0 && (forall j :: 0 <= j < |query| ==> !AssignAt(query, j)) ==> e == Malformed)
  {
    if query == lhs + ":=" + rhs && (forall j :: 0 <= j < |lhs| ==> !AssignAt(query, j)) {
      assert query[|lhs|] == ':' && query[|lhs| + 1] == '=' && query[|lhs| + 2..] == rhs;
      CutsAtFirst(query, |lhs|);
    }
    if forall j :: 0 <= j < |query| ==> !AssignAt(query, j) {
      CutsAtFirst(query, |query|);
    }
  }

  /** An expression without a query is malformed, and so is one whose query is blank. */
  lemma EmbeddedNeedsQuery(env: Env, expr: Json)
    ensures EmbeddedSql(env, expr).Malformed? || (expr.Obj? && exists q :: Lookup(expr.fields, "query") == Some(Str(q)))
    ensures expr.Obj? ==> forall q :: Lookup(expr.fields, "query") == Some(Str(q)) && env.blank(q) ==>
              EmbeddedSql(env, expr).Malformed?
  {
  }

  const DYNAMIC := {"PLpgSQL_stmt_dynexecute", "PLpgSQL_stmt_dynfors", "dynquery"}
  const EXPR := "PLpgSQL_expr"

  /** Every text embedded in the tree has a size below n. */
  predicate EmbeddedBelow(env: Env, tree: Json, n: nat) {
    match tree
    case Arr(items) => forall i :: 0 <= i < |items| ==> EmbeddedBelow(env, items[i], n)
    case Obj(fields) =>
      forall i :: 0 <= i < |fields| ==>
        if fields[i].0 == EXPR then
          var e := EmbeddedSql(env, fields[i].1);
          e.Sql? ==> env.size(e.text) < n
        else EmbeddedBelow(env, fields[i].1, n)
    case _ => true
  }

  /** Texts nested in a text are smaller than it, so that classification ends. */
  ghost predicate Shrinks(env: Env) {
    forall sql :: ShrinksIn(env, sql)
  }

  ghost predicate ShrinksIn(env: Env, sql: string) {
    env.parse(sql).Some? ==>
      forall i :: 0 <= i < |env.parse(sql).value| ==> StmtShrinks(env, sql, env.parse(sql).value[i])
  }

  ghost predicate StmtShrinks(env: Env, sql: string, s: RawStmt) {
    s.stmt.Some? && s.stmt.value.CreateFunction? ==>
      && (var body := StringOption(env, s.stmt.value.options, "as");
          body.Some? ==> env.size(body.value) < env.size(sql))
      && (var tree := env.plpgsql(RawSql(sql, s)); tree.Some? ==> EmbeddedBelow(env, tree.value, env.size(sql)))
  }
}
