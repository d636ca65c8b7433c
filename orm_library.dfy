/** The SQL text the earlier `ORM` class (`ORMLibrary`) builds: a fully
    parenthesised `WHERE` clause, the trimmed `SELECT` around it, and the
    `INSERT` and `UPDATE` statements assembled in a `StringBuilder`.
    Executing the statements is not modelled. */
module OrmLibrary {
  import opened Text
  import opened OrmExpressions

  /** `GetSqlOperator`: six comparisons and `AndAlso`; there is no entry for
      `OrElse`, which throws like every other node kind. */
  function SqlOperator(node: NodeType): (r: Result<string>)
    ensures r.Ok? <==> IsComparison(node) || node == AndAlso
    ensures node == OrElse ==> r.Fail?
  {
    match node
    case Equal => Ok("=")
    case AndAlso => Ok("AND")
    case NotEqual => Ok("<>")
    case GreaterThan => Ok(">")
    case LessThan => Ok("<")
    case GreaterThanOrEqual => Ok(">=")
    case LessThanOrEqual => Ok("<=")
    case OrElse => Fail(NotSupported("OrElse"))
    case OtherNode(name) => Fail(NotSupported(name))
  }

  /** `FormatConstant`: a string between quotes, as it is; anything else its
      `ToString()`, which throws on null. */
  function FormatConstant(v: Constant): Result<string> {
    match v
    case CStr(s) => Ok("'" + s + "'")
    case _ => if ToText(v).None? then Fail(NullReference) else Ok(ToText(v).value)
  }

  /** `ParseExpression`: every binary node as `(left op right)`, any member
      as its lower-cased name, a constant formatted. */
  function ParseExpression(e: Expr): Result<string> {
    match e
    case Binary(node, l, r) =>
      var left :- ParseExpression(l);
      var right :- ParseExpression(r);
      var op :- SqlOperator(node);
      Ok("(" + left + " " + op + " " + right + ")")
    case MemberAccess(m) => Ok(ToLower(m.Name()))
    case Const(v) => FormatConstant(v)
    case OtherExpr(kind) => Fail(NotSupported(kind))
  }

  /** The expressions this translator accepts: no `OrElse` or other unlisted
      node, no null constant, no other kind of node. */
  predicate Translatable(e: Expr) {
    match e
    case Binary(node, l, r) => (IsComparison(node) || node == AndAlso) && Translatable(l) && Translatable(r)
    case MemberAccess(_) => true
    case Const(v) => v != CNull
    case OtherExpr(_) => false
  }

  /** The translation succeeds exactly on the translatable expressions. */
  lemma {:induction false} ParseSucceedsIff(e: Expr)
    ensures ParseExpression(e).Ok? <==> Translatable(e)
  {
    match e
    case Binary(node, l, r) =>
      ParseSucceedsIff(l);
      ParseSucceedsIff(r);
    case MemberAccess(_) =>
    case Const(_) =>
    case OtherExpr(_) =>
  }

  /** Net parenthesis depth of a text: each `(` counts one up, each `)` one down. */
  function Depth(s: string): int {
    if s == [] then 0
    else Depth(s[..|s| - 1]) + (if s[|s| - 1] == '(' then 1 else if s[|s| - 1] == ')' then -1 else 0)
  }

  lemma {:induction false} DepthAppend(a: string, b: string)
    ensures Depth(a + b) == Depth(a) + Depth(b)
    decreases |b|
  {
    if b == [] {
      assert a + b == a;
    } else {
      var b' := b[..|b| - 1];
      assert (a + b)[..|a + b| - 1] == a + b';
      DepthAppend(a, b');
    }
  }

  /** No leaf renders with a parenthesis. */
  predicate PlainLeaves(e: Expr) {
    match e
    case Binary(_, l, r) => PlainLeaves(l) && PlainLeaves(r)
    case _ => ParseExpression(e).Ok? ==> Depth(ParseExpression(e).value) == 0
  }

  /** A binary node renders as its operands inside one pair of parentheses
      around the operator. */
  lemma BinaryShape(node: NodeType, l: Expr, r: Expr, ls: string, rs: string)
    requires ParseExpression(l) == Ok(ls) && ParseExpression(r) == Ok(rs)
    requires IsComparison(node) || node == AndAlso
    ensures ParseExpression(Binary(node, l, r)) == Ok("(" + ls + " " + SqlOperator(node).value + " " + rs + ")")
  {
  }

  /** Each binary node adds one matched pair of parentheses, so a clause
      whose leaves render without parentheses is balanced. */
  lemma {:induction false} ClauseBalanced(e: Expr)
    requires PlainLeaves(e) && ParseExpression(e).Ok?
    ensures Depth(ParseExpression(e).value) == 0
  {
    match e
    case Binary(node, l, r) =>
      ClauseBalanced(l);
      ClauseBalanced(r);
      var op := SqlOperator(node).value;
      assert forall k :: 0 <= k < |op| ==> op[k] != '(' && op[k] != ')';
      WrappedDepth(ParseExpression(l).value, op, ParseExpression(r).value);
    case MemberAccess(_) =>
    case Const(_) =>
    case OtherExpr(_) =>
  }

  /** Two balanced operands around an operator without parentheses, inside
      one pair of parentheses, are balanced. */
  lemma WrappedDepth(ls: string, op: string, rs: string)
    requires Depth(ls) == 0 && Depth(rs) == 0
    requires forall k :: 0 <= k < |op| ==> op[k] != '(' && op[k] != ')'
    ensures Depth("(" + ls + " " + op + " " + rs + ")") == 0
  {
    var mid := " " + op + " ";
    assert Depth(mid) == 0 by {
      OperatorDepth(op);
      DepthAppend(" ", op);
      DepthAppend(" " + op, " ");
    }
    DepthAppend("(", ls);
    DepthAppend("(" + ls, mid);
    DepthAppend("(" + ls + mid, rs);
    DepthAppend("(" + ls + mid + rs, ")");
    assert "(" + ls + mid + rs + ")" == "(" + ls + " " + op + " " + rs + ")";
  }

  /** A text without parentheses has depth zero. */
  lemma {:induction false} OperatorDepth(s: string)
    requires forall k :: 0 <= k < |s| ==> s[k] != '(' && s[k] != ')'
    ensures Depth(s) == 0
    decreases |s|
  {
    if s != [] {
      OperatorDepth(s[..|s| - 1]);
    }
  }

  /** A string constant reads back as the same string exactly when it holds
      no quote: a quote in it is not escaped and ends the literal early. */
  lemma StringConstantRoundTripIff(s: string)
    ensures Unquote(FormatConstant(CStr(s)).value) == Some(s) <==> '\'' !in s
  {
    var q := FormatConstant(CStr(s)).value;
    assert q[1..|q| - 1] == s;
    UndoubleIdentity(s);
  }

  /** Reading a literal's inside changes it exactly when it holds a quote. */
  lemma {:induction false} UndoubleIdentity(s: string)
    ensures Undouble(s) == Some(s) <==> '\'' !in s
    decreases |s|
  {
    if s != [] {
      UndoubleIdentity(s[1..]);
      if s[0] != '\'' {
        assert s == [s[0]] + s[1..];
        assert ('\'' in s) == ('\'' in s[1..]);
        if Undouble(s[1..]).Some? {
          var rest := Undouble(s[1..]).value;
          assert ([s[0]] + rest == s) == (rest == s[1..]);
        }
      }
    }
  }

  /** `BuildSqlQuery`: `SELECT * FROM <type name lower-cased> WHERE <clause>
      <limit>`, trimmed. */
  function BuildSqlQuery(typeName: string, body: Expr, singleResult: bool): (r: Result<string>)
    ensures r.Ok? <==> ParseExpression(body).Ok?
  {
    var whereClause :- ParseExpression(body);
    var limitClause := if singleResult then "LIMIT 1" else "";
    Ok(Trim("SELECT * FROM " + ToLower(typeName) + " WHERE " + whereClause + " " + limitClause))
  }

  /** The trim removes exactly the blank a multiple-result query leaves at
      its end, so the query never ends in a blank. */
  lemma QueryShape(typeName: string, body: Expr, singleResult: bool, w: string)
    requires ParseExpression(body) == Ok(w)
    requires w != [] && !IsSpace(w[|w| - 1])
    ensures BuildSqlQuery(typeName, body, singleResult)
      == Ok("SELECT * FROM " + ToLower(typeName) + " WHERE " + w + (if singleResult then " LIMIT 1" else ""))
  {
    var x := "SELECT * FROM " + ToLower(typeName) + " WHERE " + w;
    assert x[0] == 'S' && x[|x| - 1] == w[|w| - 1];
    if singleResult {
      var y := x + " " + "LIMIT 1";
      assert y[0] == 'S' && y[|y| - 1] == '1';
      TrimClean(y);
      assert x + " LIMIT 1" == y;
    } else {
      TrimTrailingBlank(x);
      assert x + " " + "" == x + " ";
      assert x + "" == x;
      assert BuildSqlQuery(typeName, body, singleResult) == Ok(Trim(x + " "));
    }
  }

  /** `typeof(T).GetProperties().Skip(1)`, names lower-cased: the columns
      `Create` and `Update` write. */
  function Columns(props: seq<PropertyInfo>): (r: seq<string>)
    ensures |r| == if props == [] then 0 else |props| - 1
    ensures forall i :: 0 <= i < |r| ==> r[i] == ToLower(props[i + 1].name)
  {
    if props == [] then [] else seq(|props| - 1, i requires 0 <= i < |props| - 1 => ToLower(props[i + 1].name))
  }

  function Parameters(columns: seq<string>): (r: seq<string>)
    ensures |r| == |columns| && forall i :: 0 <= i < |r| ==> r[i] == "@" + columns[i]
  {
    seq(|columns|, i requires 0 <= i < |columns| => "@" + columns[i])
  }

  function Assignments(columns: seq<string>): (r: seq<string>)
    ensures |r| == |columns| && forall i :: 0 <= i < |r| ==> r[i] == columns[i] + " = @" + columns[i]
  {
    seq(|columns|, i requires 0 <= i < |columns| => columns[i] + " = @" + columns[i])
  }

  /** Appends `part + ","` for each part to `sb`, as the `foreach` loops do. */
  method AppendTerminated(sb: string, parts: seq<string>) returns (r: string)
    ensures r == sb + Terminated(parts, ",")
  {
    r := sb;
    var i := 0;
    while i < |parts|
      invariant 0 <= i <= |parts|
      invariant r == sb + Terminated(parts[..i], ",")
    {
      assert parts[..i + 1][..i] == parts[..i];
      r := r + parts[i] + ",";
      i := i + 1;
    }
    assert parts[..i] == parts;
  }

  /** `StringBuilder.Remove(Length - 1, 1)`. */
  function RemoveLast(s: string): string
    requires s != []
  {
    s[..|s| - 1]
  }

  /** Dropping the comma after the last part leaves the parts joined by
      commas; with no part it drops the builder's last character instead. */
  lemma TerminatedRemoved(prefix: string, parts: seq<string>)
    requires prefix != []
    ensures parts != [] ==> RemoveLast(prefix + Terminated(parts, ",")) == prefix + JoinWith(parts, ",")
    ensures parts == [] ==> RemoveLast(prefix + Terminated(parts, ",")) == RemoveLast(prefix)
  {
    if parts != [] {
      TerminatedIsJoined(parts, ",");
      assert prefix + Terminated(parts, ",") == (prefix + JoinWith(parts, ",")) + ",";
    } else {
      assert prefix + Terminated(parts, ",") == prefix;
    }
  }

  /** The statement `Create` sends. With at least one column after the first
      property it lists the columns and one `@column` parameter per column,
      both comma-separated; with none, the two `Remove` calls eat the opening
      parentheses. */
  method InsertSql(props: seq<PropertyInfo>, tableName: string) returns (sql: string)
    ensures var columns := Columns(props);
      var head := "INSERT INTO " + ToLower(tableName);
      && (columns != [] ==> sql == head + " (" + JoinWith(columns, ",") + ") VALUES (" + JoinWith(Parameters(columns), ",") + ")")
      && (columns == [] ==> sql == head + " ) VALUES )")
  {
    var columns := Columns(props);
    var head := "INSERT INTO " + ToLower(tableName);
    var sb := head + " (";
    var withColumns := AppendTerminated(sb, columns);
    TerminatedRemoved(sb, columns);
    sb := RemoveLast(withColumns) + ") VALUES (";
    var values := sb;
    var withValues := AppendTerminated(sb, Parameters(columns));
    TerminatedRemoved(values, Parameters(columns));
    sql := RemoveLast(withValues) + ")";
    if columns == [] {
      assert RemoveLast(head + " (") == head + " ";
      assert RemoveLast(values) == head + " ) VALUES ";
    }
  }

  /** The statement `Update` sends: with at least one column after the first
      property, `column = @column` for each, comma-separated; with none, the
      `Remove` call eats the blank after `SET`. */
  method UpdateSql(props: seq<PropertyInfo>, tableName: string) returns (sql: string)
    ensures var columns := Columns(props);
      var head := "UPDATE " + ToLower(tableName) + " SET";
      && (columns != [] ==> sql == head + " " + JoinWith(Assignments(columns), ",") + " WHERE id = @id")
      && (columns == [] ==> sql == head + " WHERE id = @id")
  {
    var columns := Columns(props);
    var head := "UPDATE " + ToLower(tableName) + " SET";
    var sb := head + " ";
    var withAssignments := AppendTerminated(sb, Assignments(columns));
    TerminatedRemoved(sb, Assignments(columns));
    sql := RemoveLast(withAssignments) + " WHERE id = @id";
    if columns == [] {
      assert RemoveLast(sb) == head;
    }
  }

  /** The column list of a statement with columns reads back, split at the
      commas, as the columns, when no name holds a comma. */
  lemma ColumnListReadBack(props: seq<PropertyInfo>)
    requires |props| >= 2
    requires forall p | p in props :: ',' !in p.name
    ensures Split(JoinWith(Columns(props), ","), ',') == Columns(props)
  {
    var columns := Columns(props);
    forall c | c in columns ensures ',' !in c {
      var i :| 0 <= i < |columns| && columns[i] == c;
      assert props[i + 1] in props;
      assert forall k :: 0 <= k < |c| ==> c[k] == Fold(props[i + 1].name[k]);
    }
    JoinWithChar(columns, ',');
    SplitJoin(columns, ',');
  }
}
