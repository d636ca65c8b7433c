/** The SQL text `ORMContext` (Mini-HttpServer) builds: the `WHERE` clause
    translated from a predicate, the `SELECT` around it, the column
    definitions of `CREATE TABLE`, and the `INSERT` and `UPDATE` statements.
    Executing the statements is not modelled. */
module OrmContext {
  import opened Text
  import opened OrmExpressions

  /** `GetSqlOperator`: the eight supported node kinds have an SQL operator;
      any other throws `NotSupportedException`. */
  function SqlOperator(node: NodeType): (r: Result<string>)
    ensures r.Ok? <==> IsComparison(node) || node == AndAlso || node == OrElse
  {
    match node
    case Equal => Ok("=")
    case NotEqual => Ok("<>")
    case GreaterThan => Ok(">")
    case LessThan => Ok("<")
    case GreaterThanOrEqual => Ok(">=")
    case LessThanOrEqual => Ok("<=")
    case AndAlso => Ok("AND")
    case OrElse => Ok("OR")
    case OtherNode(name) => Fail(NotSupported(name))
  }

  /** The node kind an SQL operator stands for. */
  function NodeOfOperator(op: string): Option<NodeType> {
    if op == "=" then Some(Equal)
    else if op == "<>" then Some(NotEqual)
    else if op == ">" then Some(GreaterThan)
    else if op == "<" then Some(LessThan)
    else if op == ">=" then Some(GreaterThanOrEqual)
    else if op == "<=" then Some(LessThanOrEqual)
    else if op == "AND" then Some(AndAlso)
    else if op == "OR" then Some(OrElse)
    else None
  }

  /** Distinct node kinds get distinct operators: the operator gives the
      node kind back, and every operator read back is the one written. */
  lemma OperatorRoundTrip(node: NodeType, op: string)
    ensures SqlOperator(node) == Ok(op) ==> NodeOfOperator(op) == Some(node)
    ensures NodeOfOperator(op) == Some(node) ==> SqlOperator(node) == Ok(op)
  {
  }

  /** `FormatConstant`: null is `NULL`; a `DateTime` is quoted in the
      "yyyy-MM-dd HH:mm:ss" form; a string is quoted with every `'` doubled;
      a bool is `TRUE` or `FALSE`; anything else is its `ToString()`. */
  function FormatConstant(v: Constant): string {
    match v
    case CNull => "NULL"
    case CDateTime(formatted, _) => "'" + formatted + "'"
    case CStr(s) => "'" + Replace(s, "'", "''") + "'"
    case CBool(b) => if b then "TRUE" else "FALSE"
    case CInt(i) => IntToString(i)
    case COther(text) => text
  }

  /** Reading the doubled text back gives the original string. */
  lemma {:induction false} UndoubleReplace(s: string)
    ensures Undouble(Replace(s, "'", "''")) == Some(s)
    decreases |s|
  {
    if s != [] {
      UndoubleReplace(s[1..]);
      var rest := Replace(s[1..], "'", "''");
      if s[0] == '\'' {
        assert MatchesAt(s, 0, "'", false);
        assert s[|"'"|..] == s[1..];
        var r := "''" + rest;
        assert r[2..] == rest;
        assert Replace(s, "'", "''") == r;
        assert "'" + s[1..] == s;
      } else {
        assert !CharEq(false, s[0], "'"[0]);
        assert !MatchesAt(s, 0, "'", false);
        var r := [s[0]] + rest;
        assert r[1..] == rest;
        assert Replace(s, "'", "''") == r;
        assert [s[0]] + s[1..] == s;
      }
    }
  }

  /** A string constant is a well-formed SQL literal for exactly that string. */
  lemma StringConstantRoundTrip(s: string)
    ensures Unquote(FormatConstant(CStr(s))) == Some(s)
  {
    var q := FormatConstant(CStr(s));
    var inner := Replace(s, "'", "''");
    assert q[1..|q| - 1] == inner;
    UndoubleReplace(s);
  }

  /** Different strings give different literals. */
  lemma StringConstantInjective(s: string, t: string)
    requires FormatConstant(CStr(s)) == FormatConstant(CStr(t))
    ensures s == t
  {
    StringConstantRoundTrip(s);
    StringConstantRoundTrip(t);
  }

  /** `ParseMemberExpression`: an instance property is its bare name; a
      static property, or a field of a captured constant, is its value
      formatted as a constant; a field of anything else throws. */
  function ParseMember(m: Member): Result<string> {
    match m
    case Property(name, isStatic, value) => if isStatic then Ok(FormatConstant(value)) else Ok(name)
    case Field(name, onConstant, value) => if onConstant then Ok(FormatConstant(value)) else Fail(NotSupported(name))
  }

  /** `ParseExpression`: the switch on the node kind. */
  function ParseExpression(e: Expr): Result<string>
    decreases e, 1
  {
    match e
    case Binary(node, _, _) =>
      if IsComparison(node) then ParseBinary(e)
      else if node == AndAlso || node == OrElse then ParseLogical(e)
      else Fail(NotSupported("binary node"))
    case MemberAccess(m) => ParseMember(m)
    case Const(v) => Ok(FormatConstant(v))
    case OtherExpr(kind) => Fail(NotSupported(kind))
  }

  /** `ParseBinaryExpression`: `left op right`, without parentheses. */
  function ParseBinary(b: Expr): Result<string>
    requires b.Binary?
    decreases b, 0
  {
    var left :- ParseExpression(b.left);
    var right :- ParseExpression(b.right);
    var op :- SqlOperator(b.node);
    Ok(left + " " + op + " " + right)
  }

  /** `ParseLogicalExpression`: `(left op right)`. */
  function ParseLogical(b: Expr): Result<string>
    requires b.Binary?
    decreases b, 0
  {
    var left :- ParseExpression(b.left);
    var right :- ParseExpression(b.right);
    var op :- SqlOperator(b.node);
    Ok("(" + left + " " + op + " " + right + ")")
  }

  /** The expressions this translator accepts: binary nodes of the eight
      supported kinds over accepted operands, properties, fields of captured
      constants, and constants. */
  predicate Translatable(e: Expr) {
    match e
    case Binary(node, l, r) => (IsComparison(node) || node == AndAlso || node == OrElse) && Translatable(l) && Translatable(r)
    case MemberAccess(m) => m.Property? || m.onConstant
    case Const(_) => true
    case OtherExpr(_) => false
  }

  /** The translation succeeds exactly on the translatable expressions. */
  lemma {:induction false} ParseSucceedsIff(e: Expr)
    ensures ParseExpression(e).Ok? <==> Translatable(e)
  {
    match e
    case Binary(node, l, r) =>
      ParseSucceedsIff(l);
      ParseSucceedsIff(r);
    case MemberAccess(m) =>
    case Const(_) =>
    case OtherExpr(_) =>
  }

  /** A comparison is written without parentheses and an `AndAlso` /
      `OrElse` inside them, with the operands' own texts around the operator. */
  lemma BinaryShape(node: NodeType, l: Expr, r: Expr, ls: string, rs: string)
    requires ParseExpression(l) == Ok(ls) && ParseExpression(r) == Ok(rs)
    ensures IsComparison(node) ==> ParseExpression(Binary(node, l, r)) == Ok(ls + " " + SqlOperator(node).value + " " + rs)
    ensures node == AndAlso ==> ParseExpression(Binary(node, l, r)) == Ok("(" + ls + " AND " + rs + ")")
    ensures node == OrElse ==> ParseExpression(Binary(node, l, r)) == Ok("(" + ls + " OR " + rs + ")")
  {
    if node == AndAlso {
      assert "(" + ls + " " + "AND" + " " + rs + ")" == "(" + ls + " AND " + rs + ")";
    } else if node == OrElse {
      assert "(" + ls + " " + "OR" + " " + rs + ")" == "(" + ls + " OR " + rs + ")";
    }
  }

  /** `BuildSqlQuery<T>`: `SELECT * FROM <T's name>s WHERE <clause>`, with
      ` LIMIT 1` for a single result. */
  function BuildSqlQuery(typeName: string, body: Expr, singleResult: bool): (r: Result<string>)
    ensures r.Ok? <==> ParseExpression(body).Ok?
  {
    var whereClause :- ParseExpression(body);
    var sql := "SELECT * FROM " + typeName + "s WHERE " + whereClause;
    Ok(if singleResult then sql + " LIMIT 1" else sql)
  }

  /** The query is the clause between a fixed prefix and the limit, which
      is there exactly for a single result. */
  lemma QueryParts(typeName: string, body: Expr, singleResult: bool)
    requires ParseExpression(body).Ok?
    ensures var q := BuildSqlQuery(typeName, body, singleResult).value;
      var prefix := "SELECT * FROM " + typeName + "s WHERE ";
      var suffix := if singleResult then " LIMIT 1" else "";
      && |prefix| + |suffix| <= |q|
      && q[..|prefix|] == prefix
      && q[|prefix|..|q| - |suffix|] == ParseExpression(body).value
      && q[|q| - |suffix|..] == suffix
  {
  }

  /** `GetPostgreSqlType`. */
  function KindSqlType(k: ValueKind): string {
    match k
    case KInt => "INTEGER"
    case KBool => "BOOLEAN"
    case KDateTime => "TIMESTAMP"
    case KDecimal => "NUMERIC(18,2)"
    case KDouble => "DOUBLE PRECISION"
    case KFloat => "REAL"
    case KLong => "BIGINT"
    case KShort => "SMALLINT"
    case KGuid => "UUID"
    case KOtherStruct(_) => "TEXT"
  }

  function PostgreSqlType(t: ClrType): string {
    match t
    case ValueType(k) => KindSqlType(k)
    case NullableOf(k) => KindSqlType(k)
    case StringType => "VARCHAR(255)"
    case ByteArray => "BYTEA"
    case OtherClass(_) => "TEXT"
  }

  /** A type and its nullable form map to the same SQL type, and exactly the
      unlisted types map to `TEXT`. */
  lemma SqlTypeLaws(k: ValueKind, t: ClrType)
    ensures PostgreSqlType(ValueType(k)) == PostgreSqlType(NullableOf(k))
    ensures PostgreSqlType(t) == "TEXT" <==> t.OtherClass? || ((t.ValueType? || t.NullableOf?) && t.kind.KOtherStruct?)
  {
  }

  /** A property named `id`, in any case. */
  predicate IsIdName(name: string) {
    EqualsCi(true, name, "id")
  }

  const IdentityColumn: string := "INTEGER GENERATED ALWAYS AS IDENTITY PRIMARY KEY"

  /** The column definition `Create<T>(tableName)` writes for one property. */
  function ColumnDefinition(p: PropertyInfo): string {
    if IsIdName(p.name) then p.name + " " + IdentityColumn
    else if p.propertyType == StringType then p.name + " " + PostgreSqlType(p.propertyType) + " NULL"
    else p.name + " " + PostgreSqlType(p.propertyType)
  }

  /** A column definition starts with the property's name and a space, so
      the column name reads back as the text before the first space. */
  lemma ColumnNameReadBack(p: PropertyInfo)
    requires ' ' !in p.name
    ensures var c := ColumnDefinition(p);
      |p.name| < |c| && c[..|p.name|] == p.name && IndexOfChar(c, ' ', 0) == |p.name|
  {
    var c := ColumnDefinition(p);
    assert c[..|p.name|] == p.name;
    assert c[|p.name|] == ' ';
    IndexOfCharIs(c, ' ', 0, |p.name|);
  }

  /** Only the `id` column is the identity primary key. */
  lemma IdentityOnlyForId(p: PropertyInfo)
    ensures var c := ColumnDefinition(p);
      IsIdName(p.name) <==> (|c| >= 11 && c[|c| - 11..] == "PRIMARY KEY")
  {
    var c := ColumnDefinition(p);
    if IsIdName(p.name) {
      assert c[|c| - 11..] == IdentityColumn[|IdentityColumn| - 11..];
    } else {
      var ty := PostgreSqlType(p.propertyType);
      if p.propertyType == StringType {
        assert c[|c| - 1] == 'L';
      } else {
        assert c[|c| - 1] == ty[|ty| - 1];
        assert ty[|ty| - 1] != 'Y';
      }
    }
  }

  /** The column definitions of all properties, in order. */
  function ColumnDefinitions(props: seq<PropertyInfo>): (r: seq<string>)
    ensures |r| == |props| && forall i :: 0 <= i < |props| ==> r[i] == ColumnDefinition(props[i])
  {
    seq(|props|, i requires 0 <= i < |props| => ColumnDefinition(props[i]))
  }

  /** The `CREATE TABLE` statement around the column definitions. */
  function CreateTableText(tableName: string, columns: seq<string>): string {
    "CREATE TABLE IF NOT EXISTS " + tableName + " (\n        " + JoinWith(columns, ",\n    ") + "\n    );"
  }

  /** `Create<T>(tableName)`: the `foreach` over the properties fills
      `columnList`, which is then joined into the statement. */
  method CreateTableSql(props: seq<PropertyInfo>, tableName: string) returns (sql: string)
    ensures sql == CreateTableText(tableName, ColumnDefinitions(props))
  {
    var columnList: seq<string> := [];
    var i := 0;
    while i < |props|
      invariant 0 <= i <= |props|
      invariant |columnList| == i
      invariant forall j :: 0 <= j < i ==> columnList[j] == ColumnDefinition(props[j])
    {
      var property := props[i];
      var sqlType := PostgreSqlType(property.propertyType);
      var columnDefinition := property.name + " " + sqlType;
      if EqualsCi(true, property.name, "id") {
        columnDefinition := property.name + " " + IdentityColumn;
      } else if property.propertyType == StringType {
        columnDefinition := columnDefinition + " NULL";
      }
      assert columnDefinition == ColumnDefinition(property);
      columnList := columnList + [columnDefinition];
      i := i + 1;
    }
    assert columnList == ColumnDefinitions(props);
    sql := CreateTableText(tableName, columnList);
  }

  /** The properties `Create(entity)` and `Update` write: the writable ones
      other than `id`, in declaration order. */
  function WritableColumns(props: seq<PropertyInfo>): (r: seq<PropertyInfo>)
    ensures |r| <= |props|
    ensures forall p | p in r :: p in props && p.canWrite && !IsIdName(p.name)
    ensures forall p | p in props && p.canWrite && !IsIdName(p.name) :: p in r
  {
    if props == [] then []
    else
      var rest := WritableColumns(props[1..]);
      if props[0].canWrite && !IsIdName(props[0].name) then [props[0]] + rest else rest
  }

  /** The selection keeps reflection order: selecting from two lists in
      turn is selecting from their concatenation. */
  lemma {:induction false} WritableColumnsAppend(a: seq<PropertyInfo>, b: seq<PropertyInfo>)
    ensures WritableColumns(a + b) == WritableColumns(a) + WritableColumns(b)
    decreases |a|
  {
    if a == [] {
      assert a + b == b;
    } else {
      assert (a + b)[0] == a[0] && (a + b)[1..] == a[1..] + b;
      WritableColumnsAppend(a[1..], b);
    }
  }

  function Names(ps: seq<PropertyInfo>): (r: seq<string>)
    ensures |r| == |ps| && forall i :: 0 <= i < |ps| ==> r[i] == ps[i].name
  {
    seq(|ps|, i requires 0 <= i < |ps| => ps[i].name)
  }

  function ParameterNames(ps: seq<PropertyInfo>): (r: seq<string>)
    ensures |r| == |ps| && forall i :: 0 <= i < |ps| ==> r[i] == "@" + ps[i].name
  {
    seq(|ps|, i requires 0 <= i < |ps| => "@" + ps[i].name)
  }

  function SetClauses(ps: seq<PropertyInfo>): (r: seq<string>)
    ensures |r| == |ps| && forall i :: 0 <= i < |ps| ==> r[i] == ps[i].name + " = @" + ps[i].name
  {
    seq(|ps|, i requires 0 <= i < |ps| => ps[i].name + " = @" + ps[i].name)
  }

  /** The statement `Create(entity, tableName)` sends: the written columns
      and, in the same order, one `@name` parameter per column. */
  function InsertSql(props: seq<PropertyInfo>, tableName: string): string {
    var columns := WritableColumns(props);
    "\n    INSERT INTO " + tableName + " (" + JoinWith(Names(columns), ", ") + ") \n    VALUES ("
      + JoinWith(ParameterNames(columns), ", ") + ")\n    RETURNING *"
  }

  /** The statement `Update` sends, or nothing when there is no column to set. */
  function UpdateSql(props: seq<PropertyInfo>, tableName: string): Option<string> {
    var columns := WritableColumns(props);
    if |columns| == 0 then None
    else Some("UPDATE " + tableName + " SET " + JoinWith(SetClauses(columns), ", ") + " WHERE id = @id")
  }

  /** `Update` sends nothing exactly when no property is writable apart
      from `id`. */
  lemma UpdateNothingIff(props: seq<PropertyInfo>, tableName: string)
    ensures UpdateSql(props, tableName).None? <==> forall p | p in props :: !p.canWrite || IsIdName(p.name)
  {
    var columns := WritableColumns(props);
    if columns != [] {
      assert columns[0] in columns;
    }
  }
}
