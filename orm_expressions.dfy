/** The part of a LINQ expression tree (`Expression<Func<T, bool>>`) that the
    two ORMs translate into the text of an SQL `WHERE` clause, and the
    property lists they build `INSERT`, `UPDATE` and `CREATE TABLE` text
    from. Reflection is replaced by these explicit records. */
module OrmExpressions {
  import opened Text

  /** `ExpressionType`: the kinds the translators name, and any other. */
  datatype NodeType =
    | Equal | NotEqual | GreaterThan | LessThan | GreaterThanOrEqual | LessThanOrEqual
    | AndAlso | OrElse
    | OtherNode(name: string)

  /** The six comparison kinds. */
  predicate IsComparison(n: NodeType) {
    n == Equal || n == NotEqual || n == GreaterThan || n == LessThan
    || n == GreaterThanOrEqual || n == LessThanOrEqual
  }

  /** The value of a constant, as an `object`. A `DateTime` carries its
      "yyyy-MM-dd HH:mm:ss" rendering and its `ToString()`; any other object
      carries its `ToString()`. */
  datatype Constant =
    | CNull
    | CBool(b: bool)
    | CInt(i: int)
    | CStr(s: string)
    | CDateTime(formatted: string, text: string)
    | COther(text: string)

  /** The member a `MemberExpression` reads. A static property carries the
      value it reads; a field carries whether its owner expression is a
      `ConstantExpression` (a captured local) and the value read from it. */
  datatype Member =
    | Property(name: string, isStatic: bool, staticValue: Constant)
    | Field(name: string, onConstant: bool, fieldValue: Constant)
  {
    function Name(): string {
      match this
      case Property(name, _, _) => name
      case Field(name, _, _) => name
    }
  }

  /** An expression node: a binary node of any kind, a member access, a
      constant, or any other kind of node (a call, a negation, ...). */
  datatype Expr =
    | Binary(node: NodeType, left: Expr, right: Expr)
    | MemberAccess(member: Member)
    | Const(value: Constant)
    | OtherExpr(kind: string)

  /** What a translation throws. */
  datatype SqlError = NotSupported(what: string) | NullReference

  /** A translation's outcome; `:-` propagates the exception. */
  datatype Result<+T> = Ok(value: T) | Fail(error: SqlError) {
    predicate IsFailure() { Fail? }

    function PropagateFailure<U>(): Result<U>
      requires Fail?
    {
      Fail(error)
    }

    function Extract(): T
      requires Ok?
    {
      value
    }
  }

  /** `value.ToString()`; `None` is the `NullReferenceException` on null. */
  function ToText(v: Constant): Option<string> {
    match v
    case CNull => None
    case CBool(b) => Some(if b then "True" else "False")
    case CInt(i) => Some(IntToString(i))
    case CStr(s) => Some(s)
    case CDateTime(_, text) => Some(text)
    case COther(text) => Some(text)
  }

  /** How SQL reads the inside of a quoted literal: `''` stands for one
      quote, and a lone quote would end the literal (`None`). */
  function Undouble(s: string): (r: Option<string>)
    ensures r.Some? ==> |r.value| <= |s|
    decreases |s|
  {
    if s == [] then Some([])
    else if s[0] != '\'' then
      match Undouble(s[1..])
      case None => None
      case Some(rest) => Some([s[0]] + rest)
    else if |s| >= 2 && s[1] == '\'' then
      match Undouble(s[2..])
      case None => None
      case Some(rest) => Some("'" + rest)
    else None
  }

  /** The string a quoted SQL literal stands for. */
  function Unquote(q: string): Option<string> {
    if |q| >= 2 && q[0] == '\'' && q[|q| - 1] == '\'' then Undouble(q[1..|q| - 1]) else None
  }

  /** The CLR value types `GetPostgreSqlType` names, and any other struct. */
  datatype ValueKind = KInt | KBool | KDateTime | KDecimal | KDouble | KFloat | KLong | KShort | KGuid | KOtherStruct(name: string)

  /** A property type: a value type, its `Nullable<>` form, `string`,
      `byte[]`, or any other class. */
  datatype ClrType =
    | ValueType(kind: ValueKind)
    | NullableOf(kind: ValueKind)
    | StringType
    | ByteArray
    | OtherClass(name: string)

  /** A public instance property of the entity type, in declaration order. */
  datatype PropertyInfo = PropertyInfo(name: string, propertyType: ClrType, canWrite: bool)
}
