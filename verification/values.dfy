/**
 * Typed cell values, the three column types of a schema, the coercion that
 * `insert` applies to each raw text value, and Python's `==` between cell
 * values as the where-clause filter uses it.
 */
module Values {
  import opened Wrappers
  import opened Text

  /** The column types a schema may declare (`int`, `str`, `bool`). */
  datatype ColType = TInt | TStr | TBool

  /** A stored cell: an integer, a string or a boolean. */
  datatype Value = VInt(i: int) | VStr(s: string) | VBool(b: bool)

  /** The name a schema stores for a type. */
  function TypeName(t: ColType): string {
    match t
    case TInt => "int"
    case TStr => "str"
    case TBool => "bool"
  }

  /** Membership in the table of valid type names; `None` for anything else. */
  function ParseType(name: string): (r: Option<ColType>)
    ensures r.Some? <==> name in {"int", "str", "bool"}
    ensures r.Some? ==> TypeName(r.value) == name
    ensures forall t :: name == TypeName(t) ==> r == Some(t)
  {
    if name == "int" then Some(TInt)
    else if name == "str" then Some(TStr)
    else if name == "bool" then Some(TBool)
    else None
  }

  /** A value carries the type a column declares. */
  predicate HasType(v: Value, t: ColType) {
    match t
    case TInt => v.VInt?
    case TStr => v.VStr?
    case TBool => v.VBool?
  }

  /** Python's `bool` is a subclass of `int`: `True` is `1`, `False` is `0`. */
  function BoolToInt(b: bool): int {
    if b then 1 else 0
  }

  /** Python's `a == b` on cell values: same-kind values compare by content,
      a boolean equals the integer 1 or 0 it stands for, and a string never
      equals a number or a boolean. */
  predicate PyEq(a: Value, b: Value) {
    match (a, b)
    case (VInt(x), VInt(y)) => x == y
    case (VStr(x), VStr(y)) => x == y
    case (VBool(x), VBool(y)) => x == y
    case (VInt(x), VBool(y)) => x == BoolToInt(y)
    case (VBool(x), VInt(y)) => BoolToInt(x) == y
    case _ => false
  }

  /** Python's equality on cells is an equivalence that agrees with plain
      equality between values of one kind and only loosens int against bool. */
  lemma PyEqFacts(a: Value, b: Value, c: Value)
    ensures PyEq(a, a)
    ensures PyEq(a, b) ==> PyEq(b, a)
    ensures PyEq(a, b) && PyEq(b, c) ==> PyEq(a, c)
    ensures PyEq(a, b) && !(a.VInt? && b.VBool?) && !(a.VBool? && b.VInt?) ==> a == b
    ensures PyEq(a, b) && a.VStr? ==> a == b
  {
  }

  /** The value a raw text becomes in a column of type `t`; `None` where the
      conversion raises. An integer column parses the text; a string column
      keeps it verbatim; a boolean column is true exactly when the lowered
      text is `true` or `1`. */
  function Coerce(t: ColType, raw: string): (r: Option<Value>)
    ensures r.None? <==> t == TInt && ParseInt(raw).None?
    ensures r.Some? ==> HasType(r.value, t)
    ensures t == TInt && r.Some? ==> Some(r.value.i) == ParseInt(raw)
    ensures t == TStr ==> r == Some(VStr(raw))
    ensures t == TBool ==> r == Some(VBool(Lower(raw) in {"true", "1"}))
  {
    match t
    case TInt =>
      (match ParseInt(raw)
       case None => None
       case Some(n) => Some(VInt(n)))
    case TStr => Some(VStr(raw))
    case TBool =>
      var l := Lower(raw);
      Some(VBool(l == "true" || l == "1"))
  }

  /** How Python prints a stored value (`str(v)`). */
  function Render(v: Value): string {
    match v
    case VInt(n) => IntToString(n)
    case VStr(s) => s
    case VBool(b) => if b then "True" else "False"
  }

  /** Coercing the printed form of a value back into its column gives the
      value again. */
  lemma CoerceRender(v: Value, t: ColType)
    requires HasType(v, t)
    ensures Coerce(t, Render(v)) == Some(v)
  {
    match v
    case VInt(n) => ParseIntRoundTrip(n);
    case VStr(s) =>
    case VBool(b) =>
      if b {
        assert Lower("True") == "true";
      } else {
        assert Lower("False") == "false";
      }
  }
}
