/**
 * Expressions: the tagged datum each tree node carries. The abstract Java
 * class Expr has three subclasses, ConstExpr, OperatorExpr and VariableExpr,
 * which differ only in the tag getType returns.
 */
module Exprs {

  /** The subclass of an Expr object. */
  datatype Kind = Const | Operator | Variable

  /** getType: the tag is fixed per subclass and ignores the stored string. */
  function TypeName(k: Kind): (r: string)
    ensures r == "const" <==> k == Const
    ensures r == "operator" <==> k == Operator
    ensures r == "variable" <==> k == Variable
  {
    match k
    case Const => "const"
    case Operator => "operator"
    case Variable => "variable"
  }

  /** The five operator symbols of the precedence table. */
  const OperatorSymbols: set<string> := {"+", "-", "*", "/", "^"}

  /** Expr.getPrec: 2 for + and -, 3 for * and /, 4 for ^, -1 for anything else. */
  function Prec(s: string): (r: int)
    ensures r == -1 <==> s !in OperatorSymbols
    ensures r == 2 <==> s == "+" || s == "-"
    ensures r == 3 <==> s == "*" || s == "/"
    ensures r == 4 <==> s == "^"
  {
    if s == "+" || s == "-" then 2
    else if s == "*" || s == "/" then 3
    else if s == "^" then 4
    else -1
  }

  /** The state of one Expr object: its subclass and its data string. */
  datatype Datum = Datum(kind: Kind, text: string) {
    function GetType(): string { TypeName(kind) }
    function GetPrec(): int { Prec(text) }
  }

  /** An Expr object. The subclass never changes; setData overwrites the string. */
  class Expr {
    const kind: Kind
    var data: string

    /** new ConstExpr(s), new OperatorExpr(s), new VariableExpr(s). */
    constructor (kind: Kind, s: string)
      ensures this.kind == kind && GetData() == s
    {
      this.kind := kind;
      data := s;
    }

    function GetData(): string
      reads this
    {
      data
    }

    /** The subclass is a const field, so the type tag cannot change. */
    method SetData(s: string)
      modifies this
      ensures GetData() == s && GetPrec() == Prec(s)
    {
      data := s;
    }

    function GetType(): string {
      TypeName(kind)
    }

    function GetPrec(): int
      reads this
    {
      Prec(data)
    }

    /** The value this object holds. */
    function Value(): (d: Datum)
      reads this
      ensures d.GetType() == GetType() && d.GetPrec() == GetPrec()
    {
      Datum(kind, data)
    }
  }
}
