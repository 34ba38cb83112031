/**
 * What an expression tree denotes, for a given value of every variable. The
 * core never evaluates a tree; this is the meaning its rewrites must keep.
 * Evaluation is partial: a division by zero, an exponent that is not a
 * natural number, an operator node holding "(" or ")" and a constant whose
 * text is not a decimal number have no value.
 */
module Values {
  import opened Results
  import opened Exprs
  import opened Trees

  predicate IsDigit(c: char) { '0' <= c <= '9' }

  /** The value of a non-empty run of decimal digits. */
  function Digits(s: string): (r: Option<nat>)
    ensures r.Some? <==> |s| > 0 && forall i :: 0 <= i < |s| ==> IsDigit(s[i])
    decreases |s|
  {
    if s == [] then None
    else if !IsDigit(s[|s| - 1]) then None
    else if |s| == 1 then Some((s[0] as int - '0' as int) as nat)
    else
      match Digits(s[..|s| - 1])
      case None => None
      case Some(n) => Some(10 * n + (s[|s| - 1] as int - '0' as int))
  }

  function Pow10(n: nat): (r: nat)
    ensures r > 0
  {
    if n == 0 then 1 else 10 * Pow10(n - 1)
  }

  /** The index of the first '.' in `s`, or |s|. */
  function DotAt(s: string): (k: nat)
    ensures k <= |s| && '.' !in s[..k] && (k < |s| ==> s[k] == '.')
  {
    if s == [] || s[0] == '.' then 0
    else
      var k := DotAt(s[1..]);
      assert s[..k + 1] == [s[0]] + s[1..][..k];
      k + 1
  }

  /** An unsigned decimal: digits, optionally a point and more digits. */
  function Unsigned(s: string): Option<real>
  {
    var k := DotAt(s);
    match Digits(s[..k])
    case None => None
    case Some(ip) =>
      if k == |s| then Some(ip as real)
      else
        match Digits(s[k + 1..])
        case None => None
        case Some(fp) => Some(ip as real + fp as real / Pow10(|s| - k - 1) as real)
  }

  /** The number a constant's text denotes: an optional minus sign and an unsigned decimal. */
  function Num(s: string): Option<real>
  {
    if |s| > 0 && s[0] == '-' then
      match Unsigned(s[1..])
      case None => None
      case Some(v) => Some(-v)
    else Unsigned(s)
  }

  /** The constants the rewrites introduce and the printer recognises. */
  lemma NumOfUnits()
    ensures Num("1") == Some(1.0) && Num("-1") == Some(-1.0)
    ensures Num("1.0") == Some(1.0) && Num("-1.0") == Some(-1.0)
    ensures Num("0") == Some(0.0) && Num("0.0") == Some(0.0)
  {
    assert DotAt("1") == 1 && "1"[..1] == "1";
    assert DotAt("0") == 1 && "0"[..1] == "0";
    assert "-1"[1..] == "1" && "-1.0"[1..] == "1.0";
    assert DotAt("1.0") == 1 && "1.0"[..1] == "1" && "1.0"[2..] == "0";
    assert DotAt("0.0") == 1 && "0.0"[..1] == "0" && "0.0"[2..] == "0";
  }

  function Pow(b: real, n: nat): real
  {
    if n == 0 then 1.0 else b * Pow(b, n - 1)
  }

  /** The value of each operator on a left and a right operand. */
  function Apply(op: string, l: real, r: real): Option<real>
  {
    if op == "+" then Some(l + r)
    else if op == "-" then Some(l - r)
    else if op == "*" then Some(l * r)
    else if op == "/" then (if r == 0.0 then None else Some(l / r))
    else if op == "^" then (if r >= 0.0 && r.Floor as real == r then Some(Pow(l, r.Floor as nat)) else None)
    else None
  }

  /** The value of +, - and * on two operands. */
  lemma ApplyRing(op: string, x: real, y: real)
    requires op == "+" || op == "-" || op == "*"
    ensures Apply(op, x, y) == Some(if op == "+" then x + y else if op == "-" then x - y else x * y)
  {
    assert "+" != "-" && "+" != "*" && "-" != "*";
  }

  /** The value of "*". */
  lemma ApplyProduct(a: real, b: real)
    ensures Apply("*", a, b) == Some(a * b)
  {
    assert "*" != "+" && "*" != "-";
  }

  /** The value of "/", undefined on a zero divisor. */
  lemma ApplyQuotient(a: real, b: real)
    ensures Apply("/", a, b) == if b == 0.0 then None else Some(a / b)
  {
    assert "/" != "+" && "/" != "-" && "/" != "*";
  }

  /** The value of a tree: `c1` is the left operand and `c0` the right one. */
  function Eval(t: Tree, env: string -> real): Option<real>
  {
    match t
    case Leaf(d) => if d.kind == Variable then Some(env(d.text)) else Num(d.text)
    case Op(d, c0, c1) =>
      match (Eval(c1, env), Eval(c0, env))
      case (Some(l), Some(r)) => Apply(d.text, l, r)
      case _ => None
  }
}
