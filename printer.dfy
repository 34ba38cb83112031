/**
 * jCAS.toInfix and jCAS.ASTtoInfix: the tree printed back as infix text,
 * every token followed by one space. The printer hides the constants the
 * rewrites introduce: a 1 under * or /, a 0 under + or -, and a -1 under *
 * or /, which prints as a bare "-". A node's parent decides how it prints,
 * so the recursion carries the parent's Expr and whether the node is the
 * parent's last child (its left operand).
 */
module Printer {
  import opened Results
  import opened Strings
  import opened Exprs
  import opened Trees
  import opened Nodes
  import opened Maintenance

  /** Where a node is printed: with no parent, or under a parent holding `p`, as its last child or not. */
  datatype Place = Root | Under(p: Datum, last: bool)

  const Ones: set<string> := {"1", "1.0", "-1", "-1.0"}
  const MinusOnes: set<string> := {"-1", "-1.0"}
  const Zeros: set<string> := {"0", "0.0"}

  /** The text with its last operator symbol and space removed when that symbol is one of `cs`. */
  function DropConnector(acc: string, cs: set<char>): (r: string)
    ensures r == acc || (|acc| >= 2 && acc[|acc| - 2] in cs && r == acc[..|acc| - 2])
    ensures |acc| >= 2 && acc[|acc| - 2] in cs ==> r == acc[..|acc| - 2]
  {
    if |acc| >= 2 && acc[|acc| - 2] in cs then acc[..|acc| - 2] else acc
  }

  /**
   * An operand with Expr `d` under a parent holding `p`: a 1 under * or /
   * prints nothing and a -1 there prints "- " in place of a preceding "+ ";
   * a 0 under + or - prints nothing and removes the preceding "+ " or "- ";
   * any other operand prints its text, a negative one in place of a
   * preceding "+ ". Reading the first character of an empty text throws.
   */
  function Operand(acc: string, d: Datum, p: Datum): Result<string>
  {
    if (p.text == "*" || p.text == "/") && d.text in Ones then
      if d.text in MinusOnes then Ok(DropConnector(acc, {'+'}) + "- ") else Ok(acc)
    else if (p.text == "+" || p.text == "-") && d.text in Zeros then Ok(DropConnector(acc, {'+', '-'}))
    else if d.text == "" then Err(IndexOutOfBounds)
    else if d.text[0] == '-' then Ok(DropConnector(acc, {'+'}) + d.text + " ")
    else Ok(acc + d.text + " ")
  }

  /**
   * needParens: an operator node is bracketed when its parent binds
   * tighter, or as tight when the parent is "-" and the node is not its
   * last child (the right operand); never at the root.
   */
  function NeedParens(d: Datum, at: Place): bool
  {
    match at
    case Root => false
    case Under(p, last) =>
      if Prec(d.text) > Prec(p.text) then false
      else if Prec(d.text) == Prec(p.text) then !last && p.text == "-"
      else true
  }

  /**
   * After child `i` (not the first) the operator symbol is printed, unless
   * child i - 1 is a -1 (it prints its own "-") or the node is a product
   * whose child 1 is one of the hidden constants.
   */
  predicate Connects(t: Tree, i: int)
    requires 1 <= i < |Kids(t)|
  {
    !(Kids(t)[i - 1].Text() in MinusOnes || (t.Text() == "*" && Kids(t)[1].Text() in Ones))
  }

  /**
   * toInfix(acc, node) for a node with value `t` at `at`: a node whose Expr
   * is not an OperatorExpr prints as an operand, and not at all without a
   * parent; an operator prints its children from the last to the first,
   * bracketed when NeedParens says so.
   */
  function Infix(acc: string, t: Tree, at: Place): Result<string>
    decreases Size(t), 2
  {
    if t.d.kind != Operator then
      if at.Root? then Ok(acc) else Operand(acc, t.d, at.p)
    else
      var paren := NeedParens(t.d, at);
      match Children(if paren then acc + "( " else acc, t, |Kids(t)| - 1)
      case Err(f) => Err(f)
      case Ok(s) => Ok(if paren then s + ") " else s)
  }

  /** The loop of toInfix over the children of `t`, from child `i` down to child 0. */
  function Children(acc: string, t: Tree, i: int): Result<string>
    requires -1 <= i < |Kids(t)|
    decreases Size(t), 1, i
  {
    if i < 0 then Ok(acc)
    else
      match Visit(acc, t, i)
      case Err(f) => Err(f)
      case Ok(s) => Children(s, t, i - 1)
  }

  /** One pass of that loop: child `i`, then the symbol when it connects. */
  function Visit(acc: string, t: Tree, i: int): Result<string>
    requires 0 <= i < |Kids(t)|
    decreases Size(t), 0
  {
    assert Size(Kids(t)[i]) < Size(t);
    match Infix(acc, Kids(t)[i], Under(t.d, i == |Kids(t)| - 1))
    case Err(f) => Err(f)
    case Ok(s) => Ok(if i != 0 && Connects(t, i) then s + t.Text() + " " else s)
  }

  /** Children over the two children of an inner node: child 1, the symbol when it connects, child 0. */
  lemma ChildrenOfOp(acc: string, t: Tree)
    requires t.Op?
    ensures Children(acc, t, 1) ==
      match Infix(acc, t.c1, Under(t.d, true))
      case Err(f) => Err(f)
      case Ok(s) => Infix(if Connects(t, 1) then s + t.Text() + " " else s, t.c0, Under(t.d, false))
  {
    var r1 := Infix(acc, t.c1, Under(t.d, true));
    assert Kids(t)[1] == t.c1 && Kids(t)[0] == t.c0;
    if r1.Ok? {
      var s := if Connects(t, 1) then r1.value + t.Text() + " " else r1.value;
      assert Visit(acc, t, 1) == Ok(s);
      match Infix(s, t.c0, Under(t.d, false))
      case Err(f) => assert Visit(s, t, 0) == Err(f);
      case Ok(s0) =>
        assert Visit(s, t, 0) == Ok(s0);
        assert Children(s0, t, -1) == Ok(s0);
    }
  }

  // ---------------------------------------------------------------------
  // When toInfix throws

  /** Every operand of the tree has a text toInfix can read the first character of. */
  predicate Printable(t: Tree)
  {
    if t.d.kind != Operator then true
    else t.Op? ==> (t.c0.d.kind == Operator || t.c0.Text() != "") && (t.c1.d.kind == Operator || t.c1.Text() != "") &&
                   Printable(t.c0) && Printable(t.c1)
  }

  /** toInfix never throws on a tree whose printed operands have text; in particular on a well-formed tree. */
  lemma {:induction false} PrintableInfix(acc: string, t: Tree, at: Place)
    requires Printable(t) && (at.Under? && t.d.kind != Operator ==> t.Text() != "")
    ensures Infix(acc, t, at).Ok?
    decreases Size(t)
  {
    if t.d.kind == Operator {
      var paren := NeedParens(t.d, at);
      var open := if paren then acc + "( " else acc;
      if t.Op? {
        ChildrenOfOp(open, t);
        PrintableInfix(open, t.c1, Under(t.d, true));
        var s := Infix(open, t.c1, Under(t.d, true)).value;
        PrintableInfix(if Connects(t, 1) then s + t.Text() + " " else s, t.c0, Under(t.d, false));
      }
    }
  }

  lemma {:induction false} WellFormedPrintable(t: Tree)
    requires WellFormed(t)
    ensures Printable(t)
  {
    if t.Op? {
      WellFormedPrintable(t.c0);
      WellFormedPrintable(t.c1);
    }
  }

  /** The one exception toInfix throws: an operand under a parent whose text is empty. */
  lemma InfixFails(acc: string, t: Tree, at: Place)
    requires Infix(acc, t, at).Err?
    ensures Infix(acc, t, at).failure == IndexOutOfBounds
  {
    InfixFailure(acc, t, at);
  }

  lemma {:induction false} InfixFailure(acc: string, t: Tree, at: Place)
    ensures Infix(acc, t, at).Err? ==> Infix(acc, t, at).failure == IndexOutOfBounds
    decreases Size(t)
  {
    if t.d.kind == Operator && t.Op? {
      var paren := NeedParens(t.d, at);
      var open := if paren then acc + "( " else acc;
      ChildrenOfOp(open, t);
      InfixFailure(open, t.c1, Under(t.d, true));
      var r1 := Infix(open, t.c1, Under(t.d, true));
      if r1.Ok? {
        var s := if Connects(t, 1) then r1.value + t.Text() + " " else r1.value;
        InfixFailure(s, t.c0, Under(t.d, false));
      }
    }
  }

  // ---------------------------------------------------------------------
  // What toInfix prints for a tree without hidden constants

  /** A well-formed tree none of whose operands is a hidden constant or starts with "-". */
  predicate Plain(t: Tree)
  {
    match t
    case Leaf(d) => d.kind != Operator && d.text != "" && d.text !in Ones && d.text !in Zeros && d.text[0] != '-'
    case Op(d, c0, c1) => d.kind == Operator && d.text in OperatorSymbols && Plain(c0) && Plain(c1)
  }

  lemma PlainOperand(acc: string, d: Datum, p: Datum)
    requires d.text != "" && d.text !in Ones && d.text !in Zeros && d.text[0] != '-'
    ensures Operand(acc, d, p) == Ok(acc + (d.text + " "))
  {
    assert acc + d.text + " " == acc + (d.text + " ");
  }

  /**
   * The reference rendering: left operand, symbol, right operand, each
   * token followed by a space, brackets where NeedParens puts them, and an
   * operand alone prints nothing.
   */
  function Words(t: Tree, at: Place): string
  {
    match t
    case Leaf(d) => if at.Root? then "" else d.text + " "
    case Op(d, c0, c1) =>
      var inner := Words(c1, Under(d, true)) + d.text + " " + Words(c0, Under(d, false));
      if NeedParens(d, at) then "( " + inner + ") " else inner
  }

  /** On a tree without hidden constants toInfix appends exactly the reference rendering. */
  lemma {:induction false} PlainInfix(acc: string, t: Tree, at: Place)
    requires Plain(t)
    ensures Infix(acc, t, at) == Ok(acc + Words(t, at))
    decreases Size(t)
  {
    if t.Leaf? {
      if at.Root? {
        assert acc + "" == acc;
      } else {
        PlainOperand(acc, t.d, at.p);
      }
    } else {
      var paren := NeedParens(t.d, at);
      var open := if paren then acc + "( " else acc;
      var w1, w0 := Words(t.c1, Under(t.d, true)), Words(t.c0, Under(t.d, false));
      var inner := w1 + t.Text() + " " + w0;
      var next := open + w1 + t.Text() + " ";
      PlainInfix(open, t.c1, Under(t.d, true));
      PlainInfix(next, t.c0, Under(t.d, false));
      assert Children(open, t, 1) == Ok(next + w0) by {
        ChildrenOfOp(open, t);
        assert Connects(t, 1);
      }
      Regroup5(open, w1, t.Text(), " ", w0);
      if paren {
        Regroup4(acc, "( ", inner, ") ");
      }
    }
  }

  // ---------------------------------------------------------------------
  // What toInfix prints for the constants the rewrites introduce

  /**
   * The factor 1 that canonicalForm puts beside a power is not printed:
   * the product (x) * 1, with 1 as its left operand, prints as x alone.
   */
  lemma TimesOneHidden(acc: string, x: Tree)
    requires Plain(x)
    ensures Infix(acc, OpNode("*", x, Leaf(Datum(Const, "1"))), Root) ==
      Ok(acc + Words(x, Under(Datum(Operator, "*"), false)))
  {
    var t := OpNode("*", x, Leaf(Datum(Const, "1")));
    assert "1" in Ones && "1" !in MinusOnes;
    assert Infix(acc, t.c1, Under(t.d, true)) == Ok(acc);
    assert !Connects(t, 1);
    ChildrenOfOp(acc, t);
    PlainInfix(acc, x, Under(t.d, false));
  }

  /** A term 0 is dropped together with the "+" that joins it: x + 0 prints as x alone. */
  lemma PlusZeroHidden(acc: string, x: Tree)
    requires Plain(x)
    ensures Infix(acc, OpNode("+", Leaf(Datum(Const, "0")), x), Root) ==
      Ok(acc + Words(x, Under(Datum(Operator, "+"), true)))
  {
    var t := OpNode("+", Leaf(Datum(Const, "0")), x);
    var s := acc + Words(x, Under(t.d, true));
    PlainInfix(acc, x, Under(t.d, true));
    assert Connects(t, 1) by {
      assert "0" !in MinusOnes;
    }
    ChildrenOfOp(acc, t);
    var joined := s + t.Text() + " ";
    assert |joined| >= 2 && joined[|joined| - 2] == '+' && joined[..|joined| - 2] == s;
    assert "0" in Zeros && "0" !in Ones;
    assert Infix(joined, t.c0, Under(t.d, false)) == Ok(s);
  }

  /**
   * A factor -1 prints as a bare "-" in place of the "+ " before it, and the
   * product's own "*" is not printed: under a sum, b * -1 (with -1 as its
   * left operand) prints as "- b".
   */
  lemma MinusOneFactor(acc: string, b: Tree, last: bool)
    requires Plain(b)
    ensures Infix(acc, OpNode("*", b, Leaf(Datum(Const, "-1"))), Under(Datum(Operator, "+"), last)) ==
      Ok(DropConnector(acc, {'+'}) + "- " + Words(b, Under(Datum(Operator, "*"), false)))
  {
    var t := OpNode("*", b, Leaf(Datum(Const, "-1")));
    var open := DropConnector(acc, {'+'}) + "- ";
    assert !NeedParens(t.d, Under(Datum(Operator, "+"), last));
    assert "-1" in Ones && "-1" in MinusOnes;
    assert Infix(acc, t.c1, Under(t.d, true)) == Ok(open);
    assert !Connects(t, 1);
    ChildrenOfOp(acc, t);
    PlainInfix(open, b, Under(t.d, false));
  }

  /**
   * What canonicalForm makes of a - b, the sum a + (b * -1) with the
   * product as its left operand, prints as "- b + a".
   */
  lemma NegatedSumPrints(a: Tree, b: Tree)
    requires Plain(a) && Plain(b)
    ensures Infix("", OpNode("+", a, OpNode("*", b, Leaf(Datum(Const, "-1")))), Root) ==
      Ok("- " + Words(b, Under(Datum(Operator, "*"), false)) + "+ " + Words(a, Under(Datum(Operator, "+"), false)))
  {
    var t := OpNode("+", a, OpNode("*", b, Leaf(Datum(Const, "-1"))));
    var wb := Words(b, Under(Datum(Operator, "*"), false));
    MinusOneFactor("", b, true);
    assert DropConnector("", {'+'}) + "- " + wb == "- " + wb;
    assert t.c1 == OpNode("*", b, Leaf(Datum(Const, "-1"))) && t.d == Datum(Operator, "+");
    assert Infix("", t.c1, Under(t.d, true)) == Ok("- " + wb);
    assert Connects(t, 1) by {
      assert a.Leaf? ==> a.Text() !in MinusOnes;
      assert t.Text() != "*";
    }
    ChildrenOfOp("", t);
    PlainInfix("- " + wb + "+ ", a, Under(t.d, false));
    assert "- " + wb + t.Text() + " " == "- " + wb + "+ ";
  }

  lemma Regroup4(a: string, b: string, c: string, d: string)
    ensures a + b + c + d == a + (b + c + d)
  {
    assert a + b + c + d == a + (b + c + d) by {
      assert a + b + c == a + (b + c);
      assert (a + (b + c)) + d == a + ((b + c) + d);
    }
  }

  lemma Regroup5(a: string, b: string, c: string, d: string, e: string)
    ensures a + b + c + d + e == a + (b + c + d + e)
  {
    Regroup4(a, b, c, d);
    assert a + (b + c + d) + e == a + (b + c + d + e);
  }

  // ---------------------------------------------------------------------
  // ASTtoInfix

  /** ASTtoInfix(node, delim): the printed text split on single spaces and joined with `delim`. */
  function AstToInfix(t: Tree, at: Place, delim: string): (r: Result<string>)
    ensures r.Ok? <==> Infix("", t, at).Ok?
    ensures r.Ok? && delim == "" ==> r.value == Strip(Infix("", t, at).value)
  {
    match Infix("", t, at)
    case Err(f) => Err(f)
    case Ok(s) => JoinSplitStrips(s); Ok(Join(delim, SplitOnSpace(s)))
  }

  // ---------------------------------------------------------------------
  // toInfix on the node objects

  /**
   * Where a node prints, read off its parent link: the identity test
   * parent.getChild(last) == node decides whether it is the last child.
   */
  ghost function PlaceOf(n: Node): Place
    requires n.parent != null ==> |n.parent.children| > 0
    reads n, n.parent
  {
    if n.parent == null then Root
    else Under(n.parent.data, n.parent.children[|n.parent.children| - 1] == n)
  }

  /**
   * toInfix(infix, node) on a tree whose parent links agree with the
   * children and whose subtrees share no node, so that the identity test
   * tells the children apart. The parent of `node` itself, when there is
   * one, has a child.
   */
  method ToInfix(infix: string, node: Node, ghost S: set<Node>) returns (r: Result<string>)
    requires IsTree(node, S) && Linked(node, S) && Unshared(node, S)
    requires node.parent != null ==> |node.parent.children| > 0
    ensures r == Infix(infix, Abs(node, S), PlaceOf(node))
    decreases S, 3
  {
    if !node.TypeIs("operator") {
      r := Ok(infix);
      if node.parent != null {
        r := PrintOperand(infix, node.data, node.parent.data);
      }
    } else {
      r := PrintOperator(infix, node, S);
    }
  }

  /** The needParens decision of toInfix, read off the parent link. */
  method ParensNeeded(node: Node) returns (needParens: bool)
    requires node.parent != null ==> |node.parent.children| > 0
    ensures needParens == NeedParens(node.data, PlaceOf(node))
  {
    needParens := true;
    if node.IsRoot() {
      needParens := false;
    } else {
      if node.ComparePrec(node.parent) > 0 {
        needParens := false;
      } else if node.ComparePrec(node.parent) == 0 {
        if node.parent.children[|node.parent.children| - 1] == node {
          needParens := false;
        }
        if !node.parent.DataIs("-") {
          needParens := false;
        }
      }
    }
  }

  /** The operator branch of toInfix: the bracket, the loop over the children from the last, the closing bracket. */
  method PrintOperator(infix: string, node: Node, ghost S: set<Node>) returns (r: Result<string>)
    requires IsTree(node, S) && Linked(node, S) && Unshared(node, S) && node.data.kind == Operator
    requires node.parent != null ==> |node.parent.children| > 0
    ensures r == Infix(infix, Abs(node, S), PlaceOf(node))
    decreases S, 2
  {
    var needParens := ParensNeeded(node);
    var acc := infix;
    if needParens {
      acc := acc + "( ";
    }
    r := PrintChildren(acc, node, S);
    if r.Ok? && needParens {
      r := Ok(r.value + ") ");
    }
  }

  /** The loop of toInfix over the children of `node`, from the last one down to child 0. */
  method PrintChildren(open: string, node: Node, ghost S: set<Node>) returns (r: Result<string>)
    requires IsTree(node, S) && Linked(node, S) && Unshared(node, S)
    ensures r == Children(open, Abs(node, S), |Kids(Abs(node, S))| - 1)
    decreases S, 1
  {
    ghost var t := Abs(node, S);
    assert |Kids(t)| == |node.children|;
    var acc := open;
    var i := |node.children| - 1;
    while i >= 0
      invariant -1 <= i < |node.children|
      invariant Children(open, t, |Kids(t)| - 1) == Children(acc, t, i)
    {
      var res := PrintChild(acc, node, i, S);
      if res.Err? {
        return res;
      }
      acc := res.value;
      i := i - 1;
    }
    r := Ok(acc);
  }

  /** One pass of the loop of toInfix on the node objects. */
  method PrintChild(acc: string, node: Node, i: int, ghost S: set<Node>) returns (r: Result<string>)
    requires IsTree(node, S) && Linked(node, S) && Unshared(node, S) && 0 <= i < |node.children|
    ensures r == Visit(acc, Abs(node, S), i)
    decreases S, 0, 0
  {
    ghost var t := Abs(node, S);
    assert |Kids(t)| == |node.children|;
    assert forall j :: 0 <= j < |node.children| ==>
      Kids(t)[j] == Abs(node.children[j], S - {node}) && Kids(t)[j].d == node.children[j].data;
    if i == 1 {
      assert node.children[0] != node.children[1] by {
        assert node.children[0] in Reach(node.children[0], S - {node});
        assert node.children[1] in Reach(node.children[1], S - {node});
      }
    }
    var child := node.children[i];
    assert PlaceOf(child) == Under(t.d, i == |Kids(t)| - 1);
    r := ToInfix(acc, child, S - {node});
    if r.Ok? && i != 0 {
      if !(node.children[i - 1].DataIs("-1") || node.children[i - 1].DataIs("-1.0") ||
           (node.DataIs("*") && IsOne(node.children[1]))) {
        r := Ok(r.value + node.data.text + " ");
      }
    }
  }

  /** dataIsIn(new String[]{"1", "1.0", "-1", "-1.0"}). */
  predicate IsOne(n: Node)
    reads n
  {
    n.data.text in Ones
  }

  /** The operand branch of toInfix, with its string updates in the order the source makes them. */
  method PrintOperand(infix: string, d: Datum, p: Datum) returns (r: Result<string>)
    ensures r == Operand(infix, d, p)
  {
    var acc := infix;
    if !((p.text == "*" || p.text == "/") && d.text in Ones) {
      if !((p.text == "+" || p.text == "-") && d.text in Zeros) {
        if |d.text| == 0 {
          return Err(IndexOutOfBounds);
        }
        if d.text[0] == '-' && |acc| >= 2 {
          if acc[|acc| - 2] == '+' {
            acc := acc[..|acc| - 2];
          }
        }
        acc := acc + d.text + " ";
      } else if d.text in Zeros {
        if |acc| >= 2 {
          if acc[|acc| - 2] == '+' || acc[|acc| - 2] == '-' {
            acc := acc[..|acc| - 2];
          }
        }
      }
    } else if d.text in MinusOnes {
      if |acc| >= 2 {
        if acc[|acc| - 2] == '+' {
          acc := acc[..|acc| - 2];
        }
      }
      acc := acc + "- ";
    }
    r := Ok(acc);
  }

  /** ASTtoInfix(node, delim) on the node objects. */
  method AstToInfixNode(node: Node, delim: string, ghost S: set<Node>) returns (r: Result<string>)
    requires IsTree(node, S) && Linked(node, S) && Unshared(node, S)
    requires node.parent != null ==> |node.parent.children| > 0
    ensures r == AstToInfix(Abs(node, S), PlaceOf(node), delim)
  {
    var s := ToInfix("", node, S);
    if s.Err? {
      return Err(s.failure);
    }
    r := Ok(Join(delim, SplitOnSpace(s.value)));
  }
}
