/**
 * The distribution step of jCAS.simplifyAST: a product with a sum or a
 * difference among its children is rewritten as the sum or difference of two
 * products, (a + b) * c into a * c + b * c. Only the first such child is
 * distributed.
 */
module Distribution {
  import opened Results
  import opened Exprs
  import opened Trees
  import opened Values
  import opened Nodes
  import opened Maintenance
  import Lexer

  /** dataIsOr("+", "-"). */
  predicate IsSum(t: Tree)
  {
    t.Text() == "+" || t.Text() == "-"
  }

  /**
   * The sum `s` spread over the factor `other`: a node with the operator of
   * `s` whose children are other * (child 0 of s) and other * (child 1 of
   * s), with `other` the right operand of each product. Taking the child of
   * a leaf throws.
   */
  function Spread(s: Tree, other: Tree): Result<Tree>
  {
    if s.Leaf? then Err(IndexOutOfBounds)
    else Ok(OpNode(s.Text(), OpNode("*", other, s.c0), OpNode("*", other, s.c1)))
  }

  /** The new value of a node with value `t` after the distribution step. */
  function Distribute(t: Tree): Result<Tree>
  {
    if t.Text() != "*" || t.Leaf? then Ok(t)
    else if IsSum(t.c0) then Spread(t.c0, t.c1)
    else if IsSum(t.c1) then Spread(t.c1, t.c0)
    else Ok(t)
  }

  /** The first child that is a sum is the one spread over the other. */
  lemma DistributeAt(t: Tree, i: int)
    requires t.Text() == "*" && t.Op? && 0 <= i < 2 && IsSum(Kids(t)[i])
    requires forall j :: 0 <= j < i ==> !IsSum(Kids(t)[j])
    ensures Distribute(t) == Spread(Kids(t)[i], Kids(t)[(i + 1) % 2])
    ensures Distribute(t).Ok? ==> Distribute(t).value.Text() != t.Text()
  {
    assert "+" != "*" && "-" != "*";
    if i == 1 {
      assert !IsSum(Kids(t)[0]);
    }
  }

  /** A node that is not a product, or a product with no sum among its children, is left alone. */
  lemma DistributeOnlySums(t: Tree)
    ensures (t.Text() != "*" || t.Leaf? || (!IsSum(t.c0) && !IsSum(t.c1))) <==> Distribute(t) == Ok(t)
  {
    if t.Text() == "*" && t.Op? && (IsSum(t.c0) || IsSum(t.c1)) {
      var s := if IsSum(t.c0) then t.c0 else t.c1;
      assert Distribute(t).Ok? ==> Distribute(t).value.Text() == s.Text();
    }
  }

  /**
   * When both children are sums, child 0 is the one distributed; the
   * result is the operator of that child applied to two products.
   */
  lemma DistributeFirst(t: Tree)
    requires t.Op? && t.Text() == "*" && IsSum(t.c0) && t.c0.Op?
    ensures Distribute(t) == Ok(OpNode(t.c0.Text(), OpNode("*", t.c1, t.c0.c0), OpNode("*", t.c1, t.c0.c1)))
  {
  }

  /** On a well-formed tree the step never throws, and it keeps the tree well formed. */
  lemma DistributeWellFormed(t: Tree)
    requires WellFormed(t)
    ensures Distribute(t).Ok? && WellFormed(Distribute(t).value)
  {
    assert Lexer.GetPrec("*") != -1 && Lexer.GetPrec("+") != -1 && Lexer.GetPrec("-") != -1;
  }

  /** The step throws exactly when the sum it picks is a leaf. */
  lemma DistributeFails(t: Tree)
    ensures Distribute(t).Err? <==>
      t.Text() == "*" && t.Op? && (if IsSum(t.c0) then t.c0.Leaf? else IsSum(t.c1) && t.c1.Leaf?)
  {
  }

  lemma DistributesPlus(a: real, b: real, c: real)
    ensures Apply("+", a * c, b * c) == Apply("*", a + b, c) == Apply("*", c, a + b)
  {
    ApplyRing("+", a * c, b * c);
    ApplyRing("*", a + b, c);
    ApplyRing("*", c, a + b);
    assert (a + b) * c == a * c + b * c;
    assert c * (a + b) == a * c + b * c;
  }

  lemma DistributesMinus(a: real, b: real, c: real)
    ensures Apply("-", a * c, b * c) == Apply("*", a - b, c) == Apply("*", c, a - b)
  {
    ApplyRing("-", a * c, b * c);
    ApplyRing("*", a - b, c);
    ApplyRing("*", c, a - b);
    assert (a - b) * c == a * c - b * c;
    assert c * (a - b) == a * c - b * c;
  }

  /** Multiplication distributes over + and -, on either side. */
  lemma Distributes(op: string, a: real, b: real, c: real)
    requires op == "+" || op == "-"
    ensures Apply(op, Apply("*", a, c).value, Apply("*", b, c).value) == Apply("*", Apply(op, a, b).value, c)
    ensures Apply(op, Apply("*", a, c).value, Apply("*", b, c).value) == Apply("*", c, Apply(op, a, b).value)
  {
    ApplyRing(op, a, b);
    ApplyRing("*", a, c);
    ApplyRing("*", b, c);
    if op == "+" {
      DistributesPlus(a, b, c);
    } else {
      DistributesMinus(a, b, c);
    }
  }

  /** (a + b) * c == a * c + b * c and (a - b) * c == a * c - b * c, for either order of the product. */
  lemma SpreadKeepsValue(s: Tree, other: Tree, env: string -> real)
    requires IsSum(s) && s.Op?
    ensures Eval(Spread(s, other).value, env) == Eval(OpNode("*", s, other), env)
    ensures Eval(Spread(s, other).value, env) == Eval(OpNode("*", other, s), env)
  {
    var a, b, c := Eval(s.c1, env), Eval(s.c0, env), Eval(other, env);
    if a.Some? && b.Some? && c.Some? {
      ApplyRing("*", a.value, c.value);
      ApplyRing("*", b.value, c.value);
      ApplyRing(s.Text(), a.value, b.value);
      Distributes(s.Text(), a.value, b.value, c.value);
    }
  }

  /** The step keeps the value of the expression, for every value of the variables. */
  lemma DistributeKeepsValue(t: Tree, env: string -> real)
    requires Distribute(t).Ok?
    ensures Eval(Distribute(t).value, env) == Eval(t, env)
  {
    if t.Text() == "*" && t.Op? {
      if IsSum(t.c0) {
        SpreadKeepsValue(t.c0, t.c1, env);
      } else if IsSum(t.c1) {
        SpreadKeepsValue(t.c1, t.c0, env);
      }
    }
  }

  /**
   * The distribution block on `node`: the loop over the children stops at
   * the first sum and rewrites the node in place through setNode. The new
   * nodes copy one level of the old ones and share everything below. The
   * node ends with no parent, as the fresh node whose content it took had
   * none.
   */
  method DistributeNode(node: Node, ghost S: set<Node>) returns (r: Outcome, ghost S': set<Node>)
    requires IsTree(node, S)
    modifies node
    ensures Distribute(old(Abs(node, S))).Err? <==> r.Fail?
    ensures r.Fail? ==> Distribute(old(Abs(node, S))).failure == r.failure && unchanged(node)
    ensures r.Pass? ==> S <= S' && IsTree(node, S') && Abs(node, S') == Distribute(old(Abs(node, S))).value
    ensures r.Pass? && Distribute(old(Abs(node, S))) != Ok(old(Abs(node, S))) ==> node.parent == null
    ensures r.Pass? && Distribute(old(Abs(node, S))) == Ok(old(Abs(node, S))) ==> unchanged(node)
  {
    S' := S;
    ghost var t := Abs(node, S);
    assert |Kids(t)| == |node.children|;
    var i := 0;
    if node.data.text == "*" {
      while i < |node.children|
        invariant unchanged(node)
        invariant 0 <= i <= |node.children|
        invariant forall j :: 0 <= j < i ==> !IsSum(Kids(t)[j])
      {
        ChildAbs(node, S, i);
        var c := node.children[i];
        if c.data.text == "+" || c.data.text == "-" {
          break;
        }
        i := i + 1;
      }
    }
    if node.data.text == "*" && i < |node.children| {
      assert IsTree(node, S) && Abs(node, S) == t;
      assert IsSum(Kids(t)[i]) by {
        ChildAbs(node, S, i);
      }
      DistributeAt(t, i);
      r, S' := SpreadNode(node, i, S);
    } else {
      assert IsTree(node, S) && Abs(node, S) == t;
      assert t.Text() != "*" || t.Leaf? || (!IsSum(Kids(t)[0]) && !IsSum(Kids(t)[1]));
      DistributeOnlySums(t);
      r := Pass;
    }
  }

  /** The two new products other*a and other*b, built beside everything in `U`. */
  method Products(other: Node, a: Node, b: Node, ghost U: set<Node>) returns (dist1: Node, dist2: Node, ghost W: set<Node>)
    requires IsTree(other, U) && IsTree(a, U) && IsTree(b, U)
    ensures fresh(dist1) && fresh(dist2) && U <= W && fresh(W - U)
    ensures IsTree(dist1, W) && Abs(dist1, W) == OpNode("*", Abs(other, U), Abs(a, U))
    ensures IsTree(dist2, W) && Abs(dist2, W) == OpNode("*", Abs(other, U), Abs(b, U))
  {
    ghost var W1, W2;
    dist1, W1 := Branch("*", other, a, U);
    dist2, W2 := Branch("*", other, b, U);
    W := W1 + W2;
    Grow(dist1, W1, W);
    Grow(dist2, W2, W);
  }

  /**
   * One pass of the loop body: child `i` is the sum, the other child the
   * factor. The Java builds the first product before taking child 0 of the
   * sum; the nodes built by then are not reachable from anything old, so
   * checking the sum first changes nothing that can be observed.
   */
  method SpreadNode(node: Node, i: int, ghost S: set<Node>) returns (r: Outcome, ghost S': set<Node>)
    requires IsTree(node, S) && |node.children| == 2 && 0 <= i < 2
    modifies node
    ensures r.Fail? <==> Spread(Kids(old(Abs(node, S)))[i], Kids(old(Abs(node, S)))[(i + 1) % 2]).Err?
    ensures r.Fail? ==> r.failure == IndexOutOfBounds && unchanged(node)
    ensures r.Pass? ==> S <= S' && IsTree(node, S') && node.parent == null
    ensures r.Pass? ==> Abs(node, S') == Spread(Kids(old(Abs(node, S)))[i], Kids(old(Abs(node, S)))[(i + 1) % 2]).value
  {
    S' := S;
    ghost var t := Abs(node, S);
    ghost var U := S - {node};
    var s := node.children[i];
    var other := node.children[(i + 1) % 2];
    ghost var sT, oT := Abs(s, U), Abs(other, U);
    assert Kids(t)[i] == sT && Kids(t)[(i + 1) % 2] == oT;
    if |s.children| == 0 {
      return Fail(IndexOutOfBounds), S;
    }
    ChildAbs(s, U, 0);
    ChildAbs(s, U, 1);
    var dist1, dist2, W := Products(other, s.children[0], s.children[1], U);
    assert node !in W;
    Replace(node, s.data.text, dist1, dist2, W);
    S' := W + {node};
    assert Abs(node, S') == Spread(sT, oT).value;
    r := Pass;
  }
}
