/**
 * jCAS.canonicalForm: one rewrite of a node into the shape the simplifier
 * works on. A product with a constant right operand and a non-constant left
 * one is turned round, a - b becomes (-1 * b) + a, a variable x not under
 * "^" becomes x ^ 1, and a power not already multiplied by a constant
 * becomes 1 * (the power).
 */
module Canonical {
  import opened Results
  import opened Exprs
  import opened Trees
  import opened Values
  import opened Nodes
  import opened Maintenance
  import Lexer

  function ConstLeaf(s: string): Tree { Leaf(Datum(Const, s)) }

  /**
   * canonicalForm on a node with value `t` whose parent has value `parent`
   * (None for a root): the node's new value, or the exception the Java
   * throws before changing anything.
   */
  function Canonical(t: Tree, parent: Option<Tree>): Result<Tree>
  {
    if t.Text() == "*" then
      if t.Leaf? then Err(IndexOutOfBounds)
      else if t.c0.d.kind == Const && t.c1.d.kind != Const then Ok(Op(t.d, t.c1, t.c0))
      else Ok(t)
    else if t.Text() == "-" then
      if t.Leaf? then Err(IndexOutOfBounds)
      else Ok(OpNode("+", t.c1, OpNode("*", t.c0, ConstLeaf("-1"))))
    else if t.d.kind == Variable then
      if parent.None? then Err(NullPointer)
      else if parent.value.Text() != "^" then Ok(OpNode("^", ConstLeaf("1"), t))
      else Ok(t)
    else if t.Text() == "^" then
      if parent.None? then Ok(OpNode("*", t, ConstLeaf("1")))
      else if parent.value.Text() != "*" then Ok(OpNode("*", t, ConstLeaf("1")))
      else
        match OtherChild(parent.value, t)
        case Err(f) => Err(f)
        case Ok(None) => Err(NullPointer)
        case Ok(Some(o)) => if o.d.kind == Const then Ok(t) else Ok(OpNode("*", t, ConstLeaf("1")))
    else Ok(t)
  }

  /** `parent`, when there is one, holds `t` as one of its two children. */
  predicate HeldBy(t: Tree, parent: Option<Tree>)
  {
    parent.Some? ==> parent.value.Op? && (parent.value.c0 == t || parent.value.c1 == t)
  }

  /** Below a parent that really holds it, a well-formed node is only refused when it is a variable at the root. */
  lemma CanonicalFails(t: Tree, parent: Option<Tree>)
    requires WellFormed(t) && HeldBy(t, parent)
    requires parent.Some? ==> WellFormed(parent.value)
    ensures Canonical(t, parent).Err? <==> t.d.kind == Variable && parent.None?
    ensures Canonical(t, parent).Err? ==> Canonical(t, parent).failure == NullPointer
  {
    if parent.Some? {
      OtherChildOfWellFormed(parent.value, t);
    }
  }

  lemma OneLeaf(env: string -> real)
    ensures Eval(ConstLeaf("1"), env) == Some(1.0) && Eval(ConstLeaf("-1"), env) == Some(-1.0)
  {
    NumOfUnits();
  }

  /** Multiplication is commutative. */
  lemma SwapKeepsValue(d: Datum, c0: Tree, c1: Tree, env: string -> real)
    requires d.text == "*"
    ensures Eval(Op(d, c1, c0), env) == Eval(Op(d, c0, c1), env)
  {
  }

  /** a - b == (-1 * b) + a. */
  lemma MinusKeepsValue(d: Datum, c0: Tree, c1: Tree, env: string -> real)
    requires d.text == "-"
    ensures Eval(OpNode("+", c1, OpNode("*", c0, ConstLeaf("-1"))), env) == Eval(Op(d, c0, c1), env)
  {
    OneLeaf(env);
    MinusOneKeepsValue(d, c0, c1, ConstLeaf("-1"), env);
  }

  /** a - b == (m * b) + a, for any tree m whose value is -1. */
  lemma MinusOneKeepsValue(d: Datum, c0: Tree, c1: Tree, m: Tree, env: string -> real)
    requires d.text == "-" && Eval(m, env) == Some(-1.0)
    ensures Eval(OpNode("+", c1, OpNode("*", c0, m)), env) == Eval(Op(d, c0, c1), env)
  {
    var product := OpNode("*", c0, m);
    if Eval(c0, env).None? {
      assert Eval(product, env) == None;
    } else if Eval(c1, env).None? {
      assert Eval(Op(d, c0, c1), env) == None;
    } else {
      var a, b := Eval(c1, env).value, Eval(c0, env).value;
      ApplyRing("*", -1.0, b);
      assert Eval(product, env) == Some(-1.0 * b);
      ApplyRing("+", -1.0 * b, a);
      ApplyRing("-", a, b);
    }
  }

  /** x ^ 1 == x. */
  lemma PowerOneKeepsValue(t: Tree, env: string -> real)
    ensures Eval(OpNode("^", ConstLeaf("1"), t), env) == Eval(t, env)
  {
    OneLeaf(env);
    if Eval(t, env).Some? {
      var v := Eval(t, env).value;
      assert (1.0).Floor == 1;
      assert Pow(v, 1) == v;
    }
  }

  /** 1 * p == p. */
  lemma TimesOneKeepsValue(t: Tree, env: string -> real)
    ensures Eval(OpNode("*", t, ConstLeaf("1")), env) == Eval(t, env)
  {
    OneLeaf(env);
  }

  /** The rewrite keeps the value of the expression, for every value of the variables. */
  lemma CanonicalKeepsValue(t: Tree, parent: Option<Tree>, env: string -> real)
    requires Canonical(t, parent).Ok?
    ensures Eval(Canonical(t, parent).value, env) == Eval(t, env)
  {
    if t.Text() == "*" {
      if t.c0.d.kind == Const && t.c1.d.kind != Const {
        SwapKeepsValue(t.d, t.c0, t.c1, env);
      }
    } else if t.Text() == "-" {
      MinusKeepsValue(t.d, t.c0, t.c1, env);
    } else {
      PowerOneKeepsValue(t, env);
      TimesOneKeepsValue(t, env);
    }
  }

  /** The rewrite keeps trees well formed. */
  lemma CanonicalWellFormed(t: Tree, parent: Option<Tree>)
    requires WellFormed(t) && Canonical(t, parent).Ok?
    ensures WellFormed(Canonical(t, parent).value)
  {
    assert Lexer.GetPrec("-1") == -1 && Lexer.GetPrec("1") == -1;
    assert Lexer.GetPrec("+") != -1 && Lexer.GetPrec("*") != -1 && Lexer.GetPrec("^") != -1;
  }

  /**
   * What the rewrite is for: no "-" node is left at the top, no variable is
   * left bare outside a power, and a product never has a constant on the
   * right with a non-constant on the left.
   */
  lemma CanonicalShape(t: Tree, parent: Option<Tree>)
    requires WellFormed(t) && Canonical(t, parent).Ok?
    ensures var r := Canonical(t, parent).value;
      r.Text() != "-" &&
      (r.d.kind == Variable ==> parent.Some? && parent.value.Text() == "^") &&
      (r.Text() == "*" && r.Op? ==> !(r.c0.d.kind == Const && r.c1.d.kind != Const))
  {
  }

  // ---------------------------------------------------------------------
  // canonicalForm on the node objects

  /** The value of the parent of `n`, as canonicalForm reaches it through getParent. */
  ghost function ParentTree(n: Node, S: set<Node>): Option<Tree>
    requires n.parent != null ==> IsTree(n.parent, S)
    reads n, S`children, S`data
  {
    if n.parent == null then None else Some(Abs(n.parent, S))
  }

  /** The first rule, which turns the operands of a product round, applies to `t`. */
  predicate Swaps(t: Tree)
  {
    t.Text() == "*" && t.Op? && t.c0.d.kind == Const && t.c1.d.kind != Const
  }

  /** Neither child of `n` lies below the other, so exchanging their contents exchanges the subtrees. */
  ghost predicate Separate(n: Node, S: set<Node>)
    requires IsTree(n, S)
    reads S`children
  {
    |n.children| == 2 ==>
      n.children[0] !in Reach(n.children[1], S - {n}) && n.children[1] !in Reach(n.children[0], S - {n})
  }

  /** In a tree whose subtrees share no nodes, as createAST builds them, the swap's hypothesis holds. */
  lemma UnsharedSeparate(n: Node, S: set<Node>)
    requires IsTree(n, S) && Unshared(n, S)
    ensures Separate(n, S)
  {
  }

  /**
   * canonicalForm(node, root): the first rule that applies rewrites the node
   * in place; `root` is not used. The swap exchanges the contents of the two
   * child objects, so its result is stated for children that do not lie
   * below each other; every other rule builds new nodes and ends with
   * setNode, leaving the node without a parent.
   */
  method CanonicalForm(node: Node, root: Node, ghost S: set<Node>) returns (r: Outcome, ghost S': set<Node>)
    requires IsTree(node, S) && (node.parent != null ==> IsTree(node.parent, S))
    modifies node, node.children
    ensures Canonical(old(Abs(node, S)), old(ParentTree(node, S))).Err? <==> r.Fail?
    ensures r.Fail? ==> Canonical(old(Abs(node, S)), old(ParentTree(node, S))).failure == r.failure && unchanged(node)
    ensures r.Fail? ==> forall c :: c in old(node.children) ==> unchanged(c)
    ensures r.Pass? && (!Swaps(old(Abs(node, S))) || old(Separate(node, S))) ==>
      IsTree(node, S') && Abs(node, S') == Canonical(old(Abs(node, S)), old(ParentTree(node, S))).value
    ensures r.Pass? && !Swaps(old(Abs(node, S))) && Canonical(old(Abs(node, S)), old(ParentTree(node, S))).value != old(Abs(node, S)) ==>
      node.parent == null
    ensures r.Pass? && Canonical(old(Abs(node, S)), old(ParentTree(node, S))).value == old(Abs(node, S)) ==>
      unchanged(node)
  {
    ghost var t := Abs(node, S);
    ghost var pv := ParentTree(node, S);
    ghost var want := Canonical(t, pv);
    S' := S;
    if node.data.text == "*" {
      if |node.children| == 0 {
        return Fail(IndexOutOfBounds), S;
      }
      ChildAbs(node, S, 0);
      ChildAbs(node, S, 1);
      if node.children[0].TypeIs("const") && !node.children[1].TypeIs("const") {
        assert Swaps(t) && want == Ok(Op(t.d, t.c1, t.c0)) && want.value != t;
        S' := SwapRule(node, S);
      } else {
        assert !Swaps(t) && want == Ok(t);
      }
      r := Pass;
    } else if node.data.text == "-" {
      if |node.children| == 0 {
        return Fail(IndexOutOfBounds), S;
      }
      assert "-" != "*" && "+" != "-";
      assert !Swaps(t) && want == Ok(OpNode("+", t.c1, OpNode("*", t.c0, ConstLeaf("-1")))) && want.value != t;
      S' := MinusRule(node, S);
      r := Pass;
    } else if node.TypeIs("variable") {
      if node.parent == null {
        return Fail(NullPointer), S;
      }
      if !node.parent.DataIs("^") {
        assert !Swaps(t) && want == Ok(OpNode("^", ConstLeaf("1"), t)) && want.value != t;
        S' := PowerRule(node, S);
      } else {
        assert !Swaps(t) && want == Ok(t);
      }
      r := Pass;
    } else if node.data.text == "^" {
      assert "^" != "*" && "^" != "-";
      var wrap := true;
      if !node.IsRoot() && node.parent.DataIs("*") {
        var o := node.GetOtherChild(S);
        if o.Err? {
          return Fail(o.failure), S;
        }
        if o.value == null {
          return Fail(NullPointer), S;
        }
        wrap := !o.value.TypeIs("const");
      }
      if wrap {
        assert !Swaps(t) && want == Ok(OpNode("*", t, ConstLeaf("1"))) && want.value != t;
        S' := TimesOneRule(node, S);
      } else {
        assert !Swaps(t) && want == Ok(t);
      }
      r := Pass;
    } else {
      assert !Swaps(t) && want == Ok(t);
      r := Pass;
    }
  }

  /** swapNodes(node.getChild(0), node.getChild(1)). */
  method SwapRule(node: Node, ghost S: set<Node>) returns (ghost S': set<Node>)
    requires IsTree(node, S) && |node.children| == 2
    modifies node.children
    ensures old(Separate(node, S)) ==>
      IsTree(node, S') && Abs(node, S') == Op(old(node.data), Kids(old(Abs(node, S)))[1], Kids(old(Abs(node, S)))[0])
  {
    S' := S;
    ghost var U := S - {node};
    var c0, c1 := node.children[0], node.children[1];
    ghost var sep := Separate(node, S);
    ghost var v0, v1 := Abs(c0, U), Abs(c1, U);
    ghost var G0, G1 := Reach(c0, U) - {c0}, Reach(c1, U) - {c1};
    ghost var k0, d0, k1, d1 := c0.children, c0.data, c1.children, c1.data;
    assert Heads(k0, d0, G0, v0) by { HeadsOwn(c0, U); }
    assert Heads(k1, d1, G1, v1) by { HeadsOwn(c1, U); }
    assert node !in G0 + G1 + {c0, c1};
    SwapNodes(c0, c1);
    if sep {
      assert c0 !in G1 + {c1} && c1 !in G0 + {c0};
      S' := G1 + {c0} + (G0 + {c1}) + {node};
      Exchanged(node, c0, c1, G0, G1, v0, v1);
    }
  }

  /** After the exchange, child 0 holds what child 1 held and the other way round. */
  lemma Exchanged(node: Node, c0: Node, c1: Node, G0: set<Node>, G1: set<Node>, v0: Tree, v1: Tree)
    requires node.children == [c0, c1] && node !in G0 + G1 + {c0, c1}
    requires c0 !in G1 + {c1} && c1 !in G0 + {c0}
    requires Heads(c0.children, c0.data, G1, v1) && Heads(c1.children, c1.data, G0, v0)
    ensures IsTree(node, G1 + {c0} + (G0 + {c1}) + {node})
    ensures Abs(node, G1 + {c0} + (G0 + {c1}) + {node}) == Op(node.data, v1, v0)
  {
    Place(c0, G1, v1);
    Place(c1, G0, v0);
    ghost var V := G1 + {c0} + (G0 + {c1});
    Grow(c0, G1 + {c0}, V);
    Grow(c1, G0 + {c1}, V);
    JoinAbs(node, c0, c1, V);
  }

  /** a - b becomes (-1 * b) + a: new Node(+) over a copy of child 1 and a new product of child 0 and -1. */
  method MinusRule(node: Node, ghost S: set<Node>) returns (ghost S': set<Node>)
    requires IsTree(node, S) && |node.children| == 2
    modifies node
    ensures IsTree(node, S') && node.parent == null
    ensures Abs(node, S') == OpNode("+", Kids(old(Abs(node, S)))[1], OpNode("*", Kids(old(Abs(node, S)))[0], ConstLeaf("-1")))
  {
    ghost var U := S - {node};
    var c0, c1 := node.children[0], node.children[1];
    ghost var t, a, b := Abs(node, S), Abs(c0, U), Abs(c1, U);
    assert Kids(t)[0] == a && Kids(t)[1] == b;
    var k, prod, W := MinusOperands(c0, c1, U);
    Replace(node, "+", k, prod, W);
    S' := W + {node};
  }

  /** The two operands of the new sum: a copy of child 1, and the product of child 0 and -1. */
  method MinusOperands(c0: Node, c1: Node, ghost U: set<Node>) returns (k: Node, prod: Node, ghost W: set<Node>)
    requires IsTree(c0, U) && IsTree(c1, U)
    ensures fresh(k) && fresh(prod) && U <= W && fresh(W - U)
    ensures IsTree(k, W) && Abs(k, W) == Abs(c1, U)
    ensures IsTree(prod, W) && Abs(prod, W) == OpNode("*", Abs(c0, U), ConstLeaf("-1"))
  {
    ghost var W0;
    ghost var t0, t1 := Abs(c0, U), Abs(c1, U);
    prod, W0 := NegatedProduct(c0, U);
    k := new Node.Copy(c1);
    CopyBeside(k, c1, prod, U, W0);
    W := W0 + {k};
  }

  /** The copy of child 1 and the product, side by side in one set of nodes. */
  lemma CopyBeside(k: Node, c: Node, prod: Node, U: set<Node>, W: set<Node>)
    requires IsTree(c, U) && U <= W && k !in W && k.children == c.children && k.data == c.data
    requires IsTree(prod, W)
    ensures IsTree(k, W + {k}) && Abs(k, W + {k}) == Abs(c, U)
    ensures IsTree(prod, W + {k}) && Abs(prod, W + {k}) == Abs(prod, W)
  {
    Grow(c, U, W);
    CopyAbs(k, c, W);
    Grow(prod, W, W + {k});
  }

  /** The product of a copy of `a` and a copy of a new constant -1. */
  method NegatedProduct(a: Node, ghost U: set<Node>) returns (p: Node, ghost W: set<Node>)
    requires IsTree(a, U)
    ensures fresh(p) && U <= W && fresh(W - U)
    ensures IsTree(p, W) && Abs(p, W) == OpNode("*", Abs(a, U), ConstLeaf("-1"))
  {
    ghost var t := Abs(a, U);
    var minusOne := new Node(Datum(Const, "-1"));
    ghost var V := U + {minusOne};
    Adopt(minusOne, U);
    Grow(a, U, V);
    assert Abs(minusOne, V) == ConstLeaf("-1") && Abs(a, V) == t;
    p, W := Branch("*", a, minusOne, V);
    assert fresh(W - U) by {
      assert W - U <= (W - V) + {minusOne};
    }
  }

  /** x becomes x ^ 1: new Node(^) over a new constant 1 and a copy of the node. */
  method PowerRule(node: Node, ghost S: set<Node>) returns (ghost S': set<Node>)
    requires IsTree(node, S)
    modifies node
    ensures IsTree(node, S') && node.parent == null
    ensures Abs(node, S') == OpNode("^", ConstLeaf("1"), old(Abs(node, S)))
  {
    ghost var U := S - {node};
    ghost var t := Abs(node, S);
    var one := new Node(Datum(Const, "1"));
    var k := new Node.Copy(node);
    Adopt(one, U);
    SelfCopy(k, node, S);
    ghost var W := U + {one} + {k};
    Grow(one, U + {one}, W);
    Grow(k, U + {k}, W);
    assert Abs(one, W) == ConstLeaf("1") && Abs(k, W) == t;
    Replace(node, "^", one, k, W);
    S' := W + {node};
  }

  /** A power p becomes p * 1: new Node(*) over a copy of the node and a new constant 1. */
  method TimesOneRule(node: Node, ghost S: set<Node>) returns (ghost S': set<Node>)
    requires IsTree(node, S)
    modifies node
    ensures IsTree(node, S') && node.parent == null
    ensures Abs(node, S') == OpNode("*", old(Abs(node, S)), ConstLeaf("1"))
  {
    ghost var U := S - {node};
    ghost var t := Abs(node, S);
    var k := new Node.Copy(node);
    var one := new Node(Datum(Const, "1"));
    SelfCopy(k, node, S);
    Adopt(one, U);
    ghost var W := U + {k} + {one};
    Grow(k, U + {k}, W);
    Grow(one, U + {one}, W);
    assert Abs(one, W) == ConstLeaf("1") && Abs(k, W) == t;
    Replace(node, "*", k, one, W);
    S' := W + {node};
  }
}
