/**
 * jCAS.fillParentNodes and jCAS.swapNodes: the two helpers that keep the
 * node objects in order while the rewrites work on them. setNode copies a
 * node's content but not the parent links of its children, so after a
 * rewrite the parent links have to be filled in again from the root.
 */
module Maintenance {
  import opened Exprs
  import opened Trees
  import opened Nodes

  /** The parent link of every node strictly below `n` names the node whose child it is. */
  ghost predicate Linked(n: Node, S: set<Node>)
    requires IsTree(n, S)
    reads S`children, (Reach(n, S) - {n})`parent
    decreases S
  {
    forall i :: 0 <= i < |n.children| ==>
      n.children[i].parent == n && Linked(n.children[i], S - {n})
  }

  /** No node is reached along two paths below `n`: the two subtrees of every node are disjoint. */
  ghost predicate Unshared(n: Node, S: set<Node>)
    requires IsTree(n, S)
    reads S`children
    decreases S
  {
    |n.children| == 2 ==>
      Reach(n.children[0], S - {n}) !! Reach(n.children[1], S - {n}) &&
      Unshared(n.children[0], S - {n}) && Unshared(n.children[1], S - {n})
  }

  /** Both properties survive widening the set of nodes the tree is read in. */
  lemma {:induction false} GrowKept(n: Node, S: set<Node>, T: set<Node>)
    requires IsTree(n, S) && S <= T
    ensures IsTree(n, T) && (Linked(n, S) ==> Linked(n, T)) && (Unshared(n, S) ==> Unshared(n, T))
    decreases S
  {
    Grow(n, S, T);
    forall i | 0 <= i < |n.children|
      ensures IsTree(n.children[i], T - {n}) && Reach(n.children[i], T - {n}) == Reach(n.children[i], S - {n})
      ensures Linked(n.children[i], S - {n}) ==> Linked(n.children[i], T - {n})
      ensures Unshared(n.children[i], S - {n}) ==> Unshared(n.children[i], T - {n})
    {
      Grow(n.children[i], S - {n}, T - {n});
      GrowKept(n.children[i], S - {n}, T - {n});
    }
  }

  /**
   * fillParentNodes: every child of `node` gets `node` as its parent, and
   * the children that have children are filled in the same way. When no
   * node is shared the links end up agreeing with the children lists; the
   * parent of `node` itself and every other field are left alone.
   */
  method FillParentNodes(node: Node, ghost S: set<Node>)
    requires IsTree(node, S)
    modifies (Reach(node, S) - {node})`parent
    ensures Unshared(node, S) ==> Linked(node, S)
    decreases S, 1
  {
    ghost var sh := Unshared(node, S);
    var i := 0;
    while i < |node.children|
      invariant 0 <= i <= |node.children|
      invariant sh ==> forall j :: 0 <= j < i ==>
        node.children[j].parent == node && Linked(node.children[j], S - {node})
    {
      FillChild(node, i, S);
      i := i + 1;
    }
  }

  /** One pass of the loop of fillParentNodes: child `i` and the nodes below it. */
  method FillChild(node: Node, i: int, ghost S: set<Node>)
    requires IsTree(node, S) && 0 <= i < |node.children|
    modifies Reach(node.children[i], S - {node})`parent
    ensures node.children[i].parent == node
    ensures Unshared(node.children[i], S - {node}) ==> Linked(node.children[i], S - {node})
    decreases S, 0
  {
    var child := node.children[i];
    child.SetParent(node);
    if |child.children| != 0 {
      FillParentNodes(child, S - {node});
    }
  }

  /**
   * swapNodes: a and b exchange their content (parent, Expr and children)
   * through a temporary copy of a.
   */
  method SwapNodes(a: Node, b: Node)
    modifies a, b
    ensures a.children == old(b.children) && a.data == old(b.data) && a.parent == old(b.parent)
    ensures b.children == old(a.children) && b.data == old(a.data) && b.parent == old(a.parent)
  {
    var temp := new Node.Copy(a);
    var self := a.SetNode(b);
    self := b.SetNode(temp);
  }

  /**
   * new Node(new OperatorExpr(text)) with new Node().setNode(a) and
   * new Node().setNode(b) added as its children: copies one level deep,
   * sharing the nodes below.
   */
  method Branch(text: string, a: Node, b: Node, ghost U: set<Node>) returns (p: Node, ghost W: set<Node>)
    requires IsTree(a, U) && IsTree(b, U)
    ensures fresh(p) && U <= W && fresh(W - U)
    ensures IsTree(p, W) && Abs(p, W) == OpNode(text, Abs(a, U), Abs(b, U))
  {
    p := new Node(Datum(Operator, text));
    var k1 := new Node.Copy(a);
    var k2 := new Node.Copy(b);
    W := U + {k1, k2} + {p};
    assert fresh(W - U) by {
      assert W - U <= {k1, k2, p};
    }
    var added := p.AddChild(k1);
    added := p.AddChild(k2);
    BranchAbs(p, k1, k2, a, b, U);
  }

  /** A node over copies of `a` and `b` heads the tree joining theirs. */
  lemma BranchAbs(p: Node, k1: Node, k2: Node, a: Node, b: Node, U: set<Node>)
    requires IsTree(a, U) && IsTree(b, U) && k1 !in U && k2 !in U && p !in U + {k1, k2} && k1 != k2
    requires k1.children == a.children && k1.data == a.data && k2.children == b.children && k2.data == b.data
    requires p.children == [k1, k2]
    ensures IsTree(p, U + {k1, k2} + {p})
    ensures Abs(p, U + {k1, k2} + {p}) == Op(p.data, Abs(a, U), Abs(b, U))
  {
    CopyAbs(k1, a, U);
    CopyAbs(k2, b, U);
    Grow(k1, U + {k1}, U + {k1, k2});
    Grow(k2, U + {k2}, U + {k1, k2});
    JoinAbs(p, k1, k2, U + {k1, k2});
  }

  /**
   * The way every rewrite ends: a new node holding `text` gets `x` and `y`
   * as children, and `node` takes over its content with setNode, so `node`
   * is left without a parent.
   */
  method Replace(node: Node, text: string, x: Node, y: Node, ghost W: set<Node>)
    requires IsTree(x, W) && IsTree(y, W) && node !in W
    modifies node, x`parent, y`parent
    ensures IsTree(node, W + {node}) && node.parent == null
    ensures Abs(node, W + {node}) == OpNode(text, old(Abs(x, W)), old(Abs(y, W)))
  {
    var holder := new Node(Datum(Operator, text));
    var added := holder.AddChild(x);
    added := holder.AddChild(y);
    added := node.SetNode(holder);
    JoinAbs(node, x, y, W);
  }
}
