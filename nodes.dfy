/**
 * Node.java: a node of the abstract syntax tree, with its list of children,
 * its parent link and the expression it holds. Children and parent are
 * separate links that only the code keeps consistent: the tree a node
 * denotes is read off the children alone (`Abs`), and whether the parent
 * links agree with it is a separate property (`Linked`, in the module Maintenance).
 */
module Nodes {
  import opened Results
  import opened Exprs
  import opened Trees

  class Node {
    var children: seq<Node>
    var parent: Node?
    /**
     * The Expr the node holds. The core never changes an Expr after creating
     * it, so the node keeps the value the Expr holds.
     */
    var data: Datum

    /** new Node(e). */
    constructor (e: Datum)
      ensures children == [] && parent == null && data == e
    {
      children := [];
      parent := null;
      data := e;
    }

    /** new Node() followed at once by setNode(src): a node with the same links and Expr as `src`. */
    constructor Copy(src: Node)
      ensures children == src.children && parent == src.parent && data == src.data
    {
      children := src.children;
      parent := src.parent;
      data := src.data;
    }

    /** setNode: this node takes over the parent, the Expr and the children of `node`, and is returned. */
    method SetNode(node: Node) returns (r: Node)
      modifies this
      ensures children == old(node.children) && parent == old(node.parent) && data == old(node.data)
      ensures r == this
    {
      var p, d, c := node.parent, node.data, node.children;
      parent := p;
      data := d;
      SetChildren(c);
      r := this;
    }

    /** setChildren: a fresh list holding the given children, in order. */
    method SetChildren(c: seq<Node>)
      modifies this`children
      ensures children == c
    {
      var kids: seq<Node> := [];
      var i := 0;
      while i < |c|
        invariant 0 <= i <= |c| && kids == c[..i]
      {
        kids := kids + [c[i]];
        i := i + 1;
      }
      children := kids;
    }

    method SetParent(p: Node?)
      modifies this`parent
      ensures parent == p
    {
      parent := p;
    }

    /** addChild: appends `node` to the children and makes this node its parent. */
    method AddChild(node: Node) returns (r: Node)
      modifies this`children, node`parent
      ensures children == old(children) + [node] && node.parent == this && r == node
    {
      children := children + [node];
      node.parent := this;
      r := node;
    }

    /** typeIs: whether the Expr is of the subclass named "const", "operator" or "variable". */
    function TypeIs(t: string): (b: bool)
      reads this
      ensures b <==> (t == "const" && data.kind == Const) ||
                     (t == "operator" && data.kind == Operator) ||
                     (t == "variable" && data.kind == Variable)
    {
      data.GetType() == t
    }

    predicate DataIs(s: string)
      reads this
    {
      data.text == s
    }

    /**
     * comparePrec: the difference of the operator precedences, positive when
     * this node binds tighter than `node`.
     */
    function ComparePrec(node: Node): (r: int)
      reads this, node
      ensures r > 0 <==> Prec(data.text) > Prec(node.data.text)
      ensures r == 0 <==> Prec(data.text) == Prec(node.data.text)
    {
      data.GetPrec() - node.data.GetPrec()
    }

    predicate IsRoot()
      reads this
    {
      parent == null
    }

    predicate HasChildren()
      reads this
    {
      |children| != 0
    }

    /** hasChildOfType: whether some child is of the given subclass. */
    method HasChildOfType(t: string) returns (b: bool)
      ensures b <==> exists i :: 0 <= i < |children| && children[i].TypeIs(t)
    {
      var i := 0;
      while i < |children|
        invariant 0 <= i <= |children|
        invariant forall j :: 0 <= j < i ==> !children[j].TypeIs(t)
      {
        if children[i].TypeIs(t) {
          return true;
        }
        i := i + 1;
      }
      return false;
    }

    /** getChildOfTypeInd: the index of the first child of the given subclass, or -1. */
    method GetChildOfTypeInd(t: string) returns (k: int)
      ensures -1 <= k < |children|
      ensures k >= 0 ==> children[k].TypeIs(t)
      ensures forall j :: 0 <= j < |children| && (k == -1 || j < k) ==> !children[j].TypeIs(t)
    {
      var i := 0;
      while i < |children|
        invariant 0 <= i <= |children|
        invariant forall j :: 0 <= j < i ==> !children[j].TypeIs(t)
      {
        if children[i].TypeIs(t) {
          return i;
        }
        i := i + 1;
      }
      return -1;
    }

    /** getChildOfType: the first child of the given subclass, or null. */
    method GetChildOfType(t: string) returns (c: Node?)
      ensures c == null <==> forall j :: 0 <= j < |children| ==> !children[j].TypeIs(t)
      ensures c != null ==> exists k :: 0 <= k < |children| && c == children[k] && c.TypeIs(t) &&
                                       forall j :: 0 <= j < k ==> !children[j].TypeIs(t)
    {
      var i := 0;
      while i < |children|
        invariant 0 <= i <= |children|
        invariant forall j :: 0 <= j < i ==> !children[j].TypeIs(t)
      {
        if children[i].TypeIs(t) {
          return children[i];
        }
        i := i + 1;
      }
      return null;
    }

    /**
     * getOtherChildInd: the index of the first child of the parent that is
     * not this very object, or -1; a root has no parent to ask.
     */
    method GetOtherChildInd() returns (r: Result<int>)
      ensures parent == null <==> r == Err(NullPointer)
      ensures r.Ok? ==> -1 <= r.value < |parent.children|
      ensures r.Ok? && r.value >= 0 ==> parent.children[r.value] != this
      ensures r.Ok? ==> forall j :: 0 <= j < |parent.children| && (r.value == -1 || j < r.value) ==> parent.children[j] == this
    {
      if parent == null {
        return Err(NullPointer);
      }
      var kids := parent.children;
      var i := 0;
      while i < |kids|
        invariant 0 <= i <= |kids|
        invariant forall j :: 0 <= j < i ==> kids[j] == this
      {
        if kids[i] != this {
          return Ok(i);
        }
        i := i + 1;
      }
      return Ok(-1);
    }

    /**
     * isSame: equal texts, then both without children, or the children
     * compared pairwise with `node`'s child as the receiver.
     */
    method IsSame(node: Node, ghost S: set<Node>) returns (r: Result<bool>)
      requires IsTree(this, S) && IsTree(node, S)
      ensures r == Trees.IsSame(Abs(this, S), Abs(node, S))
      decreases Size(Abs(this, S)) + Size(Abs(node, S))
    {
      if node.data.text != data.text {
        return Ok(false);
      }
      if |children| == 0 && |node.children| == 0 {
        return Ok(true);
      }
      if |node.children| == 0 || |children| == 0 {
        return Err(IndexOutOfBounds);
      }
      ghost var a, b := Abs(this, S), Abs(node, S);
      assert IsTree(children[0], S) && IsTree(children[1], S) && Abs(children[0], S) == a.c0 && Abs(children[1], S) == a.c1 by {
        ChildAbs(this, S, 0);
        ChildAbs(this, S, 1);
      }
      assert IsTree(node.children[0], S) && IsTree(node.children[1], S) && Abs(node.children[0], S) == b.c0 && Abs(node.children[1], S) == b.c1 by {
        ChildAbs(node, S, 0);
        ChildAbs(node, S, 1);
      }
      r := node.children[0].IsSame(children[0], S);
      if r == Ok(true) {
        r := node.children[1].IsSame(children[1], S);
      }
    }

    /** isSame of the parent's `i`-th child against this node, on the trees both denote. */
    method CompareChild(p: Node, i: int, ghost S: set<Node>) returns (same: Result<bool>)
      requires IsTree(p, S) && IsTree(this, S) && 0 <= i < |p.children|
      ensures same == Trees.IsSame(Kids(Abs(p, S))[i], Abs(this, S))
    {
      ChildAbs(p, S, i);
      same := p.children[i].IsSame(this, S);
    }

    /**
     * getOtherChild: a root answers itself; otherwise the sibling of the
     * first child of the parent that isSame reports equal to this node, or
     * null when there is none.
     */
    method GetOtherChild(ghost S: set<Node>) returns (r: Result<Node?>)
      requires IsTree(this, S) && (parent != null ==> IsTree(parent, S))
      ensures parent == null ==> r.Ok? && r.value == this
      ensures parent != null && r.Err? ==> Trees.OtherChild(Abs(parent, S), Abs(this, S)) == Err(r.failure)
      ensures parent != null && r == Ok(null) ==> Trees.OtherChild(Abs(parent, S), Abs(this, S)) == Ok(None)
      ensures parent != null && r.Ok? && r.value != null ==>
        r.value in parent.children && IsTree(r.value, S) &&
        Trees.OtherChild(Abs(parent, S), Abs(this, S)) == Ok(Some(Abs(r.value, S)))
      ensures parent != null && r.Ok? && r.value != null ==>
        var k := Trees.FirstSame(Kids(Abs(parent, S)), Abs(this, S));
        k.Ok? && 0 <= k.value && (k.value + 1) % 2 < |parent.children| && r.value == parent.children[(k.value + 1) % 2]
    {
      if parent == null {
        return Ok(this);
      }
      var kids := parent.children;
      ghost var ts := Kids(Abs(parent, S));
      ghost var t := Abs(this, S);
      var i := 0;
      while i < |kids|
        invariant 0 <= i <= |kids|
        invariant forall j :: 0 <= j < i ==> Trees.IsSame(ts[j], t) == Ok(false)
      {
        var same := CompareChild(parent, i, S);
        if same.Err? {
          OtherChildErr(parent, this, S, i);
          return Err(same.failure);
        }
        if same.value {
          OtherChildFound(parent, this, S, i);
          return Ok(kids[(i + 1) % 2]);
        }
        i := i + 1;
      }
      OtherChildNone(parent, this, S);
      return Ok(null);
    }
  }

  // ---------------------------------------------------------------------
  // The tree a node denotes

  /**
   * `n` heads a tree inside `S`: it is in `S`, has no children or two, and
   * its children head trees inside `S` without `n`. No node lies below
   * itself; a node may be reached along two paths.
   */
  ghost predicate IsTree(n: Node, S: set<Node>)
    reads S`children
    decreases S
  {
    n in S && (|n.children| == 0 || |n.children| == 2) &&
    forall i :: 0 <= i < |n.children| ==> IsTree(n.children[i], S - {n})
  }

  /** The value of the tree `n` heads. */
  ghost function Abs(n: Node, S: set<Node>): Tree
    requires IsTree(n, S)
    reads S`children, S`data
    decreases S
  {
    if |n.children| == 0 then Leaf(n.data)
    else Op(n.data, Abs(n.children[0], S - {n}), Abs(n.children[1], S - {n}))
  }

  /** The nodes of the tree `n` heads. */
  ghost function Reach(n: Node, S: set<Node>): (R: set<Node>)
    requires IsTree(n, S)
    reads S`children
    ensures n in R && R <= S
    decreases S
  {
    if |n.children| == 0 then {n}
    else {n} + Reach(n.children[0], S - {n}) + Reach(n.children[1], S - {n})
  }

  /** A tree inside `S` is the same tree inside any larger set. */
  lemma {:induction false} Grow(n: Node, S: set<Node>, T: set<Node>)
    requires IsTree(n, S) && S <= T
    ensures IsTree(n, T) && Abs(n, T) == Abs(n, S) && Reach(n, T) == Reach(n, S)
    decreases S
  {
    forall i | 0 <= i < |n.children|
      ensures IsTree(n.children[i], T - {n}) &&
              Abs(n.children[i], T - {n}) == Abs(n.children[i], S - {n}) &&
              Reach(n.children[i], T - {n}) == Reach(n.children[i], S - {n})
    {
      Grow(n.children[i], S - {n}, T - {n});
    }
  }

  /** A tree lies inside its own nodes. */
  lemma {:induction false} Shrink(n: Node, S: set<Node>)
    requires IsTree(n, S)
    ensures IsTree(n, Reach(n, S)) && Abs(n, Reach(n, S)) == Abs(n, S) && Reach(n, Reach(n, S)) == Reach(n, S)
    decreases S
  {
    var R := Reach(n, S);
    forall i | 0 <= i < |n.children|
      ensures IsTree(n.children[i], R - {n}) &&
              Abs(n.children[i], R - {n}) == Abs(n.children[i], S - {n}) &&
              Reach(n.children[i], R - {n}) == Reach(n.children[i], S - {n})
    {
      var c := n.children[i];
      Shrink(c, S - {n});
      Grow(c, Reach(c, S - {n}), R - {n});
    }
  }

  /** A child of a tree heads a tree of its own, inside the same set, whose value is that child's. */
  lemma ChildAbs(p: Node, S: set<Node>, i: int)
    requires IsTree(p, S) && 0 <= i < |p.children|
    ensures IsTree(p.children[i], S) && Abs(p.children[i], S) == Kids(Abs(p, S))[i]
    ensures Reach(p.children[i], S) <= Reach(p, S) - {p}
  {
    Grow(p.children[i], S - {p}, S);
  }

  /** The nodes strictly below `n` hold the trees of its children. */
  lemma Detach(n: Node, S: set<Node>)
    requires IsTree(n, S)
    ensures forall i :: 0 <= i < |n.children| ==>
      IsTree(n.children[i], Reach(n, S) - {n}) && Abs(n.children[i], Reach(n, S) - {n}) == Kids(Abs(n, S))[i]
  {
    Shrink(n, S);
  }

  /** Where the loop of getOtherChild stops, the value of its answer. */
  lemma OtherChildNone(p: Node, n: Node, S: set<Node>)
    requires IsTree(p, S) && IsTree(n, S)
    requires forall j :: 0 <= j < |p.children| ==> Trees.IsSame(Kids(Abs(p, S))[j], Abs(n, S)) == Ok(false)
    ensures Trees.OtherChild(Abs(p, S), Abs(n, S)) == Ok(None)
  {
    FirstSameAt(Kids(Abs(p, S)), Abs(n, S), |p.children|);
  }

  lemma OtherChildErr(p: Node, n: Node, S: set<Node>, k: int)
    requires IsTree(p, S) && IsTree(n, S) && 0 <= k < |p.children|
    requires forall j :: 0 <= j < k ==> Trees.IsSame(Kids(Abs(p, S))[j], Abs(n, S)) == Ok(false)
    requires Trees.IsSame(Kids(Abs(p, S))[k], Abs(n, S)).Err?
    ensures Trees.OtherChild(Abs(p, S), Abs(n, S)) == Err(Trees.IsSame(Kids(Abs(p, S))[k], Abs(n, S)).failure)
  {
    FirstSameAt(Kids(Abs(p, S)), Abs(n, S), k);
  }

  lemma OtherChildFound(p: Node, n: Node, S: set<Node>, k: int)
    requires IsTree(p, S) && IsTree(n, S) && 0 <= k < |p.children|
    requires forall j :: 0 <= j < k ==> Trees.IsSame(Kids(Abs(p, S))[j], Abs(n, S)) == Ok(false)
    requires Trees.IsSame(Kids(Abs(p, S))[k], Abs(n, S)) == Ok(true)
    ensures (k + 1) % 2 < |p.children|
    ensures Trees.FirstSame(Kids(Abs(p, S)), Abs(n, S)) == Ok(k)
    ensures IsTree(p.children[(k + 1) % 2], S) &&
      Trees.OtherChild(Abs(p, S), Abs(n, S)) == Ok(Some(Abs(p.children[(k + 1) % 2], S)))
  {
    FirstSameAt(Kids(Abs(p, S)), Abs(n, S), k);
    ChildAbs(p, S, (k + 1) % 2);
  }

  /** A fresh node that took over the children and Expr of `m` (new Node().setNode(m)) denotes the same tree. */
  lemma CopyAbs(f: Node, m: Node, U: set<Node>)
    requires f !in U && IsTree(m, U) && f.children == m.children && f.data == m.data
    ensures IsTree(f, U + {f}) && Abs(f, U + {f}) == Abs(m, U)
  {
    assert U + {f} - {f} == U;
    forall i | 0 <= i < |m.children|
      ensures IsTree(m.children[i], U) && Abs(m.children[i], U) == Abs(m.children[i], U - {m})
    {
      Grow(m.children[i], U - {m}, U);
    }
  }

  /** A new node with the children and the Expr of `m` heads the same tree, in place of `m`. */
  lemma SelfCopy(f: Node, m: Node, S: set<Node>)
    requires f !in S && IsTree(m, S) && f.children == m.children && f.data == m.data
    ensures IsTree(f, S - {m} + {f}) && Abs(f, S - {m} + {f}) == Abs(m, S)
  {
    assert S - {m} + {f} - {f} == S - {m};
  }

  /** A node outside `U` whose two children head trees inside `U` heads the tree joining them. */
  lemma JoinAbs(d: Node, x: Node, y: Node, U: set<Node>)
    requires d !in U && d.children == [x, y] && IsTree(x, U) && IsTree(y, U)
    ensures IsTree(d, U + {d}) && Abs(d, U + {d}) == Op(d.data, Abs(x, U), Abs(y, U))
  {
    assert U + {d} - {d} == U;
  }

  /**
   * A node outside `U` with no children, or with two children heading trees
   * inside `U`, heads a tree inside `U` and itself.
   */
  lemma Adopt(f: Node, U: set<Node>)
    requires f !in U && (|f.children| == 0 || |f.children| == 2)
    requires forall i :: 0 <= i < |f.children| ==> IsTree(f.children[i], U)
    ensures IsTree(f, U + {f})
    ensures Abs(f, U + {f}) ==
      if |f.children| == 0 then Leaf(f.data) else Op(f.data, Abs(f.children[0], U), Abs(f.children[1], U))
  {
    assert U + {f} - {f} == U;
  }

  /** Children `ks` and Expr `d` head the tree `v` over the nodes `G`, whichever node holds them. */
  ghost predicate Heads(ks: seq<Node>, d: Datum, G: set<Node>, v: Tree)
    reads G`children, G`data
  {
    (|ks| == 0 || |ks| == 2) && (forall i :: 0 <= i < |ks| ==> IsTree(ks[i], G)) &&
    v == if |ks| == 0 then Leaf(d) else Op(d, Abs(ks[0], G), Abs(ks[1], G))
  }

  lemma HeadsOwn(n: Node, S: set<Node>)
    requires IsTree(n, S)
    ensures Heads(n.children, n.data, Reach(n, S) - {n}, Abs(n, S))
  {
    Detach(n, S);
  }

  /** A node outside `G` given children and Expr that head `v` over `G` heads `v`. */
  lemma Place(f: Node, G: set<Node>, v: Tree)
    requires f !in G && Heads(f.children, f.data, G, v)
    ensures IsTree(f, G + {f}) && Abs(f, G + {f}) == v
  {
    Adopt(f, G);
  }
}
