/**
 * jCAS.createAST, on values: the postfix tokens are read left to right onto
 * a stack of trees; an operand becomes a leaf, an operator pops its two
 * operands, and the tree on top of the stack at the end is the result.
 */
module Builder {
  import opened Results
  import opened Strings
  import opened Exprs
  import opened Trees
  import opened Nodes
  import opened Maintenance
  import Lexer

  /** The leaf for an operand: a variable when it occurs in the variables string, a constant otherwise. */
  function Operand(tkn: string, vars: string): (t: Tree)
    ensures t.Leaf? && t.d.text == tkn
    ensures t.d.kind == Variable <==> IndexOf(vars, tkn) >= 0
    ensures t.d.kind != Operator
  {
    if IndexOf(vars, tkn) >= 0 then Leaf(Datum(Variable, tkn)) else Leaf(Datum(Const, tkn))
  }

  /**
   * One token. An operator pops twice (the first tree popped is its child 0,
   * the right operand) and pushes the new node; pop on an empty stack throws.
   */
  function Push(stk: seq<Tree>, tkn: string, vars: string): Result<seq<Tree>>
  {
    if Lexer.GetPrec(tkn) == -1 then Ok(stk + [Operand(tkn, vars)])
    else if |stk| < 2 then Err(EmptyStack)
    else Ok(stk[..|stk| - 2] + [Op(Datum(Operator, tkn), stk[|stk| - 1], stk[|stk| - 2])])
  }

  /** The token loop, from stack `stk`. */
  function BuildFrom(ts: seq<string>, stk: seq<Tree>, vars: string): Result<seq<Tree>>
    decreases |ts|
  {
    if ts == [] then Ok(stk)
    else
      match Push(stk, ts[0], vars)
      case Err(f) => Err(f)
      case Ok(next) => BuildFrom(ts[1..], next, vars)
  }

  /** The tree createAST returns: the top of the stack, or the exception peek throws. */
  function Build(ts: seq<string>, vars: string): Result<Tree>
  {
    match BuildFrom(ts, [], vars)
    case Err(f) => Err(f)
    case Ok(stk) => if stk == [] then Err(EmptyStack) else Ok(stk[|stk| - 1])
  }

  lemma BuildStep(ts: seq<string>, stk: seq<Tree>, vars: string)
    requires ts != []
    ensures Push(stk, ts[0], vars).Err? ==> BuildFrom(ts, stk, vars) == Err(Push(stk, ts[0], vars).failure)
    ensures Push(stk, ts[0], vars).Ok? ==> BuildFrom(ts, stk, vars) == BuildFrom(ts[1..], Push(stk, ts[0], vars).value, vars)
  {
  }

  // ---------------------------------------------------------------------
  // When createAST throws

  /** Reading `ts` onto a stack of `h` trees, no operator lacks operands and the stack ends non-empty. */
  predicate Fits(ts: seq<string>, h: int)
    decreases |ts|
  {
    if ts == [] then h > 0
    else if Lexer.GetPrec(ts[0]) == -1 then Fits(ts[1..], h + 1)
    else h >= 2 && Fits(ts[1..], h - 1)
  }

  /** The height of the stack after a token. */
  lemma {:induction false} BuildFromHeight(ts: seq<string>, stk: seq<Tree>, vars: string)
    ensures BuildFrom(ts, stk, vars).Ok? && BuildFrom(ts, stk, vars).value != [] <==> Fits(ts, |stk|)
    ensures BuildFrom(ts, stk, vars).Err? ==> BuildFrom(ts, stk, vars).failure == EmptyStack
    decreases |ts|
  {
    if ts != [] {
      BuildStep(ts, stk, vars);
      var p := Push(stk, ts[0], vars);
      if p.Ok? {
        BuildFromHeight(ts[1..], p.value, vars);
      }
    }
  }

  /** createAST throws EmptyStackException exactly when an operator lacks operands or there are no tokens left on the stack. */
  lemma BuildFails(ts: seq<string>, vars: string)
    ensures Build(ts, vars).Err? <==> !Fits(ts, 0)
    ensures Build(ts, vars).Err? ==> Build(ts, vars).failure == EmptyStack
  {
    BuildFromHeight(ts, [], vars);
  }

  // ---------------------------------------------------------------------
  // What createAST builds

  /** Every leaf is tagged as createAST tags operands: variable exactly when it occurs in `vars`. */
  predicate Classified(t: Tree, vars: string)
  {
    match t
    case Leaf(d) => d.kind == Operand(d.text, vars).d.kind
    case Op(_, c0, c1) => Classified(c0, vars) && Classified(c1, vars)
  }

  /** The trees on a stack are well formed and classified. */
  predicate AllBuilt(stk: seq<Tree>, vars: string)
  {
    forall i :: 0 <= i < |stk| ==> WellFormed(stk[i]) && Classified(stk[i], vars)
  }

  lemma PushBuilds(stk: seq<Tree>, tkn: string, vars: string)
    requires AllBuilt(stk, vars) && tkn != "" && Push(stk, tkn, vars).Ok?
    ensures AllBuilt(Push(stk, tkn, vars).value, vars)
  {
    var r := Push(stk, tkn, vars).value;
    if Lexer.GetPrec(tkn) == -1 {
      assert r[|stk|] == Operand(tkn, vars);
    } else {
      assert WellFormed(stk[|stk| - 1]) && WellFormed(stk[|stk| - 2]);
      assert r[|stk| - 2] == Op(Datum(Operator, tkn), stk[|stk| - 1], stk[|stk| - 2]);
    }
  }

  lemma {:induction false} BuildFromBuilds(ts: seq<string>, stk: seq<Tree>, vars: string)
    requires AllBuilt(stk, vars) && BuildFrom(ts, stk, vars).Ok?
    requires forall i :: 0 <= i < |ts| ==> ts[i] != ""
    ensures AllBuilt(BuildFrom(ts, stk, vars).value, vars)
    decreases |ts|
  {
    if ts != [] {
      BuildStep(ts, stk, vars);
      PushBuilds(stk, ts[0], vars);
      BuildFromBuilds(ts[1..], Push(stk, ts[0], vars).value, vars);
    }
  }

  /** From tokens without empty ones, createAST builds a well-formed, classified tree. */
  lemma BuildWellFormed(ts: seq<string>, vars: string)
    requires forall i :: 0 <= i < |ts| ==> ts[i] != ""
    requires Build(ts, vars).Ok?
    ensures WellFormed(Build(ts, vars).value) && Classified(Build(ts, vars).value, vars)
  {
    BuildFromBuilds(ts, [], vars);
  }

  // ---------------------------------------------------------------------
  // createAST inverts the postfix reading of a tree

  /** The postfix order of a tree: left operand (child 1), right operand (child 0), operator. */
  function PostOrder(t: Tree): (ts: seq<string>)
    ensures |ts| > 0
  {
    match t
    case Leaf(d) => [d.text]
    case Op(d, c0, c1) => PostOrder(c1) + PostOrder(c0) + [d.text]
  }

  /** Reading the postfix order of a tree pushes exactly that tree. */
  lemma {:induction false} BuildFromPostOrder(t: Tree, rest: seq<string>, stk: seq<Tree>, vars: string)
    requires WellFormed(t) && Classified(t, vars)
    ensures BuildFrom(PostOrder(t) + rest, stk, vars) == BuildFrom(rest, stk + [t], vars)
    decreases t
  {
    match t
    case Leaf(d) =>
      var ts := [d.text] + rest;
      BuildStep(ts, stk, vars);
      assert ts[1..] == rest;
      assert Operand(d.text, vars) == t;
    case Op(d, c0, c1) =>
      var ts := PostOrder(c1) + PostOrder(c0) + [d.text] + rest;
      assert ts == PostOrder(c1) + (PostOrder(c0) + ([d.text] + rest));
      BuildFromPostOrder(c1, PostOrder(c0) + ([d.text] + rest), stk, vars);
      BuildFromPostOrder(c0, [d.text] + rest, stk + [c1], vars);
      var stk2 := stk + [c1] + [c0];
      BuildStep([d.text] + rest, stk2, vars);
      assert ([d.text] + rest)[1..] == rest;
      assert stk2[..|stk2| - 2] == stk;
  }

  /** createAST(postfix order of t) rebuilds t, for every well-formed, classified t. */
  lemma BuildPostOrder(t: Tree, vars: string)
    requires WellFormed(t) && Classified(t, vars)
    ensures Build(PostOrder(t), vars) == Ok(t)
  {
    BuildFromPostOrder(t, [], [], vars);
    assert PostOrder(t) + [] == PostOrder(t);
    assert [] + [t] == [t];
  }

  // ---------------------------------------------------------------------
  // createAST on the node objects

  /**
   * The stack of the token loop: separate trees with the values `trees`,
   * none with a parent, each with its parent links in place and no node
   * shared.
   */
  ghost predicate Stacked(stk: seq<Node>, S: set<Node>, trees: seq<Tree>)
    reads S`children, S`data, S`parent
  {
    |stk| == |trees| &&
    (forall i :: 0 <= i < |stk| ==>
      IsTree(stk[i], S) && Abs(stk[i], S) == trees[i] && stk[i].parent == null &&
      Linked(stk[i], S) && Unshared(stk[i], S)) &&
    (forall i, j :: 0 <= i < j < |stk| ==> Reach(stk[i], S) !! Reach(stk[j], S))
  }

  /**
   * createAST: reads the postfix tokens onto a stack of nodes and returns
   * the node on top. The tree it returns has the value the token reading
   * on values gives, its parent links agree with its children, no node is
   * shared and it has no parent; an operator short of operands, or an
   * empty stack at the end, throws EmptyStackException.
   */
  method CreateAST(revPol: seq<string>, variables: string) returns (r: Result<Node>, ghost S: set<Node>)
    ensures Build(revPol, variables).Err? <==> r.Err?
    ensures r.Err? ==> r.failure == Build(revPol, variables).failure
    ensures r.Ok? ==> IsTree(r.value, S) && Abs(r.value, S) == Build(revPol, variables).value
    ensures r.Ok? ==> r.value.parent == null && Linked(r.value, S) && Unshared(r.value, S)
  {
    var stk: seq<Node> := [];
    S := {};
    ghost var trees: seq<Tree> := [];
    var k := 0;
    while k < |revPol|
      invariant 0 <= k <= |revPol|
      invariant fresh(S)
      invariant Stacked(stk, S, trees)
      invariant BuildFrom(revPol, [], variables) == BuildFrom(revPol[k..], trees, variables)
    {
      var tkn := revPol[k];
      BuildStep(revPol[k..], trees, variables);
      assert revPol[k..][1..] == revPol[k + 1..];
      var ok;
      ok, stk, S, trees := ReadToken(stk, tkn, variables, S, trees);
      if !ok {
        return Err(EmptyStack), S;
      }
      k := k + 1;
    }
    if |stk| == 0 {
      return Err(EmptyStack), S;
    }
    r := Ok(stk[|stk| - 1]);
  }

  /**
   * One token of the loop: an operand is pushed, an operator replaces the
   * two trees on top of the stack, or, short of operands, the reading
   * stops with EmptyStackException.
   */
  method ReadToken(stk: seq<Node>, tkn: string, variables: string, ghost S: set<Node>, ghost trees: seq<Tree>)
    returns (ok: bool, stk': seq<Node>, ghost S': set<Node>, ghost trees': seq<Tree>)
    requires Stacked(stk, S, trees)
    modifies set n | n in stk
    ensures ok <==> Push(trees, tkn, variables).Ok?
    ensures !ok ==> Push(trees, tkn, variables).failure == EmptyStack && S' == S
    ensures ok ==> trees' == Push(trees, tkn, variables).value
    ensures S <= S' && fresh(S' - S) && (ok ==> Stacked(stk', S', trees'))
  {
    if Lexer.GetPrec(tkn) == -1 {
      ok := true;
      stk', S' := PushOperand(stk, tkn, variables, S, trees);
      trees' := trees + [Operand(tkn, variables)];
    } else if |stk| < 2 {
      ok, stk', S', trees' := false, stk, S, trees;
    } else {
      ok := true;
      stk', S' := PushOperator(stk, tkn, S, trees);
      trees' := trees[..|trees| - 2] + [Op(Datum(Operator, tkn), trees[|trees| - 1], trees[|trees| - 2])];
    }
  }

  /** An operand: a new variable or constant node pushed on the stack. */
  method PushOperand(stk: seq<Node>, tkn: string, variables: string, ghost S: set<Node>, ghost trees: seq<Tree>)
    returns (stk': seq<Node>, ghost S': set<Node>)
    requires Lexer.GetPrec(tkn) == -1 && Stacked(stk, S, trees)
    ensures S <= S' && fresh(S' - S)
    ensures Stacked(stk', S', Push(trees, tkn, variables).value)
  {
    var num: Node;
    if IndexOf(variables, tkn) >= 0 {
      num := new Node(Datum(Variable, tkn));
    } else {
      num := new Node(Datum(Const, tkn));
    }
    S' := S + {num};
    stk' := stk + [num];
    PushedLeaf(stk, num, S, trees);
  }

  /** A fresh leaf pushed on a stack of separate trees leaves the trees separate. */
  lemma PushedLeaf(stk: seq<Node>, num: Node, S: set<Node>, trees: seq<Tree>)
    requires Stacked(stk, S, trees) && num !in S && num.children == [] && num.parent == null
    ensures Stacked(stk + [num], S + {num}, trees + [Leaf(num.data)])
  {
    ghost var S' := S + {num};
    ghost var stk' := stk + [num];
    Adopt(num, S);
    forall i | 0 <= i < |stk|
      ensures IsTree(stk[i], S') && Abs(stk[i], S') == trees[i] && Reach(stk[i], S') == Reach(stk[i], S)
      ensures Linked(stk[i], S') && Unshared(stk[i], S')
    {
      Grow(stk[i], S, S');
      GrowKept(stk[i], S, S');
    }
    assert Reach(num, S') == {num};
    assert stk'[|stk|] == num;
  }

  /**
   * An operator: a new node gets the popped top of the stack as child 0 and
   * the next one as child 1, with their parent links set, and is pushed.
   */
  method PushOperator(stk: seq<Node>, tkn: string, ghost S: set<Node>, ghost trees: seq<Tree>)
    returns (stk': seq<Node>, ghost S': set<Node>)
    requires Lexer.GetPrec(tkn) != -1 && Stacked(stk, S, trees) && |stk| >= 2
    modifies {stk[|stk| - 1], stk[|stk| - 2]}`parent
    ensures S <= S' && fresh(S' - S)
    ensures Stacked(stk', S', trees[..|trees| - 2] + [Op(Datum(Operator, tkn), trees[|trees| - 1], trees[|trees| - 2])])
  {
    var op := Join(stk, tkn, S, trees);
    S' := S + {op};
    stk' := stk[..|stk| - 2] + [op];
    Pushed(stk, op, S, trees, tkn);
  }

  /**
   * The stack while an operator is read: as `Stacked`, except that the two
   * trees on top have been given a parent.
   */
  ghost predicate Joined(stk: seq<Node>, S: set<Node>, trees: seq<Tree>)
    reads S`children, S`data, S`parent
  {
    |stk| == |trees| &&
    (forall i :: 0 <= i < |stk| ==>
      IsTree(stk[i], S) && Abs(stk[i], S) == trees[i] &&
      Linked(stk[i], S) && Unshared(stk[i], S) && (i < |stk| - 2 ==> stk[i].parent == null)) &&
    (forall i, j :: 0 <= i < j < |stk| ==> Reach(stk[i], S) !! Reach(stk[j], S))
  }

  /** The new operator node, over the two trees on top of the stack. */
  method Join(stk: seq<Node>, tkn: string, ghost S: set<Node>, ghost trees: seq<Tree>) returns (op: Node)
    requires Stacked(stk, S, trees) && |stk| >= 2
    modifies {stk[|stk| - 1], stk[|stk| - 2]}`parent
    ensures fresh(op) && op.data == Datum(Operator, tkn) && op.parent == null
    ensures op.children == [stk[|stk| - 1], stk[|stk| - 2]]
    ensures stk[|stk| - 1].parent == op && stk[|stk| - 2].parent == op
    ensures Joined(stk, S, trees)
  {
    var n := |stk|;
    RootsApart(stk, S, trees);
    op := new Node(Datum(Operator, tkn));
    Attach(op, stk[n - 1], stk[n - 2]);
    forall i | 0 <= i < n
      ensures IsTree(stk[i], S) && Abs(stk[i], S) == trees[i] && Reach(stk[i], S) == old(Reach(stk[i], S))
      ensures Linked(stk[i], S) && Unshared(stk[i], S)
      ensures i < n - 2 ==> stk[i].parent == null
    {
      assert old(IsTree(stk[i], S) && Linked(stk[i], S));
      assert old(stk[n - 1] !in Reach(stk[i], S) - {stk[i]} && stk[n - 2] !in Reach(stk[i], S) - {stk[i]});
    }
  }

  /** No root of the stack lies inside another tree of the stack. */
  lemma RootsApart(stk: seq<Node>, S: set<Node>, trees: seq<Tree>)
    requires Stacked(stk, S, trees)
    ensures forall i, j :: 0 <= i < |stk| && 0 <= j < |stk| && j != i ==> stk[j] !in Reach(stk[i], S)
  {
    forall i, j | 0 <= i < |stk| && 0 <= j < |stk| && j != i
      ensures stk[j] !in Reach(stk[i], S)
    {
      assert stk[j] in Reach(stk[j], S);
      if j < i {
        assert Reach(stk[j], S) !! Reach(stk[i], S);
      } else {
        assert Reach(stk[i], S) !! Reach(stk[j], S);
      }
    }
  }

  /** The stack after an operator: the rest of the stack, and the new node over the two popped trees. */
  lemma Pushed(stk: seq<Node>, op: Node, S: set<Node>, trees: seq<Tree>, tkn: string)
    requires |stk| >= 2 && op !in S && Joined(stk, S, trees)
    requires op.children == [stk[|stk| - 1], stk[|stk| - 2]] && op.parent == null
    requires stk[|stk| - 1].parent == op && stk[|stk| - 2].parent == op
    requires op.data == Datum(Operator, tkn)
    ensures Stacked(stk[..|stk| - 2] + [op], S + {op}, trees[..|trees| - 2] + [Op(Datum(Operator, tkn), trees[|trees| - 1], trees[|trees| - 2])])
  {
    var S' := S + {op};
    var n := |stk| - 2;
    var rest, x, y := stk[..n], stk[n + 1], stk[n];
    assert S' - {op} == S;
    assert Reach(y, S) !! Reach(x, S);
    JoinAbs(op, x, y, S);
    assert Reach(op, S') == {op} + Reach(x, S) + Reach(y, S);
    forall i | 0 <= i < n
      ensures IsTree(rest[i], S') && Abs(rest[i], S') == trees[i] && Reach(rest[i], S') == Reach(rest[i], S)
      ensures Linked(rest[i], S') && Unshared(rest[i], S') && rest[i].parent == null
      ensures Reach(rest[i], S) !! Reach(x, S) && Reach(rest[i], S) !! Reach(y, S)
    {
      assert rest[i] == stk[i];
      Grow(rest[i], S, S');
      GrowKept(rest[i], S, S');
    }
    var top := Op(Datum(Operator, tkn), trees[n + 1], trees[n]);
    assert IsTree(op, S') && Abs(op, S') == top && Linked(op, S') && Unshared(op, S');
    var stk', trees' := rest + [op], trees[..n] + [top];
    forall i | 0 <= i < |stk'|
      ensures IsTree(stk'[i], S') && Abs(stk'[i], S') == trees'[i] && stk'[i].parent == null
      ensures Linked(stk'[i], S') && Unshared(stk'[i], S')
    {
      if i < n {
        assert stk'[i] == rest[i] && trees'[i] == trees[i];
      }
    }
    forall i, j | 0 <= i < j < |stk'|
      ensures Reach(stk'[i], S') !! Reach(stk'[j], S')
    {
      assert stk'[i] == stk[i] && rest[i] == stk[i];
      if j < n {
        assert stk'[j] == stk[j] && rest[j] == stk[j];
      }
    }
  }

  /** The inner loop of createAST for one operator: each popped node is added as a child and given `op` as its parent. */
  method Attach(op: Node, x: Node, y: Node)
    requires op != x && op != y
    modifies op`children, x`parent, y`parent
    ensures op.children == old(op.children) + [x, y] && x.parent == op && y.parent == op
  {
    var child := op.AddChild(x);
    x.SetParent(op);
    child := op.AddChild(y);
    y.SetParent(op);
  }
}
