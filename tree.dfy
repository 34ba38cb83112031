/**
 * The value of an abstract syntax tree: what a Node and everything below it
 * hold, read off the heap. A node has no children or exactly two; the
 * children are kept in the order createAST adds them, so `c0` is the RIGHT
 * operand (the first one popped) and `c1` the LEFT one.
 */
module Trees {
  import opened Results
  import opened Exprs
  import Lexer

  datatype Tree = Leaf(d: Datum) | Op(d: Datum, c0: Tree, c1: Tree)
  {
    function Text(): string { d.text }
  }

  /** An OperatorExpr node with the given symbol and children. */
  function OpNode(s: string, c0: Tree, c1: Tree): Tree { Op(Datum(Operator, s), c0, c1) }

  /**
   * The shape every tree the core builds has: operands are constants or
   * variables with a non-empty text that is not a symbol, and inner nodes are
   * OperatorExprs holding a symbol.
   */
  predicate WellFormed(t: Tree)
  {
    match t
    case Leaf(d) => d.kind != Operator && |d.text| > 0 && Lexer.GetPrec(d.text) == -1
    case Op(d, c0, c1) =>
      d.kind == Operator && Lexer.GetPrec(d.text) != -1 && WellFormed(c0) && WellFormed(c1)
  }

  /** A tree with the subclass tags forgotten: what Node.isSame compares. */
  datatype Shape = SLeaf(text: string) | SOp(text: string, s0: Shape, s1: Shape)

  function Size(t: Tree): nat
  {
    match t
    case Leaf(_) => 1
    case Op(_, c0, c1) => 1 + Size(c0) + Size(c1)
  }

  function Erase(t: Tree): Shape
  {
    match t
    case Leaf(d) => SLeaf(d.text)
    case Op(d, c0, c1) => SOp(d.text, Erase(c0), Erase(c1))
  }

  /**
   * Node.isSame, called on `self` with argument `node`: equal texts, then both
   * leaves, or the children compared pairwise (node's child first). A leaf
   * compared with an inner node of the same text fails on getChild(0).
   */
  function IsSame(self: Tree, node: Tree): (r: Result<bool>)
    ensures r == Ok(true) ==> Erase(self) == Erase(node)
    decreases Size(self) + Size(node)
  {
    if node.Text() != self.Text() then Ok(false)
    else if self.Leaf? && node.Leaf? then Ok(true)
    else if self.Leaf? || node.Leaf? then Err(IndexOutOfBounds)
    else
      match IsSame(node.c0, self.c0)
      case Err(f) => Err(f)
      case Ok(false) => Ok(false)
      case Ok(true) => IsSame(node.c1, self.c1)
  }

  /** On well-formed trees isSame never throws and decides equality up to the subclass tags. */
  lemma {:induction false} IsSameDecides(a: Tree, b: Tree)
    requires WellFormed(a) && WellFormed(b)
    ensures IsSame(a, b) == Ok(Erase(a) == Erase(b))
    decreases Size(a) + Size(b)
  {
    if a.Text() == b.Text() && a.Op? && b.Op? {
      IsSameDecides(b.c0, a.c0);
      IsSameDecides(b.c1, a.c1);
    }
  }

  /**
   * The index loop of Node.getOtherChild over the parent's children: the
   * first child isSame reports equal to `t`, -1 when there is none, or the
   * exception isSame threw on the way.
   */
  function FirstSame(kids: seq<Tree>, t: Tree): (r: Result<int>)
    ensures r.Ok? ==> -1 <= r.value < |kids|
    ensures r.Ok? ==> forall j :: 0 <= j < |kids| && (r.value == -1 || j < r.value) ==> IsSame(kids[j], t) == Ok(false)
    ensures r.Ok? && r.value >= 0 ==> IsSame(kids[r.value], t) == Ok(true)
    ensures r.Err? ==> exists j :: 0 <= j < |kids| && IsSame(kids[j], t).Err?
  {
    if kids == [] then Ok(-1)
    else
      match IsSame(kids[0], t)
      case Err(f) => Err(f)
      case Ok(true) => Ok(0)
      case Ok(false) =>
        match FirstSame(kids[1..], t)
        case Err(f) => Err(f)
        case Ok(k) => if k == -1 then Ok(-1) else Ok(k + 1)
  }

  /** The loop of getOtherChild stops at the first child isSame does not report unequal. */
  lemma {:induction false} FirstSameAt(kids: seq<Tree>, t: Tree, k: int)
    requires 0 <= k <= |kids|
    requires forall j :: 0 <= j < k ==> IsSame(kids[j], t) == Ok(false)
    requires k < |kids| ==> IsSame(kids[k], t) != Ok(false)
    ensures k == |kids| ==> FirstSame(kids, t) == Ok(-1)
    ensures k < |kids| && IsSame(kids[k], t).Err? ==> FirstSame(kids, t) == Err(IsSame(kids[k], t).failure)
    ensures k < |kids| && IsSame(kids[k], t) == Ok(true) ==> FirstSame(kids, t) == Ok(k)
    decreases k
  {
    if k > 0 {
      FirstSameAt(kids[1..], t, k - 1);
    }
  }

  /** The children list of a node, as Node.getChildren returns it. */
  function Kids(t: Tree): (ks: seq<Tree>)
    ensures |ks| == 0 || |ks| == 2
    ensures t.Op? <==> |ks| == 2
  {
    if t.Leaf? then [] else [t.c0, t.c1]
  }

  /**
   * Node.getOtherChild for a node with value `t` under a parent with value
   * `p`: the sibling of the first child equal to `t`, None where the Java
   * returns null, or the exception isSame threw.
   */
  function OtherChild(p: Tree, t: Tree): (r: Result<Option<Tree>>)
    ensures r.Ok? && r.value.Some? ==> p.Op? && (r.value.value == p.c0 || r.value.value == p.c1)
  {
    var ks := Kids(p);
    match FirstSame(ks, t)
    case Err(f) => Err(f)
    case Ok(i) => if i == -1 then Ok(None) else Ok(Some(ks[(i + 1) % 2]))
  }

  /**
   * On well-formed trees getOtherChild does not throw: it returns the sibling
   * of the first child equal to `t`, and null when neither child is.
   */
  lemma OtherChildOfWellFormed(p: Tree, t: Tree)
    requires WellFormed(p) && WellFormed(t)
    ensures OtherChild(p, t).Ok?
    ensures p.Op? && Erase(p.c0) == Erase(t) ==> OtherChild(p, t) == Ok(Some(p.c1))
    ensures p.Op? && Erase(p.c0) != Erase(t) && Erase(p.c1) == Erase(t) ==> OtherChild(p, t) == Ok(Some(p.c0))
    ensures OtherChild(p, t) == Ok(None) <==> p.Leaf? || (Erase(p.c0) != Erase(t) && Erase(p.c1) != Erase(t))
  {
    if p.Op? {
      IsSameDecides(p.c0, t);
      IsSameDecides(p.c1, t);
      FirstSamePair(p.c0, p.c1, t);
      var ks := Kids(p);
      assert ks == [p.c0, p.c1];
      if Erase(p.c0) == Erase(t) {
        assert (0 + 1) % 2 == 1 && ks[1] == p.c1;
      } else if Erase(p.c1) == Erase(t) {
        assert (1 + 1) % 2 == 0 && ks[0] == p.c0;
      }
    }
  }

  /** The loop of getOtherChild over two children that isSame compares without throwing. */
  lemma FirstSamePair(a: Tree, b: Tree, t: Tree)
    requires IsSame(a, t).Ok? && IsSame(b, t).Ok?
    ensures FirstSame([a, b], t) ==
      if IsSame(a, t).value then Ok(0) else if IsSame(b, t).value then Ok(1) else Ok(-1)
  {
    assert [a, b][1..] == [b] && [b][1..] == [];
  }
}
