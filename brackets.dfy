/**
 * Reading printed text back. toInfix omits the brackets around an operator
 * node whenever needParens says so; infToPost and createAST then read the
 * text back into a tree. On trees with two operators, one the child of the
 * other, this module compares the tree with the one read back from its
 * unbracketed text: needParens as written omits brackets in two places
 * where the reading regroups the operands and changes the value, and a
 * corrected rule omits them only where the value is kept.
 */
module Brackets {
  import opened Results
  import opened Strings
  import opened Exprs
  import opened Trees
  import opened Values
  import opened Printer
  import opened Postfix
  import opened Builder
  import Distribution

  /** The words joined with a space after each one, as toInfix spaces its tokens. */
  function Spaced(ws: seq<string>): string
  {
    if ws == [] then "" else ws[0] + " " + Spaced(ws[1..])
  }

  lemma Spaced5(a: string, b: string, c: string, d: string, e: string)
    ensures Spaced([a, b, c, d, e]) == a + " " + (b + " " + (c + " " + (d + " " + (e + " "))))
  {
    assert [a, b, c, d, e][1..] == [b, c, d, e] && [b, c, d, e][1..] == [c, d, e];
    assert [c, d, e][1..] == [d, e] && [d, e][1..] == [e] && [e][1..] == [];
    assert Spaced([e]) == e + " " by {
      assert Spaced([e]) == e + " " + "";
    }
    assert Spaced([d, e]) == d + " " + (e + " ");
    assert Spaced([c, d, e]) == c + " " + (d + " " + (e + " "));
    assert Spaced([b, c, d, e]) == b + " " + (c + " " + (d + " " + (e + " ")));
  }

  /** A token infToPost keeps whole: not empty and free of whitespace. */
  predicate Word(w: string)
  {
    w != "" && forall i :: 0 <= i < |w| ==> w[i] !in Whitespace
  }

  lemma {:induction false} PiecesOfWord(w: string, rest: string)
    requires Word(w)
    ensures Pieces(w + " " + rest, Whitespace) == [w] + Pieces(rest, Whitespace)
    decreases |w|
  {
    var s := w + " " + rest;
    assert s[0] == w[0] && s[0] !in Whitespace;
    if |w| == 1 {
      assert s[1..] == " " + rest;
      var r := Pieces(" " + rest, Whitespace);
      assert r == [""] + Pieces(rest, Whitespace) by {
        assert (" " + rest)[1..] == rest;
      }
      assert r[0] == "" && r[1..] == Pieces(rest, Whitespace);
      assert [w[0]] + r[0] == w;
    } else {
      assert s[1..] == w[1..] + " " + rest;
      PiecesOfWord(w[1..], rest);
      assert [w[0]] + w[1..] == w;
    }
  }

  lemma {:induction false} PiecesSpaced(ws: seq<string>)
    requires forall i :: 0 <= i < |ws| ==> Word(ws[i])
    ensures Pieces(Spaced(ws), Whitespace) == ws + [""]
    decreases |ws|
  {
    if ws != [] {
      PiecesSpaced(ws[1..]);
      PiecesOfWord(ws[0], Spaced(ws[1..]));
      assert ws == [ws[0]] + ws[1..];
    }
  }

  /** Splitting spaced words on whitespace gives the words back. */
  lemma TokensSpaced(ws: seq<string>)
    requires ws != [] && forall i :: 0 <= i < |ws| ==> Word(ws[i])
    ensures Tokens(Spaced(ws)) == ws
  {
    PiecesSpaced(ws);
    assert Spaced(ws) != [] by {
      assert Spaced(ws) == ws[0] + " " + Spaced(ws[1..]);
    }
    assert (ws + [""])[..|ws|] == ws;
  }

  /** infToPost followed by createAST: the tree read back from printed text. */
  function ReadBack(s: string, vars: string): Result<Tree>
  {
    match Convert(Tokens(s))
    case Err(f) => Err(f)
    case Ok(post) => Build(post, vars)
  }

  /**
   * The operator `d` applied to two operands, as the left (last) or the
   * right operand of `p`, whose other operand is a third leaf.
   */
  function Nested(p: string, d: string, x: Tree, y: Tree, z: Tree, left: bool): Tree
  {
    if left then OpNode(p, z, OpNode(d, y, x)) else OpNode(p, OpNode(d, z, y), x)
  }

  /** Its tokens in reading order when no brackets are printed. */
  function Bare(p: string, d: string, x: Tree, y: Tree, z: Tree, left: bool): seq<string>
  {
    if left then [x.Text(), d, y.Text(), p, z.Text()] else [x.Text(), p, y.Text(), d, z.Text()]
  }

  /** An operand of the kind createAST builds from a plain token that prints as itself. */
  predicate Leafy(t: Tree, vars: string)
  {
    t == Builder.Operand(t.Text(), vars) && IsOperand(t.Text()) && Word(t.Text()) &&
    t.Text() !in Ones && t.Text() !in Zeros && t.Text()[0] != '-'
  }

  lemma LeafyLeaf(x: Tree, vars: string)
    requires Leafy(x, vars)
    ensures x.Leaf? && x.d.text == x.Text() && Plain(x) && WellFormed(x) && Classified(x, vars)
    ensures PostOrder(x) == [x.Text()]
  {
  }

  /** The tree infToPost and createAST read back from the unbracketed text. */
  function Regrouped(p: string, d: string, x: Tree, y: Tree, z: Tree, left: bool): Tree
  {
    if left then
      if AppliedFirst(d, p) then OpNode(p, z, OpNode(d, y, x)) else OpNode(d, OpNode(p, z, y), x)
    else
      if AppliedFirst(p, d) then OpNode(d, z, OpNode(p, y, x)) else OpNode(p, OpNode(d, z, y), x)
  }

  /** With no brackets, toInfix prints the bare tokens, spaced. */
  lemma PrintsBare(p: string, d: string, x: Tree, y: Tree, z: Tree, vars: string, left: bool)
    requires p in OperatorSymbols && d in OperatorSymbols
    requires Leafy(x, vars) && Leafy(y, vars) && Leafy(z, vars)
    requires !NeedParens(Datum(Operator, d), Under(Datum(Operator, p), left))
    ensures Infix("", Nested(p, d, x, y, z, left), Root) == Ok(Spaced(Bare(p, d, x, y, z, left)))
  {
    var t := Nested(p, d, x, y, z, left);
    LeafyLeaf(x, vars);
    LeafyLeaf(y, vars);
    LeafyLeaf(z, vars);
    assert Plain(t);
    PlainInfix("", t, Root);
    assert "" + Words(t, Root) == Words(t, Root);
    var ws := Bare(p, d, x, y, z, left);
    Spaced5(ws[0], ws[1], ws[2], ws[3], ws[4]);
    assert ws == [ws[0], ws[1], ws[2], ws[3], ws[4]];
    if left {
      WordsLeft(p, d, x, y, z);
    } else {
      WordsRight(p, d, x, y, z);
    }
  }

  lemma WordsLeft(p: string, d: string, x: Tree, y: Tree, z: Tree)
    requires x.Leaf? && y.Leaf? && z.Leaf?
    requires !NeedParens(Datum(Operator, d), Under(Datum(Operator, p), true))
    ensures Words(Nested(p, d, x, y, z, true), Root) ==
      x.Text() + " " + (d + " " + (y.Text() + " " + (p + " " + (z.Text() + " "))))
  {
    var xs, ys, zs := x.Text() + " ", y.Text() + " ", z.Text() + " ";
    var w := xs + d + " " + ys;
    assert Words(OpNode(d, y, x), Under(Datum(Operator, p), true)) == w;
    assert Words(Nested(p, d, x, y, z, true), Root) == w + p + " " + zs;
    assert w + p + " " + zs == x.Text() + " " + (d + " " + (y.Text() + " " + (p + " " + zs)));
  }

  lemma WordsRight(p: string, d: string, x: Tree, y: Tree, z: Tree)
    requires x.Leaf? && y.Leaf? && z.Leaf?
    requires !NeedParens(Datum(Operator, d), Under(Datum(Operator, p), false))
    ensures Words(Nested(p, d, x, y, z, false), Root) ==
      x.Text() + " " + (p + " " + (y.Text() + " " + (d + " " + (z.Text() + " "))))
  {
    var xs, ys, zs := x.Text() + " ", y.Text() + " ", z.Text() + " ";
    var w := ys + d + " " + zs;
    assert Words(OpNode(d, z, y), Under(Datum(Operator, p), false)) == w;
    assert Words(Nested(p, d, x, y, z, false), Root) == xs + p + " " + w;
    assert w == y.Text() + " " + (d + " " + zs);
    assert xs + p + " " + w == x.Text() + " " + (p + " " + w);
  }

  /** Reading the bare text back regroups exactly as the shunting-yard precedence rules say. */
  lemma ReadsBare(p: string, d: string, x: Tree, y: Tree, z: Tree, vars: string, left: bool)
    requires p in OperatorSymbols && d in OperatorSymbols
    requires Leafy(x, vars) && Leafy(y, vars) && Leafy(z, vars)
    ensures ReadBack(Spaced(Bare(p, d, x, y, z, left)), vars) == Ok(Regrouped(p, d, x, y, z, left))
  {
    var ws := Bare(p, d, x, y, z, left);
    BareWords(p, d, x, y, z, vars, left);
    TokensSpaced(ws);
    var r := Regrouped(p, d, x, y, z, left);
    RegroupedBuilt(p, d, x, y, z, vars, left);
    BuildPostOrder(r, vars);
    if left {
      PostfixLeft(p, d, x, y, z, vars);
    } else {
      PostfixRight(p, d, x, y, z, vars);
    }
  }

  lemma BareWords(p: string, d: string, x: Tree, y: Tree, z: Tree, vars: string, left: bool)
    requires p in OperatorSymbols && d in OperatorSymbols
    requires Leafy(x, vars) && Leafy(y, vars) && Leafy(z, vars)
    ensures var ws := Bare(p, d, x, y, z, left); ws != [] && forall i :: 0 <= i < |ws| ==> Word(ws[i])
  {
    var ws := Bare(p, d, x, y, z, left);
    assert Word(p) && Word(d);
    assert forall i :: 0 <= i < |ws| ==> ws[i] in {x.Text(), y.Text(), z.Text(), p, d};
  }

  lemma RegroupedBuilt(p: string, d: string, x: Tree, y: Tree, z: Tree, vars: string, left: bool)
    requires p in OperatorSymbols && d in OperatorSymbols
    requires Leafy(x, vars) && Leafy(y, vars) && Leafy(z, vars)
    ensures WellFormed(Regrouped(p, d, x, y, z, left)) && Classified(Regrouped(p, d, x, y, z, left), vars)
  {
    LeafyLeaf(x, vars);
    LeafyLeaf(y, vars);
    LeafyLeaf(z, vars);
    assert Lexer.GetPrec(p) != -1 && Lexer.GetPrec(d) != -1;
  }

  lemma PostfixLeft(p: string, d: string, x: Tree, y: Tree, z: Tree, vars: string)
    requires p in OperatorSymbols && d in OperatorSymbols
    requires Leafy(x, vars) && Leafy(y, vars) && Leafy(z, vars)
    ensures Convert(Bare(p, d, x, y, z, true)) == Ok(PostOrder(Regrouped(p, d, x, y, z, true)))
  {
    LeafyLeaf(x, vars);
    LeafyLeaf(y, vars);
    LeafyLeaf(z, vars);
    var xs, ys, zs := x.Text(), y.Text(), z.Text();
    ConvertTwoOperators(xs, d, ys, p, zs);
    if AppliedFirst(d, p) {
      assert PostOrder(OpNode(p, z, OpNode(d, y, x))) == [xs] + [ys] + [d] + [zs] + [p] == [xs, ys, d, zs, p];
    } else {
      assert PostOrder(OpNode(d, OpNode(p, z, y), x)) == [xs] + ([ys] + [zs] + [p]) + [d] == [xs, ys, zs, p, d];
    }
  }

  lemma PostfixRight(p: string, d: string, x: Tree, y: Tree, z: Tree, vars: string)
    requires p in OperatorSymbols && d in OperatorSymbols
    requires Leafy(x, vars) && Leafy(y, vars) && Leafy(z, vars)
    ensures Convert(Bare(p, d, x, y, z, false)) == Ok(PostOrder(Regrouped(p, d, x, y, z, false)))
  {
    LeafyLeaf(x, vars);
    LeafyLeaf(y, vars);
    LeafyLeaf(z, vars);
    var xs, ys, zs := x.Text(), y.Text(), z.Text();
    ConvertTwoOperators(xs, p, ys, d, zs);
    if AppliedFirst(p, d) {
      assert PostOrder(OpNode(d, z, OpNode(p, y, x))) == [xs] + [ys] + [p] + [zs] + [d] == [xs, ys, p, zs, d];
    } else {
      assert PostOrder(OpNode(p, OpNode(d, z, y), x)) == [xs] + ([ys] + [zs] + [d]) + [p] == [xs, ys, zs, d, p];
    }
  }

  // ---------------------------------------------------------------------
  // needParens as written

  /** A variable leaf, as createAST builds it for a name in the variables string. */
  function Var(s: string): Tree
  {
    Leaf(Datum(Variable, s))
  }

  /** A one-letter name is a plain operand token. */
  lemma LetterToken(s: string)
    requires |s| == 1 && 'a' <= s[0] <= 'z'
    ensures IsOperand(s) && Word(s) && s !in Ones && s !in Zeros && s[0] != '-'
  {
    assert forall w :: w in Lexer.Symbols ==> |w| == 1 && !('a' <= w[0] <= 'z');
    assert forall w :: w in Ones + Zeros ==> |w| != 1 || w[0] == '1' || w[0] == '0';
  }

  lemma AbcLeafy()
    ensures Leafy(Var("a"), "abc") && Leafy(Var("b"), "abc") && Leafy(Var("c"), "abc")
  {
    assert IndexOf("abc", "a") == 0 && IndexOf("abc", "b") == 1 && IndexOf("abc", "c") == 2 by {
      assert "abc"[..1] == "a" && "abc"[1..] == "bc" && "bc"[..1] == "b" && "bc"[1..] == "c";
    }
    LetterToken("a");
    LetterToken("b");
    LetterToken("c");
  }

  lemma ApplyPower(l: real, n: nat)
    ensures Apply("^", l, n as real) == Some(Pow(l, n))
  {
    assert "^" != "+" && "^" != "-" && "^" != "*" && "^" != "/";
    assert (n as real).Floor == n;
  }

  /** The text of a b c with two operators between them. */
  lemma SpacedText(o1: char, o2: char)
    ensures Spaced(["a", [o1], "b", [o2], "c"]) == ['a', ' ', o1, ' ', 'b', ' ', o2, ' ', 'c', ' ']
  {
    Spaced5("a", [o1], "b", [o2], "c");
  }

  /** The values of the variables used below: a is 1, b and c are 2. */
  function Halves(s: string): real
  {
    if s == "a" then 1.0 else 2.0
  }

  /** The values of the variables used below: a is 2, b is 3, c is 2. */
  function Powers(s: string): real
  {
    if s == "b" then 3.0 else 2.0
  }

  /** a / (b * c) prints as "a / b * c ", with no brackets. */
  lemma QuotientPrints()
    ensures !NeedParens(Datum(Operator, "*"), Under(Datum(Operator, "/"), false))
    ensures Infix("", Nested("/", "*", Var("a"), Var("b"), Var("c"), false), Root) == Ok("a / b * c ")
  {
    AbcLeafy();
    PrintsBare("/", "*", Var("a"), Var("b"), Var("c"), "abc", false);
    assert Bare("/", "*", Var("a"), Var("b"), Var("c"), false) == ["a", "/", "b", "*", "c"];
    SpacedText('/', '*');
  }

  /** "a / b * c " reads back as (a / b) * c. */
  lemma QuotientReads()
    ensures ReadBack("a / b * c ", "abc") == Ok(OpNode("*", Var("c"), OpNode("/", Var("b"), Var("a"))))
  {
    AbcLeafy();
    ReadsBare("/", "*", Var("a"), Var("b"), Var("c"), "abc", false);
    assert Bare("/", "*", Var("a"), Var("b"), Var("c"), false) == ["a", "/", "b", "*", "c"];
    SpacedText('/', '*');
    assert AppliedFirst("/", "*");
  }

  lemma QuotientValues()
    ensures Eval(Nested("/", "*", Var("a"), Var("b"), Var("c"), false), Halves) == Some(0.25)
    ensures Eval(OpNode("*", Var("c"), OpNode("/", Var("b"), Var("a"))), Halves) == Some(1.0)
  {
    assert Halves("b") == 2.0 && Halves("c") == 2.0;
    ApplyProduct(2.0, 2.0);
    ApplyQuotient(1.0, 4.0);
    ApplyQuotient(1.0, 2.0);
    ApplyProduct(0.5, 2.0);
  }

  /**
   * a / (b * c) is printed without brackets and read back as (a / b) * c:
   * with a = 1 and b = c = 2 the value 0.25 becomes 1.
   */
  lemma QuotientRegroups()
    ensures !NeedParens(Datum(Operator, "*"), Under(Datum(Operator, "/"), false))
    ensures Infix("", Nested("/", "*", Var("a"), Var("b"), Var("c"), false), Root) == Ok("a / b * c ")
    ensures ReadBack("a / b * c ", "abc") == Ok(OpNode("*", Var("c"), OpNode("/", Var("b"), Var("a"))))
    ensures Eval(Nested("/", "*", Var("a"), Var("b"), Var("c"), false), Halves) == Some(0.25)
    ensures Eval(OpNode("*", Var("c"), OpNode("/", Var("b"), Var("a"))), Halves) == Some(1.0)
  {
    QuotientPrints();
    QuotientReads();
    QuotientValues();
  }

  /** (a ^ b) ^ c prints as "a ^ b ^ c ", with no brackets. */
  lemma PowerPrints()
    ensures !NeedParens(Datum(Operator, "^"), Under(Datum(Operator, "^"), true))
    ensures Infix("", Nested("^", "^", Var("a"), Var("b"), Var("c"), true), Root) == Ok("a ^ b ^ c ")
  {
    AbcLeafy();
    PrintsBare("^", "^", Var("a"), Var("b"), Var("c"), "abc", true);
    assert Bare("^", "^", Var("a"), Var("b"), Var("c"), true) == ["a", "^", "b", "^", "c"];
    SpacedText('^', '^');
  }

  /** "a ^ b ^ c " reads back as a ^ (b ^ c). */
  lemma PowerReads()
    ensures ReadBack("a ^ b ^ c ", "abc") == Ok(OpNode("^", OpNode("^", Var("c"), Var("b")), Var("a")))
  {
    AbcLeafy();
    ReadsBare("^", "^", Var("a"), Var("b"), Var("c"), "abc", true);
    assert Bare("^", "^", Var("a"), Var("b"), Var("c"), true) == ["a", "^", "b", "^", "c"];
    SpacedText('^', '^');
    assert !AppliedFirst("^", "^");
  }

  lemma PowerValues()
    ensures Eval(Nested("^", "^", Var("a"), Var("b"), Var("c"), true), Powers) == Some(64.0)
    ensures Eval(OpNode("^", OpNode("^", Var("c"), Var("b")), Var("a")), Powers) == Some(512.0)
  {
    assert Powers("a") == 2.0 && Powers("b") == 3.0 && Powers("c") == 2.0;
    ApplyPower(2.0, 3);
    ApplyPower(8.0, 2);
    ApplyPower(3.0, 2);
    ApplyPower(2.0, 9);
    assert Pow(2.0, 3) == 8.0 && Pow(8.0, 2) == 64.0;
    assert Pow(3.0, 2) == 9.0 && Pow(2.0, 9) == 512.0;
  }

  /**
   * (a ^ b) ^ c is printed without brackets and read back as a ^ (b ^ c):
   * with a = 2, b = 3 and c = 2 the value 64 becomes 512.
   */
  lemma PowerRegroups()
    ensures !NeedParens(Datum(Operator, "^"), Under(Datum(Operator, "^"), true))
    ensures Infix("", Nested("^", "^", Var("a"), Var("b"), Var("c"), true), Root) == Ok("a ^ b ^ c ")
    ensures ReadBack("a ^ b ^ c ", "abc") == Ok(OpNode("^", OpNode("^", Var("c"), Var("b")), Var("a")))
    ensures Eval(Nested("^", "^", Var("a"), Var("b"), Var("c"), true), Powers) == Some(64.0)
    ensures Eval(OpNode("^", OpNode("^", Var("c"), Var("b")), Var("a")), Powers) == Some(512.0)
  {
    PowerPrints();
    PowerReads();
    PowerValues();
  }

  // ---------------------------------------------------------------------
  // The corrected rule

  /**
   * Brackets when the parent binds tighter, or as tight and reading the
   * operands without brackets would regroup them into a different value: the
   * right operand of "-" or "/", and the left operand of "^".
   */
  function NeedParensFixed(d: Datum, at: Place): (r: bool)
    ensures NeedParens(d, at) ==> r
    ensures r && !NeedParens(d, at) ==> at.Under? && Prec(d.text) == Prec(at.p.text)
    ensures r && !NeedParens(d, at) ==> if at.last then at.p.text == "^" else at.p.text == "/"
  {
    match at
    case Root => false
    case Under(p, last) =>
      if Prec(d.text) > Prec(p.text) then false
      else if Prec(d.text) == Prec(p.text) then
        if last then p.text == "^" else p.text == "-" || p.text == "/"
      else true
  }

  /** The value of a o1 (b o2 c). */
  function RightFirst(o1: string, o2: string, a: real, b: real, c: real): Option<real>
  {
    match Apply(o2, b, c)
    case Some(v) => Apply(o1, a, v)
    case None => None
  }

  /** The value of (a o1 b) o2 c. */
  function LeftFirst(o1: string, o2: string, a: real, b: real, c: real): Option<real>
  {
    match Apply(o1, a, b)
    case Some(v) => Apply(o2, v, c)
    case None => None
  }

  lemma SumAssociates(d: string, a: real, b: real, c: real)
    requires d == "+" || d == "-"
    ensures RightFirst("+", d, a, b, c) == LeftFirst("+", d, a, b, c)
  {
    ApplyRing(d, b, c);
    ApplyRing(d, a + b, c);
  }

  lemma ProductAssociates(a: real, b: real, c: real)
    ensures RightFirst("*", "*", a, b, c) == LeftFirst("*", "*", a, b, c)
  {
    var bc, ab := b * c, a * b;
    ApplyProduct(b, c);
    ApplyProduct(a, bc);
    ApplyProduct(a, b);
    ApplyProduct(ab, c);
    assert a * bc == ab * c;
    assert RightFirst("*", "*", a, b, c) == Some(a * bc);
    assert LeftFirst("*", "*", a, b, c) == Some(ab * c);
  }

  lemma QuotientAssociates(a: real, b: real, c: real)
    ensures RightFirst("*", "/", a, b, c) == LeftFirst("*", "/", a, b, c)
  {
    var ab := a * b;
    ApplyQuotient(b, c);
    ApplyProduct(a, b);
    ApplyQuotient(ab, c);
    if c != 0.0 {
      var q := b / c;
      ApplyProduct(a, q);
      assert a * q == ab / c;
      assert RightFirst("*", "/", a, b, c) == Some(a * q);
      assert LeftFirst("*", "/", a, b, c) == Some(ab / c);
    } else {
      assert RightFirst("*", "/", a, b, c) == None;
      assert LeftFirst("*", "/", a, b, c) == None;
    }
  }

  /** a + (b ± c) == (a + b) ± c, a * (b * c) == (a * b) * c and a * (b / c) == (a * b) / c. */
  lemma Reassociates(p: string, d: string, a: real, b: real, c: real)
    requires (p == "+" && (d == "+" || d == "-")) || (p == "*" && (d == "*" || d == "/"))
    ensures RightFirst(p, d, a, b, c) == LeftFirst(p, d, a, b, c)
  {
    if p == "+" {
      SumAssociates(d, a, b, c);
    } else if d == "*" {
      ProductAssociates(a, b, c);
    } else {
      QuotientAssociates(a, b, c);
    }
  }

  /**
   * Wherever the corrected rule omits the brackets, the text read back has
   * the value of the printed tree, for every value of the variables.
   */
  lemma FixedReadsBack(p: string, d: string, x: Tree, y: Tree, z: Tree, vars: string, left: bool, env: string -> real)
    requires p in OperatorSymbols && d in OperatorSymbols
    requires Leafy(x, vars) && Leafy(y, vars) && Leafy(z, vars)
    requires !NeedParensFixed(Datum(Operator, d), Under(Datum(Operator, p), left))
    ensures ReadBack(Spaced(Bare(p, d, x, y, z, left)), vars).Ok?
    ensures Eval(ReadBack(Spaced(Bare(p, d, x, y, z, left)), vars).value, env) == Eval(Nested(p, d, x, y, z, left), env)
  {
    ReadsBare(p, d, x, y, z, vars, left);
    if !left && AppliedFirst(p, d) {
      var a, b, c := Eval(x, env), Eval(y, env), Eval(z, env);
      if a.Some? && b.Some? && c.Some? {
        Reassociates(p, d, a.value, b.value, c.value);
        assert Eval(Nested(p, d, x, y, z, left), env) == RightFirst(p, d, a.value, b.value, c.value);
      }
    }
  }
}
