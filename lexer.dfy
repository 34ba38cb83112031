/**
 * The lexical layer of jCAS: the operator characters, the precedence table
 * the parser consults, and addSpaces, which turns the user's infix string
 * into space-separated tokens.
 */
module Lexer {
  import opened Results
  import opened Strings
  import Exprs

  /** The seven one-character tokens that getPrec knows. */
  const Symbols: set<string> := {"(", ")", "+", "-", "*", "/", "^"}

  /**
   * jCAS.getPrec: "(" binds loosest when pushed but is never popped by an
   * operator, ")" is 0, and the five operators agree with Expr.getPrec.
   */
  function GetPrec(op: string): (r: int)
    ensures r == -1 <==> op !in Symbols
    ensures r == 100 <==> op == "("
    ensures r == 0 <==> op == ")"
    ensures op in Exprs.OperatorSymbols ==> r == Exprs.Prec(op) && r > 0
  {
    if op == "(" then 100
    else if op == ")" then 0
    else if op == "+" || op == "-" then 2
    else if op == "*" || op == "/" then 3
    else if op == "^" then 4
    else -1
  }

  /** jCAS.isOperator: exactly the characters that are one-character symbols. */
  predicate IsOperator(c: char)
  {
    c == '-' || c == '+' || c == '*' || c == '/' || c == '^' || c == '(' || c == ')'
  }

  lemma IsOperatorIsSymbol(c: char)
    ensures IsOperator(c) <==> GetPrec([c]) != -1
  {
    if !IsOperator(c) {
      assert [c] !in Symbols by {
        assert forall t :: t in Symbols ==> |t| == 1 && IsOperator(t[0]);
      }
    }
  }

  /** An operator at index `j` is followed by one space and preceded by one, unless it is glued to a leading operator. */
  predicate OperatorSpacedAt(r: string, j: int)
    requires 1 <= j < |r|
  {
    IsOperator(r[j]) ==>
      j + 1 < |r| && r[j + 1] == ' ' && (r[j - 1] == ' ' || (j == 1 && IsOperator(r[0])))
  }

  /** A space at index `j` is single and separates an operator from its neighbour. */
  predicate SpaceSeparatesAt(r: string, j: int)
    requires 0 <= j < |r|
  {
    r[j] == ' ' ==>
      0 < j && r[j - 1] != ' ' && (IsOperator(r[j - 1]) || (j + 1 < |r| && IsOperator(r[j + 1])))
  }

  /** After the first character, every operator stands between single spaces. */
  predicate OperatorsSpaced(r: string)
  {
    forall j :: 1 <= j < |r| ==> OperatorSpacedAt(r, j)
  }

  /** Spaces are single and only ever separate an operator from its neighbour. */
  predicate SpacesSeparate(r: string)
  {
    forall j :: 0 <= j < |r| ==> SpaceSeparatesAt(r, j)
  }

  /**
   * The first character: "(" is split off, any other operator stays glued to
   * what follows it, so "-x" and "-(" are single tokens.
   */
  predicate LeadingGlued(r: string)
  {
    |r| > 0 &&
    (r[0] == '(' ==> |r| > 1 && r[1] == ' ') &&
    (|r| > 1 && r[1] == ' ' ==> r[0] == '(' || !IsOperator(r[0]))
  }

  /** Extending the text leaves the spacing of its old characters as it was. */
  lemma SpacingKept(s: string, t: string)
    requires OperatorsSpaced(s) && SpacesSeparate(s) && s <= t
    ensures forall j :: 1 <= j < |s| ==> OperatorSpacedAt(t, j)
    ensures forall j :: 0 <= j < |s| ==> SpaceSeparatesAt(t, j)
  {
    forall j | 1 <= j < |s| ensures OperatorSpacedAt(t, j) {
      assert OperatorSpacedAt(s, j);
      assert t[j] == s[j] && t[j - 1] == s[j - 1] && t[0] == s[0];
      if j + 1 < |s| {
        assert t[j + 1] == s[j + 1];
      }
    }
    forall j | 0 <= j < |s| ensures SpaceSeparatesAt(t, j) {
      assert SpaceSeparatesAt(s, j);
      assert t[j] == s[j];
      if 0 < j {
        assert t[j - 1] == s[j - 1];
      }
      if j + 1 < |s| {
        assert t[j + 1] == s[j + 1];
      }
    }
  }

  /** Appending an operand character keeps the spacing. */
  lemma AppendOperand(s: string, c: char)
    requires OperatorsSpaced(s) && SpacesSeparate(s) && |s| > 0
    requires !IsOperator(c) && c != ' '
    ensures OperatorsSpaced(s + [c]) && SpacesSeparate(s + [c])
  {
    var t := s + [c];
    SpacingKept(s, t);
    assert OperatorSpacedAt(t, |s|) && SpaceSeparatesAt(t, |s|);
  }

  /**
   * Appending an operator and the space after it keeps the spacing when the
   * text so far ends in a space, or is one leading operator character.
   */
  lemma AppendOperator(s: string, c: char)
    requires OperatorsSpaced(s) && SpacesSeparate(s) && |s| > 0
    requires IsOperator(c)
    requires s[|s| - 1] == ' ' || (|s| == 1 && IsOperator(s[0]))
    ensures OperatorsSpaced(s + ([c] + " ")) && SpacesSeparate(s + ([c] + " "))
  {
    var t := s + ([c] + " ");
    SpacingKept(s, t);
    assert OperatorSpacedAt(t, |s|) && SpaceSeparatesAt(t, |s|);
    assert OperatorSpacedAt(t, |s| + 1) && SpaceSeparatesAt(t, |s| + 1);
  }

  /** Appending an operator between two spaces to text that ends in an operand. */
  lemma AppendSeparator(s: string, c: char)
    requires OperatorsSpaced(s) && SpacesSeparate(s) && |s| > 0
    requires IsOperator(c) && !IsOperator(s[|s| - 1]) && s[|s| - 1] != ' '
    ensures OperatorsSpaced(s + (" " + [c] + " ")) && SpacesSeparate(s + (" " + [c] + " "))
  {
    var t := s + (" " + [c] + " ");
    SpacingKept(s, t);
    assert OperatorSpacedAt(t, |s|) && SpaceSeparatesAt(t, |s|);
    assert OperatorSpacedAt(t, |s| + 1) && SpaceSeparatesAt(t, |s| + 1);
    assert OperatorSpacedAt(t, |s| + 2) && SpaceSeparatesAt(t, |s| + 2);
  }

  /** The spacing of what addSpaces has built after reading the first `i` characters of `inf`. */
  predicate SpacedShape(inf: string, i: int, s: string)
  {
    1 <= i <= |inf| &&
    |s| > 0 && s[0] == inf[0] &&
    OperatorsSpaced(s) && SpacesSeparate(s) &&
    (inf[0] == '(' ==> |s| > 1 && s[1] == ' ') &&
    (|s| > 1 && s[1] == ' ' ==> inf[0] == '(' || !IsOperator(inf[0])) &&
    (i == 1 && inf[0] != '(' ==> |s| == 1) &&
    (!IsOperator(inf[i - 1]) ==> s[|s| - 1] == inf[i - 1]) &&
    (IsOperator(inf[i - 1]) && (i > 1 || inf[0] == '(') ==> s[|s| - 1] == ' ')
  }

  /** The loop invariant of addSpaces: the characters read so far, spaced. */
  ghost predicate SpacedPrefix(inf: string, i: int, s: string)
  {
    1 <= i <= |inf| && ' ' !in inf && Strip(s) == inf[..i] && SpacedShape(inf, i, s)
  }

  lemma StripSingle(c: char)
    ensures Strip([c]) == if c == ' ' then [] else [c]
  {
    assert [c][1..] == [];
  }

  lemma SpacedStart(inf: string, s: string)
    requires |inf| > 0 && ' ' !in inf
    requires s == if inf[0] == '(' then [inf[0]] + " " else [inf[0]]
    ensures SpacedPrefix(inf, 1, s)
  {
    StripSingle(inf[0]);
    StripConcat([inf[0]], " ");
    assert inf[..1] == [inf[0]];
    assert SpaceSeparatesAt(s, 0);
    if |s| == 2 {
      assert OperatorSpacedAt(s, 1) && SpaceSeparatesAt(s, 1);
    }
  }

  /** Appending `tail`, whose only non-space character is the next input character, keeps the characters read. */
  lemma StripStep(inf: string, i: int, s: string, tail: string)
    requires 1 <= i < |inf| && Strip(s) == inf[..i]
    requires tail == [inf[i]] || tail == [inf[i]] + " " || tail == " " + [inf[i]] + " "
    requires inf[i] != ' '
    ensures Strip(s + tail) == inf[..i + 1]
  {
    var c := inf[i];
    assert Strip(tail) == [c] by {
      StripSingle(c);
      StripSingle(' ');
      if tail == [c] + " " {
        StripConcat([c], " ");
      } else if tail == " " + [c] + " " {
        StripConcat([c], " ");
        StripConcat(" ", [c] + " ");
        assert " " + [c] + " " == " " + ([c] + " ");
      }
    }
    StripConcat(s, tail);
    assert inf[..i + 1] == inf[..i] + [c];
  }

  /** An operand character is copied. */
  lemma SpacedOperand(inf: string, i: int, s: string)
    requires SpacedShape(inf, i, s) && i < |inf| && !IsOperator(inf[i]) && inf[i] != ' '
    ensures SpacedShape(inf, i + 1, s + [inf[i]])
  {
    AppendOperand(s, inf[i]);
  }

  /** An operator after an operand gets a space on either side. */
  lemma SpacedSeparator(inf: string, i: int, s: string)
    requires SpacedShape(inf, i, s) && i < |inf| && IsOperator(inf[i]) && !IsOperator(inf[i - 1])
    requires inf[i - 1] != ' '
    ensures SpacedShape(inf, i + 1, s + (" " + [inf[i]] + " "))
  {
    AppendSeparator(s, inf[i]);
  }

  /** An operator after an operator gets a space after it only. */
  lemma SpacedOperator(inf: string, i: int, s: string)
    requires SpacedShape(inf, i, s) && i < |inf| && IsOperator(inf[i]) && IsOperator(inf[i - 1])
    ensures SpacedShape(inf, i + 1, s + ([inf[i]] + " "))
  {
    AppendOperator(s, inf[i]);
  }

  /**
   * jCAS.addSpaces. The spaces of the input are dropped first; an input with
   * nothing else fails on charAt(0). Otherwise the result holds the same
   * characters and exactly the spacing the three predicates above describe.
   */
  method AddSpaces(infix: string) returns (r: Result<string>)
    ensures r.Err? <==> Strip(infix) == ""
    ensures r.Err? ==> r.failure == IndexOutOfBounds
    ensures r.Ok? ==> Strip(r.value) == Strip(infix) && r.value[0] == Strip(infix)[0]
    ensures r.Ok? ==> OperatorsSpaced(r.value) && SpacesSeparate(r.value) && LeadingGlued(r.value)
  {
    var inf := Join("", SplitOnSpace(infix));
    JoinSplitStrips(infix);
    StripRemovesSpaces(infix);
    if |inf| == 0 {
      return Err(IndexOutOfBounds);
    }
    var s := [inf[0]];
    if inf[0] == '(' {
      s := s + " ";
    }
    SpacedStart(inf, s);
    var i := 1;
    while i < |inf|
      invariant SpacedPrefix(inf, i, s)
    {
      if IsOperator(inf[i]) {
        if !IsOperator(inf[i - 1]) {
          SpacedSeparator(inf, i, s);
          StripStep(inf, i, s, " " + [inf[i]] + " ");
          s := s + (" " + [inf[i]] + " ");
        } else {
          SpacedOperator(inf, i, s);
          StripStep(inf, i, s, [inf[i]] + " ");
          s := s + ([inf[i]] + " ");
        }
      } else {
        SpacedOperand(inf, i, s);
        StripStep(inf, i, s, [inf[i]]);
        s := s + [inf[i]];
      }
      i := i + 1;
    }
    assert inf[..i] == inf;
    r := Ok(s);
  }
}
