/**
 * jCAS.infToPost: Dijkstra's shunting-yard conversion of the spaced infix
 * string into postfix (reverse Polish) order. The operator stack is a
 * sequence whose last element is the top.
 */
module Postfix {
  import opened Results
  import opened Strings
  import opened Lexer

  /** The characters the regular expression \s matches. */
  const Whitespace: set<char> := {' ', '\t', '\n', '\r', 11 as char, 12 as char}

  /** infix.split("\\s"). */
  function Tokens(infix: string): seq<string>
  {
    Split(infix, Whitespace)
  }

  /** The two containers of the conversion: the operator stack and the output queue. */
  datatype Shunt = Shunt(stack: seq<string>, out: seq<string>)

  /**
   * The inner loop for an operator or "(" of precedence `prec`: pop to the
   * output while the top is not "(" and binds tighter, or as tight and the
   * new token is not the right-associative "^".
   */
  function PopWhile(st: Shunt, prec: int, tkn: string): (r: Shunt)
    ensures |r.stack| <= |st.stack| && r.stack == st.stack[..|r.stack|]
    decreases |st.stack|
  {
    if st.stack == [] then st
    else
      var top := st.stack[|st.stack| - 1];
      if top != "(" && (GetPrec(top) > prec || (GetPrec(top) == prec && tkn != "^")) then
        PopWhile(Shunt(st.stack[..|st.stack| - 1], st.out + [top]), prec, tkn)
      else st
  }

  /** The inner loop for ")": pop to the output until "(" is on top or the stack is empty. */
  function PopToOpen(st: Shunt): (r: Shunt)
    ensures |r.stack| <= |st.stack| && r.stack == st.stack[..|r.stack|]
    ensures r.stack != [] ==> r.stack[|r.stack| - 1] == "("
    decreases |st.stack|
  {
    if st.stack == [] || st.stack[|st.stack| - 1] == "(" then st
    else PopToOpen(Shunt(st.stack[..|st.stack| - 1], st.out + [st.stack[|st.stack| - 1]]))
  }

  /**
   * The handling of ")": the loop above, where peek on the empty stack
   * throws, then the "(" is discarded.
   */
  function Close(st: Shunt): (r: Result<Shunt>)
  {
    var p := PopToOpen(st);
    if p.stack == [] then Err(EmptyStack) else Ok(Shunt(p.stack[..|p.stack| - 1], p.out))
  }

  /** One pass of the token loop. Empty tokens are skipped. */
  function Step(st: Shunt, tkn: string): Result<Shunt>
  {
    if tkn == "" then Ok(st)
    else
      var prec := GetPrec(tkn);
      if prec > 0 then
        var popped := PopWhile(st, prec, tkn);
        Ok(Shunt(popped.stack + [tkn], popped.out))
      else if prec == 0 then Close(st)
      else Ok(Shunt(st.stack, st.out + [tkn]))
  }

  /** The token loop, from state `st`. */
  function Run(ts: seq<string>, st: Shunt): Result<Shunt>
    decreases |ts|
  {
    if ts == [] then Ok(st)
    else
      match Step(st, ts[0])
      case Err(f) => Err(f)
      case Ok(next) => Run(ts[1..], next)
  }

  function Reverse(s: seq<string>): (r: seq<string>)
    ensures |r| == |s|
  {
    if s == [] then [] else [s[|s| - 1]] + Reverse(s[..|s| - 1])
  }

  /** The final loop: what is left on the stack goes to the output, top first. */
  function Drain(st: Shunt): seq<string>
  {
    st.out + Reverse(st.stack)
  }

  /** The postfix order of a token sequence, or the exception infToPost throws. */
  function Convert(ts: seq<string>): Result<seq<string>>
  {
    match Run(ts, Shunt([], []))
    case Err(f) => Err(f)
    case Ok(st) => Ok(Drain(st))
  }

  /** jCAS.infToPost: the tokens of the string, converted. */
  method InfToPost(infix: string) returns (r: Result<seq<string>>)
    ensures r == Convert(Tokens(infix))
  {
    var ts := Tokens(infix);
    var opStk: seq<string> := [];
    var output: seq<string> := [];
    var k := 0;
    while k < |ts|
      invariant 0 <= k <= |ts|
      invariant Run(ts[k..], Shunt(opStk, output)) == Run(ts, Shunt([], []))
    {
      RunAt(ts, k, Shunt(opStk, output));
      var next := ShuntToken(opStk, output, ts[k]);
      if next.Err? {
        return Err(next.failure);
      }
      opStk, output := next.value.stack, next.value.out;
      k := k + 1;
    }
    assert ts[k..] == [];
    output := Unwind(opStk, output);
    r := Ok(output);
  }

  /** The token loop from index `k`: the token there, then the rest. */
  lemma RunAt(ts: seq<string>, k: int, st: Shunt)
    requires 0 <= k < |ts|
    ensures Run(ts[k..], st) ==
      match Step(st, ts[k])
      case Err(f) => Err(f)
      case Ok(next) => Run(ts[k + 1..], next)
  {
    assert ts[k..][0] == ts[k] && ts[k..][1..] == ts[k + 1..];
  }

  /** One pass of the token loop of infToPost on the stack `opStk` and the output `output`. */
  method ShuntToken(opStk: seq<string>, output: seq<string>, tkn: string) returns (r: Result<Shunt>)
    ensures r == Step(Shunt(opStk, output), tkn)
  {
    if tkn == "" {
      return Ok(Shunt(opStk, output));
    }
    var prec := GetPrec(tkn);
    if prec > 0 {
      var popped := PopOperators(opStk, output, prec, tkn);
      r := Ok(Shunt(popped.stack + [tkn], popped.out));
    } else if prec == 0 {
      var popped := PopToParen(opStk, output);
      if popped.stack == [] {
        return Err(EmptyStack);
      }
      r := Ok(Shunt(popped.stack[..|popped.stack| - 1], popped.out));
    } else {
      r := Ok(Shunt(opStk, output + [tkn]));
    }
  }

  /** The inner loop for an operator or "(". */
  method PopOperators(opStk: seq<string>, output: seq<string>, prec: int, tkn: string) returns (r: Shunt)
    ensures r == PopWhile(Shunt(opStk, output), prec, tkn)
  {
    var stk, out := opStk, output;
    while stk != [] && stk[|stk| - 1] != "(" &&
          (GetPrec(stk[|stk| - 1]) > prec || (GetPrec(stk[|stk| - 1]) == prec && tkn != "^"))
      invariant PopWhile(Shunt(stk, out), prec, tkn) == PopWhile(Shunt(opStk, output), prec, tkn)
      decreases |stk|
    {
      out := out + [stk[|stk| - 1]];
      stk := stk[..|stk| - 1];
    }
    r := Shunt(stk, out);
  }

  /** The inner loop for ")". */
  method PopToParen(opStk: seq<string>, output: seq<string>) returns (r: Shunt)
    ensures r == PopToOpen(Shunt(opStk, output))
  {
    var stk, out := opStk, output;
    while stk != [] && stk[|stk| - 1] != "("
      invariant PopToOpen(Shunt(stk, out)) == PopToOpen(Shunt(opStk, output))
      decreases |stk|
    {
      out := out + [stk[|stk| - 1]];
      stk := stk[..|stk| - 1];
    }
    r := Shunt(stk, out);
  }

  /** The final loop: what is left on the stack is moved to the output, top first. */
  method Unwind(opStk: seq<string>, output: seq<string>) returns (r: seq<string>)
    ensures r == Drain(Shunt(opStk, output))
  {
    var stk, out := opStk, output;
    while stk != []
      invariant out + Reverse(stk) == Drain(Shunt(opStk, output))
      decreases |stk|
    {
      assert Reverse(stk) == [stk[|stk| - 1]] + Reverse(stk[..|stk| - 1]);
      out := out + [stk[|stk| - 1]];
      stk := stk[..|stk| - 1];
    }
    assert Reverse(stk) == [];
    assert out + [] == out;
    r := out;
  }

  // ---------------------------------------------------------------------
  // What the conversion does with the tokens

  /** A number or variable name: every non-empty token that is not a symbol. */
  predicate IsOperand(t: string)
  {
    t != "" && GetPrec(t) == -1
  }

  /** The operands of a token sequence, in order. */
  function Operands(ts: seq<string>): (r: seq<string>)
    ensures |r| <= |ts|
  {
    if ts == [] then [] else (if IsOperand(ts[0]) then [ts[0]] else []) + Operands(ts[1..])
  }

  lemma {:induction false} OperandsConcat(a: seq<string>, b: seq<string>)
    ensures Operands(a + b) == Operands(a) + Operands(b)
    decreases |a|
  {
    if a == [] {
      assert a + b == b;
    } else {
      var h := if IsOperand(a[0]) then [a[0]] else [];
      assert (a + b)[0] == a[0] && (a + b)[1..] == a[1..] + b;
      OperandsConcat(a[1..], b);
      assert Operands(a + b) == h + (Operands(a[1..]) + Operands(b));
    }
  }

  /** How often `x` occurs in `s`. */
  function Count(s: seq<string>, x: string): (n: nat)
    ensures n <= |s|
  {
    if s == [] then 0 else Count(s[..|s| - 1], x) + (if s[|s| - 1] == x then 1 else 0)
  }

  lemma {:induction false} CountConcat(a: seq<string>, b: seq<string>, x: string)
    ensures Count(a + b, x) == Count(a, x) + Count(b, x)
    decreases |b|
  {
    if b == [] {
      assert a + b == a;
    } else {
      assert (a + b)[..|a + b| - 1] == a + b[..|b| - 1];
      CountConcat(a, b[..|b| - 1], x);
    }
  }

  lemma {:induction false} CountReverse(s: seq<string>, x: string)
    ensures Count(Reverse(s), x) == Count(s, x)
    decreases |s|
  {
    if s != [] {
      var init := s[..|s| - 1];
      CountReverse(init, x);
      CountConcat([s[|s| - 1]], Reverse(init), x);
      assert [s[|s| - 1]][..0] == [];
    }
  }

  /** The tokens the output never receives: the empty token and the parentheses. */
  predicate Dropped(x: string)
  {
    x == "" || x == "(" || x == ")"
  }

  /** The operator stack only ever holds "(" and the five operators. */
  predicate StackOk(stack: seq<string>)
  {
    forall i :: 0 <= i < |stack| ==> stack[i] in Symbols && stack[i] != ")"
  }

  lemma {:induction false} StackHasNoOperands(stack: seq<string>)
    requires StackOk(stack)
    ensures Operands(stack) == [] && Operands(Reverse(stack)) == []
    decreases |stack|
  {
    if stack != [] {
      StackHasNoOperands(stack[1..]);
      StackHasNoOperands(stack[..|stack| - 1]);
      assert Reverse(stack)[1..] == Reverse(stack[..|stack| - 1]);
    }
  }

  /** Moving the top of the stack to the output. */
  lemma PopOne(st: Shunt, x: string)
    requires StackOk(st.stack) && st.stack != []
    ensures var top := st.stack[|st.stack| - 1]; var st1 := Shunt(st.stack[..|st.stack| - 1], st.out + [top]);
      StackOk(st1.stack) &&
      Count(st1.out, x) + Count(st1.stack, x) == Count(st.out, x) + Count(st.stack, x) &&
      Operands(st1.out) == Operands(st.out) &&
      (x != top ==> Count(st1.out, x) == Count(st.out, x)) &&
      (top != "(" ==> !Dropped(top))
  {
    var top := st.stack[|st.stack| - 1];
    var out1 := st.out + [top];
    assert out1[..|out1| - 1] == st.out;
    OperandsConcat(st.out, [top]);
    assert [top][1..] == [];
    assert top in Symbols && top != ")";
    OperatorKept(top);
  }

  /** Only "(" among the tokens the stack may hold is dropped from the output. */
  lemma OperatorKept(t: string)
    requires t in Symbols && t != ")"
    ensures t != "(" ==> !Dropped(t)
  {
    assert forall u :: u in Symbols ==> |u| == 1;
  }

  /**
   * The operator loop only moves operators from the stack to the output: it
   * never moves a "(" and leaves the operands of the output as they were.
   */
  lemma {:induction false} PopWhileKeeps(st: Shunt, prec: int, tkn: string, x: string)
    requires StackOk(st.stack)
    ensures var r := PopWhile(st, prec, tkn);
      StackOk(r.stack) &&
      Count(r.out, x) + Count(r.stack, x) == Count(st.out, x) + Count(st.stack, x) &&
      Operands(r.out) == Operands(st.out) &&
      (Dropped(x) ==> Count(r.out, x) == Count(st.out, x))
    decreases |st.stack|
  {
    if st.stack != [] {
      var top := st.stack[|st.stack| - 1];
      if top != "(" && (GetPrec(top) > prec || (GetPrec(top) == prec && tkn != "^")) {
        var st1 := Shunt(st.stack[..|st.stack| - 1], st.out + [top]);
        PopOne(st, x);
        PopWhileKeeps(st1, prec, tkn, x);
      }
    }
  }

  /** The ")" loop stops at the topmost "(", or empties a stack without one. */
  lemma {:induction false} PopToOpenFinds(st: Shunt)
    ensures PopToOpen(st).stack == [] <==> Count(st.stack, "(") == 0
    decreases |st.stack|
  {
    if st.stack != [] && st.stack[|st.stack| - 1] != "(" {
      PopToOpenFinds(Shunt(st.stack[..|st.stack| - 1], st.out + [st.stack[|st.stack| - 1]]));
    }
  }

  /** The ")" loop moves only operators, never a "(", to the output. */
  lemma {:induction false} PopToOpenKeeps(st: Shunt, x: string)
    requires StackOk(st.stack)
    ensures var r := PopToOpen(st);
      StackOk(r.stack) &&
      Count(r.out, x) + Count(r.stack, x) == Count(st.out, x) + Count(st.stack, x) &&
      Operands(r.out) == Operands(st.out) &&
      (Dropped(x) ==> Count(r.out, x) == Count(st.out, x))
    decreases |st.stack|
  {
    if st.stack != [] {
      var top := st.stack[|st.stack| - 1];
      if top != "(" {
        var st1 := Shunt(st.stack[..|st.stack| - 1], st.out + [top]);
        assert PopToOpen(st) == PopToOpen(st1);
        PopOne(st, x);
        PopToOpenKeeps(st1, x);
      }
    }
  }

  /** ")" fails, on peek, exactly when no group is open. */
  lemma CloseFails(st: Shunt)
    ensures Close(st).Err? <==> Count(st.stack, "(") == 0
    ensures Close(st).Err? ==> Close(st).failure == EmptyStack
  {
    PopToOpenFinds(st);
  }

  /**
   * Otherwise it moves the operators above the topmost "(" to the output and
   * drops that "(": one "(" less, every other token where it was.
   */
  lemma CloseKeeps(st: Shunt, x: string)
    requires StackOk(st.stack) && Close(st).Ok?
    ensures var r := Close(st).value;
      StackOk(r.stack) &&
      Count(r.out, x) + Count(r.stack, x) + (if x == "(" then 1 else 0) == Count(st.out, x) + Count(st.stack, x) &&
      Operands(r.out) == Operands(st.out) &&
      (Dropped(x) ==> Count(r.out, x) == Count(st.out, x))
  {
    PopToOpenKeeps(st, x);
  }

  /** The change a token makes to the number of open groups. */
  function Delta(t: string): int
  {
    if t == "(" then 1 else if t == ")" then -1 else 0
  }

  /**
   * One token: non-dropped tokens are kept (on the stack or in the output),
   * operands are appended to the output in order, dropped tokens never reach
   * the output, and the "(" on the stack count the open groups.
   */
  lemma StepKeeps(st: Shunt, t: string, x: string)
    requires StackOk(st.stack) && Step(st, t).Ok?
    ensures var r := Step(st, t).value;
      StackOk(r.stack) &&
      (!Dropped(x) ==> Count(r.out, x) + Count(r.stack, x) == Count(st.out, x) + Count(st.stack, x) + Count([t], x)) &&
      (Dropped(x) ==> Count(r.out, x) == Count(st.out, x)) &&
      Operands(r.out) == Operands(st.out) + Operands([t])
  {
    var prec := GetPrec(t);
    assert [t][..0] == [] && [t][1..] == [];
    if t == "" {
    } else if prec > 0 {
      PushKeeps(st, prec, t, x);
    } else if prec == 0 {
      CloseKeeps(st, x);
    } else {
      OperandsConcat(st.out, [t]);
      assert (st.out + [t])[..|st.out|] == st.out;
    }
  }

  /** An operator token pops what binds at least as tightly and is pushed itself. */
  lemma PushKeeps(st: Shunt, prec: int, t: string, x: string)
    requires StackOk(st.stack) && t in Symbols && t != ")" && t != "" && prec == GetPrec(t)
    ensures var p := PopWhile(st, prec, t);
      StackOk(p.stack + [t]) &&
      Count(p.out, x) + Count(p.stack + [t], x) == Count(st.out, x) + Count(st.stack, x) + Count([t], x) &&
      Operands(p.out) == Operands(st.out) &&
      (Dropped(x) ==> Count(p.out, x) == Count(st.out, x))
  {
    var p := PopWhile(st, prec, t);
    PopWhileKeeps(st, prec, t, x);
    assert (p.stack + [t])[..|p.stack|] == p.stack;
    assert [t][..0] == [];
  }

  /** The operator stack keeps holding only "(" and operators. */
  lemma StepStackOk(st: Shunt, t: string)
    requires StackOk(st.stack) && Step(st, t).Ok?
    ensures StackOk(Step(st, t).value.stack)
  {
    StepKeeps(st, t, "");
  }

  lemma StepDepth(st: Shunt, t: string)
    requires StackOk(st.stack)
    ensures Step(st, t).Err? <==> Count(st.stack, "(") + Delta(t) < 0
    ensures Step(st, t).Err? ==> Step(st, t).failure == EmptyStack
    ensures Step(st, t).Ok? ==> Count(Step(st, t).value.stack, "(") == Count(st.stack, "(") + Delta(t)
  {
    var prec := GetPrec(t);
    if t != "" && prec == 0 {
      CloseFails(st);
      if Close(st).Ok? {
        CloseKeeps(st, "(");
        CloseKeeps(st, ")");
      }
    } else if t != "" && prec > 0 {
      var p := PopWhile(st, prec, t);
      PopWhileKeeps(st, prec, t, "(");
      assert (p.stack + [t])[..|p.stack|] == p.stack;
    }
  }

  /**
   * Reading `ts` with `open` groups already open, no ")" ever comes without
   * an open group to close.
   */
  predicate ClosesMatched(ts: seq<string>, open: int)
    decreases |ts|
  {
    ts == [] || (open + Delta(ts[0]) >= 0 && ClosesMatched(ts[1..], open + Delta(ts[0])))
  }

  /** The groups `ts` opens and does not close. */
  function Depth(ts: seq<string>): int
  {
    Count(ts, "(") as int - Count(ts, ")") as int
  }

  lemma DepthCons(ts: seq<string>)
    requires ts != []
    ensures Depth(ts) == Delta(ts[0]) + Depth(ts[1..])
  {
    CountCons(ts, "(");
    CountCons(ts, ")");
  }

  /** The count in the first token, then in the rest. */
  lemma CountCons(ts: seq<string>, x: string)
    requires ts != []
    ensures Count(ts, x) == Count([ts[0]], x) + Count(ts[1..], x)
  {
    assert [ts[0]] + ts[1..] == ts;
    CountConcat([ts[0]], ts[1..], x);
  }

  /** The token loop, one token at a time. */
  lemma RunStep(ts: seq<string>, st: Shunt)
    requires ts != []
    ensures Step(st, ts[0]).Err? ==> Run(ts, st) == Err(Step(st, ts[0]).failure)
    ensures Step(st, ts[0]).Ok? ==> Run(ts, st) == Run(ts[1..], Step(st, ts[0]).value)
  {
  }

  /** The token loop throws, on peek, exactly when a ")" has no open group to close. */
  lemma {:induction false} RunFails(ts: seq<string>, st: Shunt)
    requires StackOk(st.stack)
    ensures Run(ts, st).Err? <==> !ClosesMatched(ts, Count(st.stack, "("))
    decreases |ts|
  {
    if ts != [] {
      var next := Step(st, ts[0]);
      RunStep(ts, st);
      StepDepth(st, ts[0]);
      if next.Ok? {
        StepStackOk(st, ts[0]);
        RunFails(ts[1..], next.value);
      }
    }
  }

  /** The only exception the token loop throws is the one of peek on an empty stack. */
  lemma {:induction false} RunFailsEmpty(ts: seq<string>, st: Shunt)
    ensures Run(ts, st).Err? ==> Run(ts, st).failure == EmptyStack
    decreases |ts|
  {
    if ts != [] {
      var next := Step(st, ts[0]);
      RunStep(ts, st);
      assert next.Err? ==> next.failure == EmptyStack;
      if next.Ok? {
        RunFailsEmpty(ts[1..], next.value);
      }
    }
  }

  /** Otherwise it leaves one "(" on the stack for every group still open. */
  lemma {:induction false} RunDepth(ts: seq<string>, st: Shunt)
    requires StackOk(st.stack) && Run(ts, st).Ok?
    ensures Count(Run(ts, st).value.stack, "(") == Count(st.stack, "(") + Depth(ts)
    decreases |ts|
  {
    if ts != [] {
      var next := Step(st, ts[0]);
      RunStep(ts, st);
      StepDepth(st, ts[0]);
      StepKeeps(st, ts[0], "");
      RunDepth(ts[1..], next.value);
      DepthCons(ts);
    }
  }

  /** The stack of the token loop never holds anything but "(" and operators. */
  lemma {:induction false} RunStackOk(ts: seq<string>, st: Shunt)
    requires StackOk(st.stack) && Run(ts, st).Ok?
    ensures StackOk(Run(ts, st).value.stack)
    decreases |ts|
  {
    if ts != [] {
      RunStep(ts, st);
      StepKeeps(st, ts[0], "");
      RunStackOk(ts[1..], Step(st, ts[0]).value);
    }
  }

  /**
   * Over the whole token loop every token but "", "(" and ")" ends up on the
   * stack or in the output exactly as often as it was read, and the output
   * receives no dropped token.
   */
  lemma {:induction false} RunKeeps(ts: seq<string>, st: Shunt, x: string)
    requires StackOk(st.stack) && Run(ts, st).Ok?
    ensures var r := Run(ts, st).value;
      (!Dropped(x) ==> Count(r.out, x) + Count(r.stack, x) == Count(st.out, x) + Count(st.stack, x) + Count(ts, x)) &&
      (Dropped(x) ==> Count(r.out, x) == Count(st.out, x))
    decreases |ts|
  {
    if ts != [] {
      RunStep(ts, st);
      StepKeeps(st, ts[0], x);
      RunKeeps(ts[1..], Step(st, ts[0]).value, x);
      CountCons(ts, x);
    }
  }

  /** The operands of the first token, then those of the rest. */
  lemma OperandsCons(ts: seq<string>)
    requires ts != []
    ensures Operands(ts) == Operands([ts[0]]) + Operands(ts[1..])
  {
    assert [ts[0]] + ts[1..] == ts;
    OperandsConcat([ts[0]], ts[1..]);
  }

  /** The state after the first token, with the operands it appends. */
  lemma RunHead(ts: seq<string>, st: Shunt) returns (next: Shunt)
    requires StackOk(st.stack) && ts != [] && Run(ts, st).Ok?
    ensures Step(st, ts[0]) == Ok(next) && Run(ts, st) == Run(ts[1..], next)
    ensures StackOk(next.stack) && Operands(next.out) == Operands(st.out) + Operands([ts[0]])
  {
    RunStep(ts, st);
    next := Step(st, ts[0]).value;
    StepKeeps(st, ts[0], "");
  }

  /** The token loop appends the operands to the output in the order it reads them. */
  lemma {:induction false} RunKeepsOperands(ts: seq<string>, st: Shunt)
    requires StackOk(st.stack) && Run(ts, st).Ok?
    ensures Operands(Run(ts, st).value.out) == Operands(st.out) + Operands(ts)
    decreases |ts|
  {
    if ts == [] {
      assert Operands(ts) == [] && st.out + [] == st.out;
    } else {
      var next := RunHead(ts, st);
      RunKeepsOperands(ts[1..], next);
      OperandsCons(ts);
      var a, b, c := Operands(st.out), Operands([ts[0]]), Operands(ts[1..]);
      assert (a + b) + c == a + (b + c);
    }
  }

  lemma StackOkCounts(stack: seq<string>)
    requires StackOk(stack)
    ensures Count(stack, ")") == 0 && Count(stack, "") == 0
  {
    if Count(stack, ")") != 0 || Count(stack, "") != 0 {
      var i := CountedAt(stack, if Count(stack, ")") != 0 then ")" else "");
    }
  }

  /** An index at which a counted token occurs. */
  lemma {:induction false} CountedAt(s: seq<string>, x: string) returns (i: int)
    requires Count(s, x) > 0
    ensures 0 <= i < |s| && s[i] == x
    decreases |s|
  {
    if s[|s| - 1] == x {
      i := |s| - 1;
    } else {
      i := CountedAt(s[..|s| - 1], x);
    }
  }

  /** infToPost throws EmptyStackException exactly when a ")" closes a group that was never opened. */
  lemma ConvertFails(ts: seq<string>)
    ensures Convert(ts).Err? <==> !ClosesMatched(ts, 0)
    ensures Convert(ts).Err? ==> Convert(ts).failure == EmptyStack
  {
    RunFails(ts, Shunt([], []));
    RunFailsEmpty(ts, Shunt([], []));
  }

  /**
   * What infToPost returns holds the operands of the input in their order,
   * every operator as often as the input does, no ")" and no empty token, and
   * one "(" for every group the input opens and does not close.
   */
  lemma ConvertKeeps(ts: seq<string>, x: string)
    requires Convert(ts).Ok?
    ensures Operands(Convert(ts).value) == Operands(ts)
    ensures !Dropped(x) ==> Count(Convert(ts).value, x) == Count(ts, x)
    ensures Count(Convert(ts).value, ")") == 0 && Count(Convert(ts).value, "") == 0
    ensures Count(Convert(ts).value, "(") == Depth(ts)
  {
    var st := Run(ts, Shunt([], [])).value;
    RunStackOk(ts, Shunt([], []));
    RunKeepsOperands(ts, Shunt([], []));
    RunKeeps(ts, Shunt([], []), x);
    RunKeeps(ts, Shunt([], []), ")");
    RunKeeps(ts, Shunt([], []), "");
    RunKeeps(ts, Shunt([], []), "(");
    RunDepth(ts, Shunt([], []));
    StackOkCounts(st.stack);
    StackHasNoOperands(st.stack);
    OperandsConcat(st.out, Reverse(st.stack));
    CountConcat(st.out, Reverse(st.stack), x);
    CountConcat(st.out, Reverse(st.stack), ")");
    CountConcat(st.out, Reverse(st.stack), "");
    CountConcat(st.out, Reverse(st.stack), "(");
    CountReverse(st.stack, x);
    CountReverse(st.stack, ")");
    CountReverse(st.stack, "");
    CountReverse(st.stack, "(");
  }

  /** `o1` is applied before a following `o2`: it binds tighter, or as tight and `o2` is not "^". */
  predicate AppliedFirst(o1: string, o2: string)
  {
    Exprs.Prec(o1) > Exprs.Prec(o2) || (Exprs.Prec(o1) == Exprs.Prec(o2) && o2 != "^")
  }

  lemma ReadOperandOperatorOperand(a: string, o1: string, b: string, rest: seq<string>)
    requires IsOperand(a) && IsOperand(b) && o1 in Exprs.OperatorSymbols
    ensures Run([a, o1, b] + rest, Shunt([], [])) == Run(rest, Shunt([o1], [a, b]))
  {
    var ts := [a, o1, b] + rest;
    assert GetPrec(a) == -1 && GetPrec(b) == -1 && GetPrec(o1) == Exprs.Prec(o1);
    assert [] + [a] == [a] && [] + [o1] == [o1] && [a] + [b] == [a, b];
    assert Step(Shunt([], []), a) == Ok(Shunt([], [a]));
    assert PopWhile(Shunt([], [a]), GetPrec(o1), o1) == Shunt([], [a]);
    assert Step(Shunt([], [a]), o1) == Ok(Shunt([o1], [a]));
    assert Step(Shunt([o1], [a]), b) == Ok(Shunt([o1], [a, b]));
    RunStep(ts, Shunt([], []));
    assert ts[1..] == [o1, b] + rest;
    RunStep(ts[1..], Shunt([], [a]));
    assert ts[1..][1..] == [b] + rest;
    RunStep(ts[1..][1..], Shunt([o1], [a]));
    assert ts[1..][1..][1..] == rest;
  }

  lemma SecondOperator(a: string, o1: string, b: string, o2: string)
    requires o1 in Exprs.OperatorSymbols && o2 in Exprs.OperatorSymbols
    ensures Step(Shunt([o1], [a, b]), o2) ==
      if AppliedFirst(o1, o2) then Ok(Shunt([o2], [a, b, o1])) else Ok(Shunt([o1, o2], [a, b]))
  {
    var st := Shunt([o1], [a, b]);
    assert GetPrec(o1) == Exprs.Prec(o1) && GetPrec(o2) == Exprs.Prec(o2) && GetPrec(o2) > 0;
    if AppliedFirst(o1, o2) {
      assert [o1][..0] == [] && [a, b] + [o1] == [a, b, o1];
      assert PopWhile(st, GetPrec(o2), o2) == PopWhile(Shunt([], [a, b, o1]), GetPrec(o2), o2);
      assert PopWhile(Shunt([], [a, b, o1]), GetPrec(o2), o2) == Shunt([], [a, b, o1]);
      assert [] + [o2] == [o2];
    } else {
      assert PopWhile(st, GetPrec(o2), o2) == st;
      assert [o1] + [o2] == [o1, o2];
    }
  }

  /**
   * Precedence and associativity on `a o1 b o2 c`: the first operator goes
   * to the output before the second operand when it is applied first.
   */
  lemma ConvertTwoOperators(a: string, o1: string, b: string, o2: string, c: string)
    requires IsOperand(a) && IsOperand(b) && IsOperand(c)
    requires o1 in Exprs.OperatorSymbols && o2 in Exprs.OperatorSymbols
    ensures Convert([a, o1, b, o2, c]) ==
      if AppliedFirst(o1, o2) then Ok([a, b, o1, c, o2]) else Ok([a, b, c, o2, o1])
  {
    ReadOperandOperatorOperand(a, o1, b, [o2, c]);
    assert [a, o1, b] + [o2, c] == [a, o1, b, o2, c];
    SecondOperator(a, o1, b, o2);
    var s4 := Step(Shunt([o1], [a, b]), o2).value;
    RunStep([o2, c], Shunt([o1], [a, b]));
    assert [o2, c][1..] == [c];
    LastOperand(s4, c);
    if AppliedFirst(o1, o2) {
      assert Drain(Shunt(s4.stack, s4.out + [c])) == [a, b, o1, c, o2] by {
        assert Reverse([o2]) == [o2];
      }
    } else {
      assert Drain(Shunt(s4.stack, s4.out + [c])) == [a, b, c, o2, o1] by {
        assert [o1, o2][..1] == [o1] && [o1][..0] == [];
        assert Reverse([o1, o2]) == [o2, o1];
      }
    }
  }

  /** A last operand goes straight to the output. */
  lemma LastOperand(st: Shunt, c: string)
    requires IsOperand(c)
    ensures Run([c], st) == Ok(Shunt(st.stack, st.out + [c]))
  {
    RunStep([c], st);
    assert [c][1..] == [];
  }
}
