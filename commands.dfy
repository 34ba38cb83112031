/**
 * The command-line helpers of jGUI: recognising "simplify(...)" and
 * "solve(...)", cutting the expression out of the command, and collecting
 * the variables of an expression.
 */
module Commands {
  import opened Results
  import opened Strings

  /** Character.isLetter, over the ASCII letters. */
  predicate IsLetter(c: char)
  {
    'a' <= c <= 'z' || 'A' <= c <= 'Z'
  }

  /** The letters of `s`, each once, in the order of their first occurrence. */
  function Variables(s: string): (v: string)
    ensures forall c :: c in v <==> c in s && IsLetter(c)
    ensures forall i, j :: 0 <= i < j < |v| ==> v[i] != v[j]
    decreases |s|
  {
    if s == [] then []
    else
      var p := Variables(s[..|s| - 1]);
      var c := s[|s| - 1];
      assert s == s[..|s| - 1] + [c];
      if IsLetter(c) && c !in p then p + [c] else p
  }

  /** The single character `c` occurs at `k` exactly when `s[k]` is `c`. */
  lemma OccursChar(s: string, c: char, k: int)
    ensures OccursAt(s, [c], k) <==> 0 <= k < |s| && s[k] == c
  {
    if 0 <= k < |s| {
      assert s[k..k + 1] == [s[k]];
    }
  }

  /** String.indexOf on a character finds its first occurrence. */
  lemma FirstChar(s: string, c: char, k: int)
    requires 0 <= k < |s| && s[k] == c
    requires forall j :: 0 <= j < k ==> s[j] != c
    ensures IndexOf(s, [c]) == k
  {
    var r := IndexOf(s, [c]);
    OccursChar(s, c, k);
    OccursChar(s, c, r);
  }

  /** Appending a character leaves the first occurrence of every character already there in place. */
  lemma FirstCharKept(s: string, c: char)
    requires |s| > 0 && c in s[..|s| - 1]
    ensures IndexOf(s, [c]) == IndexOf(s[..|s| - 1], [c]) < |s| - 1
  {
    var s' := s[..|s| - 1];
    var k := IndexOf(s', [c]);
    var w :| 0 <= w < |s'| && s'[w] == c;
    OccursChar(s', c, w);
    OccursChar(s', c, k);
    forall j | 0 <= j < k
      ensures s[j] != c
    {
      OccursChar(s', c, j);
    }
    FirstChar(s, c, k);
  }

  /** The variables found before the last character keep their first occurrence, which lies before it. */
  lemma EarlierKept(s: string, s': string)
    requires s != [] && s' == s[..|s| - 1]
    ensures forall i :: 0 <= i < |Variables(s')| ==>
      0 <= IndexOf(s, [Variables(s')[i]]) == IndexOf(s', [Variables(s')[i]]) < |s| - 1
  {
    var p := Variables(s');
    forall i | 0 <= i < |p|
      ensures 0 <= IndexOf(s, [p[i]]) == IndexOf(s', [p[i]]) < |s| - 1
    {
      FirstCharKept(s, p[i]);
      var w :| 0 <= w < |s'| && s'[w] == p[i];
      OccursChar(s', p[i], w);
    }
  }

  /** A last character that does not occur before it first occurs at the end. */
  lemma NewLast(s: string)
    requires s != [] && s[|s| - 1] !in s[..|s| - 1]
    ensures IndexOf(s, [s[|s| - 1]]) == |s| - 1
  {
    var c := s[|s| - 1];
    forall j | 0 <= j < |s| - 1
      ensures s[j] != c
    {
      assert s[j] == s[..|s| - 1][j];
    }
    FirstChar(s, c, |s| - 1);
  }

  /** The variables are listed in the order of their first occurrence in the input. */
  lemma {:induction false} VariablesInOrder(s: string)
    ensures forall i, j :: 0 <= i < j < |Variables(s)| ==>
      0 <= IndexOf(s, [Variables(s)[i]]) < IndexOf(s, [Variables(s)[j]])
    decreases |s|
  {
    if s != [] {
      var s' := s[..|s| - 1];
      var p := Variables(s');
      var c := s[|s| - 1];
      VariablesInOrder(s');
      EarlierKept(s, s');
      var v := Variables(s);
      if IsLetter(c) && c !in p {
        assert v == p + [c];
        NewLast(s);
      } else {
        assert v == p;
      }
      forall i, j | 0 <= i < j < |v|
        ensures 0 <= IndexOf(s, [v[i]]) < IndexOf(s, [v[j]])
      {
        assert v[i] == p[i];
        if j < |p| {
          assert v[j] == p[j];
        }
      }
    } else {
      assert Variables(s) == [];
    }
  }

  /** jGUI.variableParser: one pass over the input, appending each letter not seen before. */
  method VariableParser(input: string) returns (variables: string)
    ensures variables == Variables(input)
    ensures forall c :: c in variables <==> c in input && IsLetter(c)
  {
    variables := "";
    var k := 0;
    while k < |input|
      invariant 0 <= k <= |input|
      invariant variables == Variables(input[..k])
    {
      assert input[..k + 1][..k] == input[..k];
      if IsLetter(input[k]) && !(input[k] in variables) {
        variables := variables + [input[k]];
      }
      k := k + 1;
    }
    assert input[..k] == input;
  }

  /**
   * jGUI.simplifyParser: the text between the first "(" and the last ")".
   * String.substring throws when the last ")" does not come after the first
   * "(" (or there is no ")").
   */
  function SimplifyParser(input: string): (r: Result<string>)
    ensures r.Err? <==> forall k :: IndexOf(input, "(") < k < |input| ==> input[k] != ')'
    ensures r.Err? ==> r.failure == IndexOutOfBounds
    ensures r.Ok? ==> |r.value| < |input|
  {
    var firstPar := IndexOf(input, "(");
    var lastPar := LastIndexOf(input, ")");
    LastClose(input, firstPar);
    if firstPar + 1 <= lastPar then Ok(input[firstPar + 1..lastPar]) else Err(IndexOutOfBounds)
  }

  /** The last ")" comes after index `p` exactly when some ")" does. */
  lemma LastClose(input: string, p: int)
    requires -1 <= p
    ensures p < LastIndexOf(input, ")") <==> exists k :: p < k < |input| && input[k] == ')'
  {
    var q := LastIndexOf(input, ")");
    OccursChar(input, ')', q);
    if k :| p < k < |input| && input[k] == ')' {
      OccursChar(input, ')', k);
    }
  }

  /**
   * jGUI.solveParser: "solve(a=b)" becomes "a-(b)", with a the text between
   * the first "(" and the first "=", and b the text between that "=" and the
   * last ")". Either substring can throw.
   */
  function SolveParser(input: string): (r: Result<string>)
    ensures r.Ok? <==> IndexOf(input, "(") < IndexOf(input, "=") < LastIndexOf(input, ")")
    ensures r.Err? ==> r.failure == IndexOutOfBounds
  {
    var firstPar := IndexOf(input, "(");
    var equals := IndexOf(input, "=");
    var lastPar := LastIndexOf(input, ")");
    if !(firstPar + 1 <= equals) then Err(IndexOutOfBounds)
    else if !(equals + 1 <= lastPar) then Err(IndexOutOfBounds)
    else
      Ok(input[firstPar + 1..equals] + "-(" + input[equals + 1..lastPar] + ")")
  }

  /**
   * jGUI.isSimplify and jGUI.isSolve, which differ only in the command they
   * look for: the input contains the command's name followed by "(".
   */
  function Invokes(input: string, command: string): (r: bool)
    ensures r <==> exists k :: OccursAt(input, command + "(", k)
  {
    IndexOf(input, command + "(") != -1
  }

  /** The command "simplify(e)" is recognised and gives back e, whatever e holds. */
  lemma SimplifyRoundTrip(e: string)
    ensures Invokes("simplify(" + e + ")", "simplify")
    ensures SimplifyParser("simplify(" + e + ")") == Ok(e)
  {
    var input := "simplify(" + e + ")";
    assert OccursAt(input, "simplify" + "(", 0) by {
      assert input[0..9] == "simplify(";
    }
    assert input[8] == '(';
    FirstChar(input, '(', 8);
    OccursChar(input, ')', |input| - 1);
    assert input[9..|input| - 1] == e;
  }

  /** The command "solve(a=b)" is recognised and gives back "a-(b)" when a holds no "=". */
  lemma SolveRoundTrip(a: string, b: string)
    requires '=' !in a
    ensures Invokes("solve(" + a + "=" + b + ")", "solve")
    ensures SolveParser("solve(" + a + "=" + b + ")") == Ok(a + "-(" + b + ")")
  {
    var input := "solve(" + a + "=" + b + ")";
    var eq := 6 + |a|;
    assert OccursAt(input, "solve" + "(", 0) by {
      assert input[0..6] == "solve(";
    }
    assert input[5] == '(';
    FirstChar(input, '(', 5);
    assert input[eq] == '=';
    assert forall j :: 0 <= j < eq ==> input[j] != '=' by {
      forall j | 0 <= j < eq
        ensures input[j] != '='
      {
        if j >= 6 {
          assert input[j] == a[j - 6];
        }
      }
    }
    FirstChar(input, '=', eq);
    OccursChar(input, ')', |input| - 1);
    assert input[6..eq] == a;
    assert input[eq + 1..|input| - 1] == b;
  }

  /** A command with no ")" is rejected by both parsers. */
  lemma NoCloseRejected(input: string)
    requires ')' !in input
    ensures SimplifyParser(input).Err? && SolveParser(input).Err?
  {
    var q := LastIndexOf(input, ")");
    OccursChar(input, ')', q);
  }
}
