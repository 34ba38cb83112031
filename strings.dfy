/** The java.lang.String operations the core relies on, stated over seq<char>. */
module Strings {

  /** `sub` occurs in `s` starting at index `k`. */
  predicate OccursAt(s: string, sub: string, k: int) {
    0 <= k && k + |sub| <= |s| && s[k..k + |sub|] == sub
  }

  lemma OccursAtTail(s: string, sub: string, k: int)
    requires |s| > 0 && 0 <= k
    ensures OccursAt(s[1..], sub, k) <==> OccursAt(s, sub, k + 1)
  {
    if k + |sub| <= |s| - 1 {
      assert s[1..][k..k + |sub|] == s[k + 1..k + 1 + |sub|];
    }
  }

  lemma OccursAtInit(s: string, sub: string, k: int)
    requires |s| > 0 && k + |sub| <= |s| - 1
    ensures OccursAt(s[..|s| - 1], sub, k) <==> OccursAt(s, sub, k)
  {
    if 0 <= k {
      assert s[..|s| - 1][k..k + |sub|] == s[k..k + |sub|];
    }
  }

  /** String.indexOf(String): the first index at which `sub` occurs, or -1. */
  function IndexOf(s: string, sub: string): (r: int)
    ensures -1 <= r <= |s|
    ensures r == -1 || OccursAt(s, sub, r)
    ensures forall k :: 0 <= k && (r == -1 || k < r) ==> !OccursAt(s, sub, k)
    decreases |s|
  {
    if |sub| > |s| then -1
    else if s[..|sub|] == sub then 0
    else
      var k := IndexOf(s[1..], sub);
      forall j | 1 <= j ensures OccursAt(s[1..], sub, j - 1) <==> OccursAt(s, sub, j) {
        OccursAtTail(s, sub, j - 1);
      }
      assert !OccursAt(s, sub, 0);
      if k == -1 then -1 else k + 1
  }

  /** String.lastIndexOf(String): the last index at which `sub` occurs, or -1. */
  function LastIndexOf(s: string, sub: string): (r: int)
    ensures -1 <= r <= |s|
    ensures r == -1 || OccursAt(s, sub, r)
    ensures forall k :: r < k ==> !OccursAt(s, sub, k)
    decreases |s|
  {
    if |sub| > |s| then -1
    else if s[|s| - |sub|..] == sub then |s| - |sub|
    else
      assert |s| > 0;
      var k := LastIndexOf(s[..|s| - 1], sub);
      forall j | j + |sub| <= |s| - 1 ensures OccursAt(s[..|s| - 1], sub, j) <==> OccursAt(s, sub, j) {
        OccursAtInit(s, sub, j);
      }
      assert !OccursAt(s, sub, |s| - |sub|);
      k
  }

  /** `s` with every space character removed. */
  function Strip(s: string): string
  {
    if s == [] then [] else (if s[0] == ' ' then [] else [s[0]]) + Strip(s[1..])
  }

  lemma {:induction false} StripRemovesSpaces(s: string)
    ensures ' ' !in Strip(s) && |Strip(s)| <= |s|
    ensures ' ' !in s ==> Strip(s) == s
    decreases |s|
  {
    if s != [] {
      StripRemovesSpaces(s[1..]);
    }
  }

  lemma {:induction false} StripConcat(a: string, b: string)
    ensures Strip(a + b) == Strip(a) + Strip(b)
    decreases |a|
  {
    if a == [] {
      assert a + b == b;
    } else {
      assert (a + b)[1..] == a[1..] + b;
      StripConcat(a[1..], b);
    }
  }

  /** Every piece of `s` between single separator characters, the empty ones included. */
  function Pieces(s: string, seps: set<char>): (ps: seq<string>)
    ensures |ps| > 0
  {
    if s == [] then [""]
    else
      var rest := Pieces(s[1..], seps);
      if s[0] in seps then [""] + rest
      else [[s[0]] + rest[0]] + rest[1..]
  }

  /** `ps` without its trailing empty strings. */
  function DropTrailingEmpty(ps: seq<string>): (r: seq<string>)
    ensures |r| <= |ps| && r == ps[..|r|]
    ensures |r| > 0 ==> r[|r| - 1] != ""
    ensures forall i :: |r| <= i < |ps| ==> ps[i] == ""
  {
    if ps == [] then []
    else if ps[|ps| - 1] == "" then DropTrailingEmpty(ps[..|ps| - 1])
    else ps
  }

  /**
   * String.split with a single-character separator class: the pieces between
   * separators, leading empty pieces kept and trailing ones dropped.
   */
  function Split(s: string, seps: set<char>): seq<string>
  {
    if s == [] then [""] else DropTrailingEmpty(Pieces(s, seps))
  }

  /** String.split(" "). */
  function SplitOnSpace(s: string): seq<string> {
    Split(s, {' '})
  }

  /** String.join(delim, parts). */
  function Join(delim: string, parts: seq<string>): string {
    if parts == [] then ""
    else if |parts| == 1 then parts[0]
    else parts[0] + delim + Join(delim, parts[1..])
  }

  lemma {:induction false} JoinEmptyAppend(ps: seq<string>, q: string)
    ensures Join("", ps + [q]) == Join("", ps) + q
    decreases |ps|
  {
    if ps == [] {
      assert ps + [q] == [q];
    } else if |ps| == 1 {
      assert (ps + [q])[1..] == [q];
    } else {
      assert (ps + [q])[1..] == ps[1..] + [q];
      JoinEmptyAppend(ps[1..], q);
    }
  }

  lemma {:induction false} JoinDropTrailingEmpty(ps: seq<string>)
    ensures Join("", DropTrailingEmpty(ps)) == Join("", ps)
    decreases |ps|
  {
    if ps != [] && ps[|ps| - 1] == "" {
      JoinDropTrailingEmpty(ps[..|ps| - 1]);
      JoinEmptyAppend(ps[..|ps| - 1], "");
      assert ps[..|ps| - 1] + [""] == ps;
    }
  }

  lemma {:induction false} JoinPieces(s: string)
    ensures Join("", Pieces(s, {' '})) == Strip(s)
    decreases |s|
  {
    if s != [] {
      var rest := Pieces(s[1..], {' '});
      JoinPieces(s[1..]);
      if s[0] == ' ' {
        assert Join("", [""] + rest) == "" + Join("", rest) by {
          if |rest| == 1 {
            assert [""] + rest == ["", rest[0]];
          } else {
            assert ([""] + rest)[1..] == rest;
          }
        }
      } else {
        var ps := [[s[0]] + rest[0]] + rest[1..];
        if |rest| == 1 {
          assert ps == [[s[0]] + rest[0]];
        } else {
          assert ps[1..] == rest[1..];
          assert Join("", rest) == rest[0] + Join("", rest[1..]);
        }
      }
    }
  }

  /** Joining the pieces of String.split(" ") with "" deletes the spaces. */
  lemma JoinSplitStrips(s: string)
    ensures Join("", SplitOnSpace(s)) == Strip(s)
  {
    if s != [] {
      JoinDropTrailingEmpty(Pieces(s, {' '}));
      JoinPieces(s);
    }
  }
}
