/** Splitting a list of type names at its top-level commas. */
module TypeNames {
  function Delta(c: char): int { if c == '(' then 1 else if c == ')' then -1 else 0 }

  /** Opening minus closing parentheses. */
  function Net(s: string): int {
    if s == "" then 0 else Net(s[..|s| - 1]) + Delta(s[|s| - 1])
  }

  lemma {:induction false} NetAppend(a: string, b: string)
    ensures Net(a + b) == Net(a) + Net(b)
  {
    if b == "" {
      assert a + b == a;
    } else {
      NetAppend(a, b[..|b| - 1]);
      assert (a + b)[..|a + b| - 1] == a + b[..|b| - 1];
    }
  }

  lemma {:induction false} NetSnoc(s: string, c: char)
    ensures Net(s + [c]) == Net(s) + Delta(c)
  {
    assert (s + [c])[..|s|] == s;
  }

  lemma {:induction false} NetCons(c: char, s: string)
    ensures Net([c] + s) == Delta(c) + Net(s)
  {
    NetAppend([c], s);
    assert [c][..0] == "";
  }

  /** No comma of `s` is outside all parentheses when `s` starts at depth `d`. */
  ghost predicate NoTopComma(s: string, d: int) {
    forall k :: 0 <= k < |s| && s[k] == ',' ==> d + Net(s[..k]) != 0
  }

  lemma {:induction false} NoTopCommaCons(c: char, s: string, d: int)
    ensures NoTopComma([c] + s, d) <==> !(c == ',' && d == 0) && NoTopComma(s, d + Delta(c))
  {
    if NoTopComma([c] + s, d) {
      NoTopCommaTail(c, s, d);
    }
    if !(c == ',' && d == 0) && NoTopComma(s, d + Delta(c)) {
      NoTopCommaHead(c, s, d);
    }
  }

  lemma {:induction false} NetNext(c: char, s: string, k: nat)
    requires k <= |s|
    ensures Net(([c] + s)[..k + 1]) == Delta(c) + Net(s[..k])
  {
    assert ([c] + s)[..k + 1] == [c] + s[..k];
    NetCons(c, s[..k]);
  }

  lemma {:induction false} NoTopCommaTail(c: char, s: string, d: int)
    requires NoTopComma([c] + s, d)
    ensures !(c == ',' && d == 0) && NoTopComma(s, d + Delta(c))
  {
    var t := [c] + s;
    assert t[0] == c && t[..0] == "";
    forall k | 0 <= k < |s| && s[k] == ',' ensures d + Delta(c) + Net(s[..k]) != 0 {
      assert t[k + 1] == ',';
      NetNext(c, s, k);
    }
  }

  lemma {:induction false} NoTopCommaHead(c: char, s: string, d: int)
    requires !(c == ',' && d == 0) && NoTopComma(s, d + Delta(c))
    ensures NoTopComma([c] + s, d)
  {
    var t := [c] + s;
    forall k | 0 <= k < |t| && t[k] == ',' ensures d + Net(t[..k]) != 0 {
      if k == 0 {
        assert t[..0] == "";
      } else {
        assert s[k - 1] == ',';
        NetNext(c, s, k - 1);
      }
    }
  }

  /** The pieces of `s` between the commas at depth zero, when `s` starts at depth `d`. */
  function SplitFrom(s: string, d: int): (ps: seq<string>)
    ensures |ps| > 0
    ensures forall i :: 0 <= i < |ps| ==> |ps[i]| <= |s|
  {
    if s == "" then [""]
    else
      var d' := d + Delta(s[0]);
      var rest := SplitFrom(s[1..], d');
      if s[0] == ',' && d' == 0 then [""] + rest else Before([s[0]], rest)
  }

  /** `p` put before the first piece. */
  function Before(p: string, ps: seq<string>): seq<string>
    requires |ps| > 0
  {
    [p + ps[0]] + ps[1..]
  }

  lemma {:induction false} BeforeNothing(ps: seq<string>)
    requires |ps| > 0
    ensures Before("", ps) == ps
  {
    assert "" + ps[0] == ps[0];
    assert ps == [ps[0]] + ps[1..];
  }

  lemma {:induction false} BeforeTwice(a: string, b: string, ps: seq<string>)
    requires |ps| > 0
    ensures Before(a, Before(b, ps)) == Before(a + b, ps)
  {
    assert a + (b + ps[0]) == a + b + ps[0];
  }

  lemma {:induction false} BeforeCut(p: string, ps: seq<string>)
    ensures Before(p, [""] + ps) == [p] + ps
  {
    assert p + "" == p;
  }

  lemma {:induction false} BeforeOne(p: string)
    ensures Before(p, [""]) == [p]
  {
    assert [""] + [] == [""];
    BeforeCut(p, []);
  }

  /** `split_with_parenthesis`. */
  method SplitWithParenthesis(s: string) returns (result: seq<string>)
    ensures result == SplitFrom(s, 0)
  {
    result := [];
    var current, parenthesis := "", 0;
    assert s[0..] == s;
    BeforeNothing(SplitFrom(s, 0));
    for i := 0 to |s|
      invariant SplitFrom(s, 0) == result + Before(current, SplitFrom(s[i..], parenthesis))
    {
      assert s[i..][1..] == s[i + 1..];
      ghost var d := parenthesis;
      if s[i] == '(' {
        parenthesis := parenthesis + 1;
      } else if s[i] == ')' {
        parenthesis := parenthesis - 1;
      }
      ghost var after := SplitFrom(s[i + 1..], parenthesis);
      if s[i] == ',' && parenthesis == 0 {
        assert SplitFrom(s[i..], d) == [""] + after;
        BeforeCut(current, after);
        BeforeNothing(after);
        assert result + ([current] + after) == (result + [current]) + after;
        result := result + [current];
        current := "";
      } else {
        assert SplitFrom(s[i..], d) == Before([s[i]], after);
        BeforeTwice(current, [s[i]], after);
        current := current + [s[i]];
      }
    }
    BeforeOne(current);
    result := result + [current];
  }

  function Join(ps: seq<string>): string
    requires |ps| > 0
  {
    if |ps| == 1 then ps[0] else ps[0] + "," + Join(ps[1..])
  }

  /** Joining the pieces with commas always gives the original string. */
  lemma {:induction false} JoinSplit(s: string, d: int)
    ensures Join(SplitFrom(s, d)) == s
  {
    if s != "" {
      var d' := d + Delta(s[0]);
      JoinSplit(s[1..], d');
      var rest := SplitFrom(s[1..], d');
      assert s == [s[0]] + s[1..];
      if s[0] == ',' && d' == 0 {
        assert ([""] + rest)[1..] == rest;
        assert "" + "," + s[1..] == s;
      } else {
        JoinPrefix([s[0]], rest);
      }
    }
  }

  lemma {:induction false} JoinPrefix(p: string, ps: seq<string>)
    requires |ps| > 0
    ensures Join(Before(p, ps)) == p + Join(ps)
  {
    var qs := Before(p, ps);
    assert |qs| == |ps| && qs[0] == p + ps[0] && qs[1..] == ps[1..];
    if |ps| > 1 {
      Associate(p, ps[0], ",", Join(ps[1..]));
    }
  }

  lemma {:induction false} Associate(a: string, b: string, c: string, d: string)
    ensures a + b + c + d == a + (b + c + d)
  {
  }

  lemma {:induction false} SplitKept(c: char, p: string, rest: string, d: int, ps: seq<string>)
    requires !(c == ',' && d == 0) && |ps| > 0 && SplitFrom(p + rest, d + Delta(c)) == Before(p, ps)
    ensures SplitFrom([c] + p + rest, d) == Before([c] + p, ps)
  {
    assert ([c] + p + rest)[1..] == p + rest;
    BeforeTwice([c], p, ps);
  }

  /** A front part without top-level comma stays in one piece. */
  lemma {:induction false} SplitKeeps(p: string, rest: string, d: int)
    requires NoTopComma(p, d)
    ensures SplitFrom(p + rest, d) == Before(p, SplitFrom(rest, d + Net(p)))
  {
    if p == "" {
      assert p + rest == rest;
      BeforeNothing(SplitFrom(rest, d));
    } else {
      var c, p' := p[0], p[1..];
      assert p == [c] + p';
      NoTopCommaCons(c, p', d);
      NetCons(c, p');
      SplitKeeps(p', rest, d + Delta(c));
      SplitKept(c, p', rest, d, SplitFrom(rest, d + Net(p)));
    }
  }

  /** A front part with a top-level comma does not. */
  lemma {:induction false} SplitCuts(p: string, rest: string, d: int)
    requires !NoTopComma(p, d)
    ensures |SplitFrom(p + rest, d)[0]| < |p|
  {
    assert p == [p[0]] + p[1..];
    NoTopCommaCons(p[0], p[1..], d);
    assert (p + rest)[1..] == p[1..] + rest;
    if !(p[0] == ',' && d == 0) {
      SplitCuts(p[1..], rest, d + Delta(p[0]));
    }
  }

  /** Pieces that splitting recovers: no top-level comma, and a comma after a piece is a top-level one. */
  ghost predicate Separable(ps: seq<string>) {
    && (forall i :: 0 <= i < |ps| ==> NoTopComma(ps[i], 0))
    && (forall i :: 0 <= i < |ps| - 1 ==> Net(ps[i]) == 0)
  }

  lemma {:induction false} SplitNext(p: string, rest: string)
    requires NoTopComma(p, 0) && Net(p) == 0
    ensures SplitFrom(p + "," + rest, 0) == [p] + SplitFrom(rest, 0)
  {
    SplitKeeps(p, "," + rest, 0);
    assert p + ("," + rest) == p + "," + rest;
    assert ("," + rest)[1..] == rest;
    BeforeCut(p, SplitFrom(rest, 0));
  }

  lemma {:induction false} SplitMisses(p: string, rest: string)
    requires !(NoTopComma(p, 0) && Net(p) == 0)
    ensures SplitFrom(p + "," + rest, 0)[0] != p
  {
    assert p + ("," + rest) == p + "," + rest;
    if NoTopComma(p, 0) {
      SplitKeeps(p, "," + rest, 0);
      var r := SplitFrom("," + rest, Net(p));
      assert |r[0]| > 0;
    } else {
      SplitCuts(p, "," + rest, 0);
    }
  }

  lemma {:induction false} SplitLast(p: string)
    ensures SplitFrom(p, 0) == [p] <==> NoTopComma(p, 0)
  {
    assert p + "" == p;
    if NoTopComma(p, 0) {
      SplitKeeps(p, "", 0);
      BeforeOne(p);
    } else {
      SplitCuts(p, "", 0);
    }
  }

  /** Splitting recovers exactly the separable lists. */
  lemma {:induction false} SplitJoinIff(ps: seq<string>)
    requires |ps| > 0
    ensures SplitFrom(Join(ps), 0) == ps <==> Separable(ps)
  {
    if |ps| == 1 {
      SplitLast(ps[0]);
      assert ps == [ps[0]];
    } else {
      var p, rest := ps[0], Join(ps[1..]);
      SplitJoinIff(ps[1..]);
      SeparableCons(ps);
      if NoTopComma(p, 0) && Net(p) == 0 {
        SplitNext(p, rest);
        assert ps == [p] + ps[1..];
      } else {
        SplitMisses(p, rest);
      }
    }
  }

  lemma {:induction false} SeparableCons(ps: seq<string>)
    requires |ps| > 1
    ensures Separable(ps) <==> NoTopComma(ps[0], 0) && Net(ps[0]) == 0 && Separable(ps[1..])
  {
    if Separable(ps[1..]) && NoTopComma(ps[0], 0) && Net(ps[0]) == 0 {
      forall i | 0 <= i < |ps| ensures NoTopComma(ps[i], 0) && (i < |ps| - 1 ==> Net(ps[i]) == 0) {
        if i > 0 {
          assert ps[1..][i - 1] == ps[i];
        }
      }
    }
  }

  // ---- well nested names ----

  /** Parentheses match: the depth never falls below where it started, and returns there. */
  ghost predicate Nested(s: string) {
    Net(s) == 0 && forall k :: 0 <= k <= |s| ==> Net(s[..k]) >= 0
  }

  lemma {:induction false} NestedAppend(a: string, b: string)
    requires Nested(a) && Nested(b)
    ensures Nested(a + b)
  {
    NetAppend(a, b);
    forall k | 0 <= k <= |a + b| ensures Net((a + b)[..k]) >= 0 {
      if k <= |a| {
        assert (a + b)[..k] == a[..k];
      } else {
        assert (a + b)[..k] == a + b[..k - |a|];
        NetAppend(a, b[..k - |a|]);
      }
    }
  }

  lemma {:induction false} NoParensNested(s: string)
    requires forall i :: 0 <= i < |s| ==> s[i] != '(' && s[i] != ')'
    ensures Nested(s)
  {
    forall k | 0 <= k <= |s| ensures Net(s[..k]) == 0 {
      NoParensFlat(s[..k]);
    }
    assert s[..|s|] == s;
  }

  lemma {:induction false} NoParensFlat(s: string)
    requires forall i :: 0 <= i < |s| ==> s[i] != '(' && s[i] != ')'
    ensures Net(s) == 0
  {
    if s != "" {
      NoParensFlat(s[..|s| - 1]);
    }
  }

  lemma {:induction false} JoinNested(ps: seq<string>)
    requires |ps| > 0 && forall i :: 0 <= i < |ps| ==> Nested(ps[i])
    ensures Nested(Join(ps))
  {
    if |ps| > 1 {
      JoinNested(ps[1..]);
      NoParensNested(",");
      NestedAppend(ps[0], ",");
      NestedAppend(ps[0] + ",", Join(ps[1..]));
    }
  }

  /** Parentheses around a nested text hide its commas. */
  lemma {:induction false} Enclosed(s: string)
    requires Nested(s)
    ensures Nested("(" + s + ")") && NoTopComma("(" + s + ")", 0)
  {
    var t := "(" + s + ")";
    forall k | 0 <= k <= |t| ensures Net(t[..k]) == if k == 0 || k == |t| then 0 else 1 + Net(s[..k - 1]) {
      EnclosedNet(s, k);
    }
    assert t[..|t|] == t;
  }

  lemma {:induction false} Parens(s: string)
    ensures "(" + s + ")" == ['('] + (s + [')'])
  {}

  lemma {:induction false} EnclosedNet(s: string, k: nat)
    requires Net(s) == 0 && k <= |s| + 2
    ensures Net(("(" + s + ")")[..k]) == if k == 0 || k == |s| + 2 then 0 else 1 + Net(s[..k - 1])
  {
    var t := "(" + s + ")";
    if k == |s| + 2 {
      assert t[..k] == t;
      Parens(s);
      NetSnoc(s, ')');
      NetCons('(', s + [')']);
    } else if k > 0 {
      assert t[..k] == ['('] + s[..k - 1];
      NetCons('(', s[..k - 1]);
    }
  }
}
