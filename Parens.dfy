/** Parenthesis balance of expression text: the invariant behind "every
    sub-expression is wrapped in parentheses, so the text parses with the same
    structure however deeply it is nested". */
module Parens {

  function Step(c: char): int {
    if c == '(' then 1 else if c == ')' then -1 else 0
  }

  /** Open parentheses minus closing ones. */
  function Depth(s: string): int {
    if s == [] then 0 else Depth(s[..|s| - 1]) + Step(s[|s| - 1])
  }

  /** Every prefix closes no more than it opened, and the whole closes all. */
  predicate Balanced(s: string) {
    Depth(s) == 0 && forall k :: 0 <= k <= |s| ==> Depth(s[..k]) >= 0
  }

  /** Text without parentheses, such as an operator symbol or a function name. */
  predicate NoParens(s: string) {
    '(' !in s && ')' !in s
  }

  lemma {:induction false} DepthConcat(a: string, b: string)
    ensures Depth(a + b) == Depth(a) + Depth(b)
  {
    if b == [] {
      assert a + b == a;
    } else {
      var ab := a + b;
      assert ab[..|ab| - 1] == a + b[..|b| - 1];
      assert ab[|ab| - 1] == b[|b| - 1];
      DepthConcat(a, b[..|b| - 1]);
    }
  }

  lemma {:induction false} NoParensDepth(s: string)
    requires NoParens(s)
    ensures Depth(s) == 0
  {
    if s != [] {
      assert s[|s| - 1] in s;
      assert forall c :: c in s[..|s| - 1] ==> c in s;
      NoParensDepth(s[..|s| - 1]);
    }
  }

  lemma NoParensBalanced(s: string)
    requires NoParens(s)
    ensures Balanced(s)
  {
    NoParensDepth(s);
    forall k | 0 <= k <= |s| ensures Depth(s[..k]) >= 0 {
      assert forall c :: c in s[..k] ==> c in s;
      NoParensDepth(s[..k]);
    }
  }

  lemma BalancedConcat(a: string, b: string)
    requires Balanced(a) && Balanced(b)
    ensures Balanced(a + b)
  {
    DepthConcat(a, b);
    forall k | 0 <= k <= |a + b| ensures Depth((a + b)[..k]) >= 0 {
      if k <= |a| {
        assert (a + b)[..k] == a[..k];
      } else {
        assert (a + b)[..k] == a + b[..k - |a|];
        DepthConcat(a, b[..k - |a|]);
      }
    }
  }

  /** Inside an opened group a balanced text never returns to depth zero. */
  lemma BalancedOpen(a: string, k: nat)
    requires Balanced(a) && k <= |a|
    ensures Depth(("(" + a)[..k + 1]) >= 1
  {
    assert ("(" + a)[..k + 1] == "(" + a[..k];
    DepthConcat("(", a[..k]);
  }

  lemma BalancedWrap(a: string)
    requires Balanced(a)
    ensures Balanced("(" + a + ")")
  {
    var w := "(" + a + ")";
    DepthConcat("(" + a, ")");
    DepthConcat("(", a);
    forall k | 0 <= k <= |w| ensures Depth(w[..k]) >= 0 {
      if k == 0 {
        assert w[..k] == [];
      } else if k <= |a| + 1 {
        assert w[..k] == ("(" + a)[..(k - 1) + 1];
        BalancedOpen(a, k - 1);
      } else {
        assert w[..k] == w;
      }
    }
  }

  /** A balanced text in front of a closing parenthesis ends the group that an
      opening parenthesis started: the first group of a text is unique. */
  lemma FirstGroupUnique(a1: string, r1: string, a2: string, r2: string)
    requires Balanced(a1) && Balanced(a2)
    requires "(" + a1 + ")" + r1 == "(" + a2 + ")" + r2
    ensures a1 == a2 && r1 == r2
  {
    var s := "(" + a1 + ")" + r1;
    NoLongerGroup(a1, r1, a2, r2);
    NoLongerGroup(a2, r2, a1, r1);
    assert a1 == s[1..|a1| + 1] == a2;
    assert r1 == s[|a1| + 2..] == r2;
  }

  lemma NoLongerGroup(a1: string, r1: string, a2: string, r2: string)
    requires Balanced(a1) && Balanced(a2)
    requires "(" + a1 + ")" + r1 == "(" + a2 + ")" + r2
    ensures |a2| <= |a1|
  {
    if |a1| < |a2| {
      var s := "(" + a1 + ")" + r1;
      var n := |a1| + 2;
      assert s[..n] == "(" + a1 + ")";
      DepthConcat("(" + a1, ")");
      DepthConcat("(", a1);
      assert s[..n] == ("(" + a2)[..(|a1| + 1) + 1];
      BalancedOpen(a2, |a1| + 1);
      assert false;
    }
  }
}
