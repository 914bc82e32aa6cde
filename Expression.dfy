/** The HFSS expression generator: an immutable value holding the text of an
    HFSS expression, whose arithmetic operators build the text of a larger
    expression from a fixed template. Nothing is evaluated or simplified. */
module Expressions {
  import opened PyFormat
  import opened Parens

  /** An operand of an operator: another Expression, or a plain Python value
      (a number or a string) given by the text `str()` makes of it. */
  datatype Operand = Expr(e: Expression) | Literal(text: string)

  datatype Error = NotImplementedError(message: string)

  /** What an operator call gives back: an Expression, or the exception it raises. */
  datatype Outcome = Ok(value: Expression) | Raised(error: Error)

  const IntegerDivisionMessage: string :=
    "Integer division is not implemented by\ndesign.  Please use from __future__ import division in the calling code."

  /** The `str.format` templates of the operators; field 0 is `str(self)`, field 1 is `str(y)`. */
  const AbsTemplate: string := "abs({0})"
  const AddTemplate: string := "({0}) + ({1})"
  const RAddTemplate: string := "({1}) + ({0})"
  const SubTemplate: string := "({0}) - ({1})"
  const RSubTemplate: string := "({1}) - ({0})"
  const MulTemplate: string := "({0}) * ({1})"
  const RMulTemplate: string := "({1}) * ({0})"
  const TrueDivTemplate: string := "({0}) / ({1})"
  const RTrueDivTemplate: string := "{1} / ({0})"
  const NegTemplate: string := "-({0})"
  const PowTemplate: string := "({0}) ^ ({1})"
  const RPowTemplate: string := "({1}) ^ ({0})"

  /** `str(y)`: the text of an Expression, or the literal's own text. */
  function Text(y: Operand): (r: string)
    ensures y.Literal? ==> r == y.text
    ensures y.Expr? ==> Expression(r) == y.e
  {
    match y
    case Expr(e) => e.Str()
    case Literal(t) => t
  }

  /** `Expression(x)`: keeps `str(x)` as the expression text. */
  function Construct(x: Operand): (r: Expression)
    ensures r.Str() == Text(x)
    ensures x.Expr? ==> r == x.e
  {
    Expression(Text(x))
  }

  datatype Expression = Expression(expr: string) {

    /** `str(self)`: the stored text, from which the Expression is rebuilt. */
    function Str(): (r: string)
      ensures Expression(r) == this
    {
      expr
    }

    /** `repr(self)`: the same text as `str(self)`. */
    function Repr(): (r: string)
      ensures r == Str()
    {
      expr
    }

    /** `abs(self)` */
    function Abs(): (r: Expression)
      ensures r.expr == "abs(" + expr + ")"
    {
      FormatOneField(AbsTemplate, "abs(", 0, ")", [Str()]);
      Expression(Format(AbsTemplate, [Str()]))
    }

    /** `self + y` */
    function Add(y: Operand): (r: Expression)
      ensures r.expr == "(" + expr + ") + (" + Text(y) + ")"
    {
      FormatTwoFields(AddTemplate, "(", 0, ") + (", 1, ")", [Str(), Text(y)]);
      Expression(Format(AddTemplate, [Str(), Text(y)]))
    }

    /** `y + self` */
    function RAdd(y: Operand): (r: Expression)
      ensures r.expr == "(" + Text(y) + ") + (" + expr + ")"
    {
      FormatTwoFields(RAddTemplate, "(", 1, ") + (", 0, ")", [Str(), Text(y)]);
      Expression(Format(RAddTemplate, [Str(), Text(y)]))
    }

    /** `self - y` */
    function Sub(y: Operand): (r: Expression)
      ensures r.expr == "(" + expr + ") - (" + Text(y) + ")"
    {
      FormatTwoFields(SubTemplate, "(", 0, ") - (", 1, ")", [Str(), Text(y)]);
      Expression(Format(SubTemplate, [Str(), Text(y)]))
    }

    /** `y - self` */
    function RSub(y: Operand): (r: Expression)
      ensures r.expr == "(" + Text(y) + ") - (" + expr + ")"
    {
      FormatTwoFields(RSubTemplate, "(", 1, ") - (", 0, ")", [Str(), Text(y)]);
      Expression(Format(RSubTemplate, [Str(), Text(y)]))
    }

    /** `self * y` */
    function Mul(y: Operand): (r: Expression)
      ensures r.expr == "(" + expr + ") * (" + Text(y) + ")"
    {
      FormatTwoFields(MulTemplate, "(", 0, ") * (", 1, ")", [Str(), Text(y)]);
      Expression(Format(MulTemplate, [Str(), Text(y)]))
    }

    /** `y * self` */
    function RMul(y: Operand): (r: Expression)
      ensures r.expr == "(" + Text(y) + ") * (" + expr + ")"
    {
      FormatTwoFields(RMulTemplate, "(", 1, ") * (", 0, ")", [Str(), Text(y)]);
      Expression(Format(RMulTemplate, [Str(), Text(y)]))
    }

    /** `self / y` (true division) */
    function TrueDiv(y: Operand): (r: Expression)
      ensures r.expr == "(" + expr + ") / (" + Text(y) + ")"
    {
      FormatTwoFields(TrueDivTemplate, "(", 0, ") / (", 1, ")", [Str(), Text(y)]);
      Expression(Format(TrueDivTemplate, [Str(), Text(y)]))
    }

    /** `y / self` (true division); the left operand is not parenthesised. */
    function RTrueDiv(y: Operand): (r: Expression)
      ensures r.expr == Text(y) + " / (" + expr + ")"
    {
      FormatTwoFields(RTrueDivTemplate, "", 1, " / (", 0, ")", [Str(), Text(y)]);
      Expression(Format(RTrueDivTemplate, [Str(), Text(y)]))
    }

    /** Old-style (integer) division `self / y` is refused. */
    function Div(y: Operand): (r: Outcome)
      ensures r.Raised? && r.error.message == IntegerDivisionMessage
    {
      Raised(NotImplementedError(IntegerDivisionMessage))
    }

    /** Old-style (integer) division `y / self` is refused. */
    function RDiv(y: Operand): (r: Outcome)
      ensures r.Raised? && r.error.message == IntegerDivisionMessage
    {
      Raised(NotImplementedError(IntegerDivisionMessage))
    }

    /** `-self` */
    function Neg(): (r: Expression)
      ensures r.expr == "-(" + expr + ")"
    {
      FormatOneField(NegTemplate, "-(", 0, ")", [Str()]);
      Expression(Format(NegTemplate, [Str()]))
    }

    /** `self ** y`: HFSS writes the power operator `^`. */
    function Pow(y: Operand): (r: Expression)
      ensures r.expr == "(" + expr + ") ^ (" + Text(y) + ")"
    {
      FormatTwoFields(PowTemplate, "(", 0, ") ^ (", 1, ")", [Str(), Text(y)]);
      Expression(Format(PowTemplate, [Str(), Text(y)]))
    }

    /** `y ** self` */
    function RPow(y: Operand): (r: Expression)
      ensures r.expr == "(" + Text(y) + ") ^ (" + expr + ")"
    {
      FormatTwoFields(RPowTemplate, "(", 1, ") ^ (", 0, ")", [Str(), Text(y)]);
      Expression(Format(RPowTemplate, [Str(), Text(y)]))
    }
  }

  /** `str()` and `repr()` give back the text the Expression was made from,
      and making an Expression from an Expression keeps it as it is. */
  lemma StrRoundTrip(e: Expression, s: string)
    ensures Construct(Literal(e.Str())) == e && Construct(Literal(s)).Str() == s
    ensures e.Repr() == e.Str()
    ensures Construct(Expr(e)) == e
  {
  }

  /** The five binary operators, each with a forward (`self op y`) and a
      reflected (`y op self`) form. */
  datatype BinOp = Plus | Minus | Times | Over | Power

  /** What a forward operator writes between its two operands: HFSS's symbol
      for it, between the group it closes and the group it opens. */
  function Infix(op: BinOp): string {
    match op
    case Plus => ") + ("
    case Minus => ") - ("
    case Times => ") * ("
    case Over => ") / ("
    case Power => ") ^ ("
  }

  /** `self op y` */
  function Forward(op: BinOp, a: Expression, y: Operand): Expression {
    match op
    case Plus => a.Add(y)
    case Minus => a.Sub(y)
    case Times => a.Mul(y)
    case Over => a.TrueDiv(y)
    case Power => a.Pow(y)
  }

  /** `y op self` */
  function Reflected(op: BinOp, a: Expression, y: Operand): Expression {
    match op
    case Plus => a.RAdd(y)
    case Minus => a.RSub(y)
    case Times => a.RMul(y)
    case Over => a.RTrueDiv(y)
    case Power => a.RPow(y)
  }

  /** Every forward operator writes both operands in parentheses around its symbol. */
  lemma ForwardText(op: BinOp, a: Expression, y: Operand)
    ensures Forward(op, a, y).expr == "(" + a.expr + Infix(op) + Text(y) + ")"
  {
  }

  /** The text of a binary form as its three parts: the left group, the bare
      symbol, the right group. */
  lemma Regroup(left: string, infix: string, right: string)
    requires |infix| == 5 && infix[0] == ')' && infix[4] == '('
    ensures "(" + left + infix + right + ")" == ("(" + left + ")") + (infix[1..4] + ("(" + right + ")"))
  {
    assert infix == [')'] + infix[1..4] + ['('];
  }

  /** The right operand is read back from what follows the left group. */
  lemma RightOperand(mid: string, right: string)
    requires |mid| == 3
    ensures (mid + ("(" + right + ")"))[4..4 + |right|] == right
  {
  }

  /** The reflected operators swap the operands of the forward form, except true
      division, whose reflected form leaves the left operand bare. */
  lemma ReflectedSwaps(op: BinOp, a: Expression, y: Operand)
    ensures Reflected(op, a, y) == Forward(op, Construct(y), Expr(a)) <==> op != Over
  {
    ForwardText(op, Construct(y), Expr(a));
    if op == Over {
      assert |Reflected(op, a, y).expr| < |Forward(op, Construct(y), Expr(a)).expr|;
    }
  }

  /** No information is lost: when the left operand's parentheses are balanced,
      the text of `self op y` determines the operator and both operands, so it
      reads back with the structure it was built with. */
  lemma ForwardReadBack(op1: BinOp, a1: Expression, y1: Operand, op2: BinOp, a2: Expression, y2: Operand)
    requires Balanced(a1.expr) && Balanced(a2.expr)
    requires Forward(op1, a1, y1) == Forward(op2, a2, y2)
    ensures op1 == op2 && a1 == a2 && Text(y1) == Text(y2)
  {
    ForwardText(op1, a1, y1);
    ForwardText(op2, a2, y2);
    var r1 := Infix(op1)[1..4] + ("(" + Text(y1) + ")");
    var r2 := Infix(op2)[1..4] + ("(" + Text(y2) + ")");
    Regroup(a1.expr, Infix(op1), Text(y1));
    Regroup(a2.expr, Infix(op2), Text(y2));
    FirstGroupUnique(a1.expr, r1, a2.expr, r2);
    assert Infix(op1)[2] == r1[1] == r2[1] == Infix(op2)[2];
    RightOperand(Infix(op1)[1..4], Text(y1));
    RightOperand(Infix(op2)[1..4], Text(y2));
  }

  /** The same for `y op self`, whose left operand is `y`. */
  lemma ReflectedReadBack(op1: BinOp, a1: Expression, y1: Operand, op2: BinOp, a2: Expression, y2: Operand)
    requires op1 != Over && op2 != Over
    requires Balanced(Text(y1)) && Balanced(Text(y2))
    requires Reflected(op1, a1, y1) == Reflected(op2, a2, y2)
    ensures op1 == op2 && a1 == a2 && Text(y1) == Text(y2)
  {
    ReflectedSwaps(op1, a1, y1);
    ReflectedSwaps(op2, a2, y2);
    ForwardReadBack(op1, Construct(y1), Expr(a1), op2, Construct(y2), Expr(a2));
  }

  /** Negation and `abs` are read back as well, and no two kinds of operation
      write the same text: the parenthesised binary forms open with `(`,
      negation with `-`, `abs` with `a`. `y / self` opens with `str(y)` and is
      the exception (see `ReflectedOverMeetsNeg`). */
  lemma UnaryReadBack(a: Expression, b: Expression, op: BinOp, c: Expression, y: Operand)
    ensures a.Neg() == b.Neg() ==> a == b
    ensures a.Abs() == b.Abs() ==> a == b
    ensures a.Neg() != b.Abs()
    ensures Forward(op, c, y) != a.Neg() && Forward(op, c, y) != a.Abs()
    ensures op != Over ==> Reflected(op, c, y) != a.Neg() && Reflected(op, c, y) != a.Abs()
  {
    if a.Neg() == b.Neg() {
      assert a.expr == a.Neg().expr[2..|a.Neg().expr| - 1];
    }
    if a.Abs() == b.Abs() {
      assert a.expr == a.Abs().expr[4..|a.Abs().expr| - 1];
    }
    assert a.Neg().expr[0] == '-' && b.Abs().expr[0] == 'a';
    ForwardText(op, c, y);
    assert Forward(op, c, y).expr[0] == '(';
    if op != Over {
      ReflectedSwaps(op, c, y);
      ForwardText(op, Construct(y), Expr(c));
      assert Reflected(op, c, y).expr[0] == '(';
    }
  }

  /** Reflected true division leaves its left operand bare, so it can write
      the same text as a negation: `"-(p)" / Expression("q")` and
      `-Expression("p) / (q")` are both `-(p) / (q)`. */
  lemma ReflectedOverMeetsNeg()
    ensures Expression("q").RTrueDiv(Literal("-(p)")) == Expression("p) / (q").Neg()
  {
    assert "-(p)" + " / (" + "q" + ")" == "-(" + "p) / (q" + ")";
  }

  /** `sub` appears verbatim somewhere in `s`. */
  predicate Occurs(sub: string, s: string) {
    exists i :: 0 <= i <= |s| - |sub| && OccursAt(sub, s, i)
  }

  predicate OccursAt(sub: string, s: string, i: nat)
    requires i + |sub| <= |s|
  {
    s[i..i + |sub|] == sub
  }

  /** Nothing is simplified away: the result holds each operand's text verbatim
      and is strictly longer than either. */
  lemma ForwardKeepsOperands(op: BinOp, a: Expression, y: Operand)
    ensures var t := Forward(op, a, y).expr;
      Occurs(a.expr, t) && Occurs(Text(y), t) && |t| > |a.expr| && |t| > |Text(y)|
  {
    ForwardText(op, a, y);
    var t := Forward(op, a, y).expr;
    assert OccursAt(a.expr, t, 1);
    assert OccursAt(Text(y), t, |a.expr| + 6);
  }

  lemma ReflectedKeepsOperands(op: BinOp, a: Expression, y: Operand)
    ensures var t := Reflected(op, a, y).expr;
      Occurs(a.expr, t) && Occurs(Text(y), t) && |t| > |a.expr| && |t| > |Text(y)|
  {
    var t := Reflected(op, a, y).expr;
    if op == Over {
      assert OccursAt(Text(y), t, 0);
      assert OccursAt(a.expr, t, |Text(y)| + 4);
    } else {
      ReflectedSwaps(op, a, y);
      ForwardKeepsOperands(op, Construct(y), Expr(a));
    }
  }

  lemma UnaryKeepsOperand(a: Expression)
    ensures Occurs(a.expr, a.Neg().expr) && |a.Neg().expr| > |a.expr|
    ensures Occurs(a.expr, a.Abs().expr) && |a.Abs().expr| > |a.expr|
  {
    assert OccursAt(a.expr, a.Neg().expr, 2);
    assert OccursAt(a.expr, a.Abs().expr, 4);
  }

  /** Operators keep parentheses balanced: built from balanced texts, every
      result is balanced again, so nesting never leaves a group open. */
  lemma ForwardBalanced(op: BinOp, a: Expression, y: Operand)
    requires Balanced(a.expr) && Balanced(Text(y))
    ensures Balanced(Forward(op, a, y).expr)
  {
    ForwardText(op, a, y);
    Regroup(a.expr, Infix(op), Text(y));
    var mid := Infix(op)[1..4];
    assert NoParens(mid);
    BalancedWrap(a.expr);
    BalancedWrap(Text(y));
    NoParensBalanced(mid);
    BalancedConcat(mid, "(" + Text(y) + ")");
    BalancedConcat("(" + a.expr + ")", mid + ("(" + Text(y) + ")"));
  }

  lemma ReflectedBalanced(op: BinOp, a: Expression, y: Operand)
    requires Balanced(a.expr) && Balanced(Text(y))
    ensures Balanced(Reflected(op, a, y).expr)
  {
    if op == Over {
      BalancedWrap(a.expr);
      NoParensBalanced(" / ");
      BalancedConcat(Text(y), " / ");
      BalancedConcat(Text(y) + " / ", "(" + a.expr + ")");
      assert Reflected(op, a, y).expr == Text(y) + " / " + ("(" + a.expr + ")");
    } else {
      ReflectedSwaps(op, a, y);
      ForwardBalanced(op, Construct(y), Expr(a));
    }
  }

  lemma UnaryBalanced(a: Expression)
    requires Balanced(a.expr)
    ensures Balanced(a.Neg().expr) && Balanced(a.Abs().expr)
  {
    BalancedWrap(a.expr);
    NoParensBalanced("-");
    NoParensBalanced("abs");
    BalancedConcat("-", "(" + a.expr + ")");
    BalancedConcat("abs", "(" + a.expr + ")");
    assert a.Neg().expr == "-" + ("(" + a.expr + ")");
    assert a.Abs().expr == "abs" + ("(" + a.expr + ")");
  }

  /** The worked example of the module: nested sums, quotients and products of
      a length with a unit suffix. */
  lemma LengthExample(a: Expression)
    requires a == Construct(Literal("0.010in"))
    ensures var b := a.Add(Literal("2"));
      && b.Str() == "(0.010in) + (2)"
      && a.Add(Expr(b)).TrueDiv(Expr(a)).Str() == "((0.010in) + ((0.010in) + (2))) / (0.010in)"
      && a.TrueDiv(Expr(a.Add(Expr(b)))).Str() == "(0.010in) / ((0.010in) + ((0.010in) + (2)))"
      && a.Add(Expr(b)).Mul(Expr(a)).Str() == "((0.010in) + ((0.010in) + (2))) * (0.010in)"
      && a.Mul(Expr(a.Add(Expr(b)))).Str() == "(0.010in) * ((0.010in) + ((0.010in) + (2)))"
  {
    var b := a.Add(Literal("2"));
    var s := a.Add(Expr(b));
    ExampleSumText();
    ExampleNestedSumText();
    ExampleQuotientText();
    ExampleDivisorText();
    ExampleProductText();
    ExampleFactorText();
    assert b.expr == "(" + "0.010in" + ") + (" + "2" + ")";
    assert s.expr == "(" + "0.010in" + ") + (" + "(0.010in) + (2)" + ")";
    assert s.TrueDiv(Expr(a)).expr == "(" + "(0.010in) + ((0.010in) + (2))" + ") / (" + "0.010in" + ")";
    assert a.TrueDiv(Expr(s)).expr == "(" + "0.010in" + ") / (" + "(0.010in) + ((0.010in) + (2))" + ")";
    assert s.Mul(Expr(a)).expr == "(" + "(0.010in) + ((0.010in) + (2))" + ") * (" + "0.010in" + ")";
    assert a.Mul(Expr(s)).expr == "(" + "0.010in" + ") * (" + "(0.010in) + ((0.010in) + (2))" + ")";
  }

  // The example's texts, spelled out one by one. Each literal equality is a
  // lemma of its own: asserted together inside `LengthExample`, the string
  // concatenations make the proof unstable across solver seeds.

  lemma ExampleSumText()
    ensures "(" + "0.010in" + ") + (" + "2" + ")" == "(0.010in) + (2)"
  {
  }

  lemma ExampleNestedSumText()
    ensures "(" + "0.010in" + ") + (" + "(0.010in) + (2)" + ")" == "(0.010in) + ((0.010in) + (2))"
  {
  }

  lemma ExampleQuotientText()
    ensures "(" + "(0.010in) + ((0.010in) + (2))" + ") / (" + "0.010in" + ")" == "((0.010in) + ((0.010in) + (2))) / (0.010in)"
  {
  }

  lemma ExampleDivisorText()
    ensures "(" + "0.010in" + ") / (" + "(0.010in) + ((0.010in) + (2))" + ")" == "(0.010in) / ((0.010in) + ((0.010in) + (2)))"
  {
  }

  lemma ExampleProductText()
    ensures "(" + "(0.010in) + ((0.010in) + (2))" + ") * (" + "0.010in" + ")" == "((0.010in) + ((0.010in) + (2))) * (0.010in)"
  {
  }

  lemma ExampleFactorText()
    ensures "(" + "0.010in" + ") * (" + "(0.010in) + ((0.010in) + (2))" + ")" == "(0.010in) * ((0.010in) + ((0.010in) + (2)))"
  {
  }
}
