/**
  Precedence and grouping of the rule language, on concrete token sequences.
*/
module Precedence {
  import opened Wrappers
  import opened Values
  import opened Ast
  import opened Parser
  import L = Lexer

  /** `1 + 2 * 3`: multiplication binds tighter. */
  lemma TimesBeforePlus(f: Foreign)
    ensures Parse(f, [L.Number(1.0), L.Plus, L.Number(2.0), L.Times, L.Number(3.0)])
         == Some(Bop(Add, Numb(1.0), Bop(Mul, Numb(2.0), Numb(3.0))))
  {
    var ts := [L.Number(1.0), L.Plus, L.Number(2.0), L.Times, L.Number(3.0)];
    var product := Bop(Mul, Numb(2.0), Numb(3.0));
    var sum := Bop(Add, Numb(1.0), product);
    ProductTokens(f);
    assert ts[2..] == [L.Number(2.0), L.Times, L.Number(3.0)];
    assert Operand(f, ts) == POk(Numb(1.0), ts[1..]);
    assert MathTimesRest(f, Numb(1.0), ts[1..]) == POk(Numb(1.0), ts[1..]);
    assert MathTimes(f, ts) == POk(Numb(1.0), ts[1..]);
    assert MathExprRest(f, sum, []) == POk(sum, []);
    assert MathExprRest(f, Numb(1.0), ts[1..]) == POk(sum, []);
    assert MathExpr(f, ts) == POk(sum, []);
    assert CondPart(f, ts) == POk(sum, []);
  }

  lemma ProductTokens(f: Foreign)
    ensures MathTimes(f, [L.Number(2.0), L.Times, L.Number(3.0)]) == POk(Bop(Mul, Numb(2.0), Numb(3.0)), [])
  {
    var t := [L.Number(2.0), L.Times, L.Number(3.0)];
    assert t[1..][1..] == [L.Number(3.0)];
    assert Operand(f, [L.Number(3.0)]) == POk(Numb(3.0), []);
    assert MathTimesRest(f, Bop(Mul, Numb(2.0), Numb(3.0)), []) == POk(Bop(Mul, Numb(2.0), Numb(3.0)), []);
    assert MathTimesRest(f, Numb(2.0), t[1..]) == POk(Bop(Mul, Numb(2.0), Numb(3.0)), []);
  }

  /** ... and its value is 7. */
  lemma TimesBeforePlusValue(f: Foreign, data: Value)
    ensures Eval(f, Bop(Add, Numb(1.0), Bop(Mul, Numb(2.0), Numb(3.0))), data) == VNum(7.0)
  {
    assert Eval(f, Bop(Mul, Numb(2.0), Numb(3.0)), data) == VNum(6.0);
  }

  /** `a - b - c` groups to the left. */
  lemma MinusGroupsLeft(f: Foreign)
    ensures Parse(f, [L.Ident("a"), L.Minus, L.Ident("b"), L.Minus, L.Ident("c")])
         == Some(Bop(Sub, Bop(Sub, Var("a"), Var("b")), Var("c")))
  {
    var ts := [L.Ident("a"), L.Minus, L.Ident("b"), L.Minus, L.Ident("c")];
    var ab := Bop(Sub, Var("a"), Var("b"));
    assert MathTimes(f, ts) == POk(Var("a"), ts[1..]);
    assert MathTimes(f, ts[2..]) == POk(Var("b"), ts[3..]);
    assert MathTimes(f, ts[4..]) == POk(Var("c"), []);
    assert MathExprRest(f, Bop(Sub, ab, Var("c")), []) == POk(Bop(Sub, ab, Var("c")), []);
    assert MathExprRest(f, ab, ts[3..]) == POk(Bop(Sub, ab, Var("c")), []);
    assert MathExpr(f, ts) == POk(Bop(Sub, ab, Var("c")), []);
    assert CondPart(f, ts) == POk(Bop(Sub, ab, Var("c")), []);
  }

  /** `a / b / c` groups to the left. */
  lemma DivGroupsLeft(f: Foreign)
    ensures Parse(f, [L.Ident("a"), L.Divide, L.Ident("b"), L.Divide, L.Ident("c")])
         == Some(Bop(Div, Bop(Div, Var("a"), Var("b")), Var("c")))
  {
    var ts := [L.Ident("a"), L.Divide, L.Ident("b"), L.Divide, L.Ident("c")];
    var ab := Bop(Div, Var("a"), Var("b"));
    var abc := Bop(Div, ab, Var("c"));
    assert Operand(f, ts) == POk(Var("a"), ts[1..]);
    assert ts[1..][1..] == ts[2..];
    assert Operand(f, ts[2..]) == POk(Var("b"), ts[3..]);
    assert ts[3..][1..] == ts[4..];
    assert Operand(f, ts[4..]) == POk(Var("c"), []);
    assert MathTimesRest(f, abc, []) == POk(abc, []);
    assert MathTimesRest(f, ab, ts[3..]) == POk(abc, []);
    assert MathTimesRest(f, Var("a"), ts[1..]) == POk(abc, []);
    assert MathTimes(f, ts) == POk(abc, []);
    assert MathExpr(f, ts) == POk(abc, []);
    assert CondPart(f, ts) == POk(abc, []);
  }

  /** `-a * b` reads as `(-a) * b`: unary minus binds tighter than multiplication. */
  lemma UnaryBeforeTimes(f: Foreign)
    ensures Parse(f, [L.Minus, L.Ident("a"), L.Times, L.Ident("b")])
         == Some(Bop(Mul, UnMinus(Var("a")), Var("b")))
  {
    var ts := [L.Minus, L.Ident("a"), L.Times, L.Ident("b")];
    var prod := Bop(Mul, UnMinus(Var("a")), Var("b"));
    assert Operand(f, ts[1..]) == POk(Var("a"), ts[2..]);
    assert Operand(f, ts) == POk(UnMinus(Var("a")), ts[2..]);
    assert ts[2..][1..] == ts[3..];
    assert Operand(f, ts[3..]) == POk(Var("b"), []);
    assert MathTimesRest(f, prod, []) == POk(prod, []);
    assert MathTimesRest(f, UnMinus(Var("a")), ts[2..]) == POk(prod, []);
    assert MathTimes(f, ts) == POk(prod, []);
    assert MathExpr(f, ts) == POk(prod, []);
    assert CondPart(f, ts) == POk(prod, []);
  }

  /** `a or b and c` reads as `a or (b and c)`. */
  lemma AndBeforeOr(f: Foreign)
    ensures Parse(f, [L.Ident("a"), L.KwOr, L.Ident("b"), L.KwAnd, L.Ident("c")])
         == Some(Bop(Or, Var("a"), Bop(And, Var("b"), Var("c"))))
  {
    var ts := [L.Ident("a"), L.KwOr, L.Ident("b"), L.KwAnd, L.Ident("c")];
    SingleIdentPart(f, "a", ts[1..]);
    SingleIdentPart(f, "b", ts[3..]);
    SingleIdentPart(f, "c", []);
    assert [L.Ident("a")] + ts[1..] == ts;
    assert [L.Ident("b")] + ts[3..] == ts[2..];
    assert [L.Ident("c")] + [] == ts[4..];
    var bc := Bop(And, Var("b"), Var("c"));
    assert CondAndRest(f, Var("c"), []) == POk(Var("c"), []);
    assert CondAndRest(f, Var("b"), ts[3..]) == POk(bc, []);
    assert CondAnd(f, ts[2..]) == POk(bc, []);
    assert CondOrRest(f, bc, []) == POk(bc, []);
    assert CondAnd(f, ts) == POk(Var("a"), ts[1..]);
    assert CondOrRest(f, Var("a"), ts[1..]) == POk(Bop(Or, Var("a"), bc), []);
  }

  /** `a and b and c` reads as `a and (b and c)`. */
  lemma AndNestsRight(f: Foreign)
    ensures Parse(f, [L.Ident("a"), L.KwAnd, L.Ident("b"), L.KwAnd, L.Ident("c")])
         == Some(Bop(And, Var("a"), Bop(And, Var("b"), Var("c"))))
  {
    var ts := [L.Ident("a"), L.KwAnd, L.Ident("b"), L.KwAnd, L.Ident("c")];
    SingleIdentPart(f, "a", ts[1..]);
    SingleIdentPart(f, "b", ts[3..]);
    SingleIdentPart(f, "c", []);
    assert [L.Ident("a")] + ts[1..] == ts;
    assert [L.Ident("b")] + ts[3..] == ts[2..];
    assert [L.Ident("c")] + [] == ts[4..];
    var bc := Bop(And, Var("b"), Var("c"));
    assert CondAndRest(f, Var("c"), []) == POk(Var("c"), []);
    assert CondAndRest(f, Var("b"), ts[3..]) == POk(bc, []);
    assert CondAndRest(f, Var("a"), ts[1..]) == POk(Bop(And, Var("a"), bc), []);
    assert CondAnd(f, ts) == POk(Bop(And, Var("a"), bc), []);
  }

  /** `not a == b` negates the comparison. */
  lemma NotCoversComparison(f: Foreign)
    ensures Parse(f, [L.KwNot, L.Ident("a"), L.Eq, L.Ident("b")])
         == Some(UnNeg(Bop(Eq, Var("a"), Var("b"))))
  {
    var ts := [L.KwNot, L.Ident("a"), L.Eq, L.Ident("b")];
    var t1 := ts[1..];
    assert Operand(f, t1) == POk(Var("a"), t1[1..]);
    assert MathTimes(f, t1) == POk(Var("a"), t1[1..]);
    assert MathExpr(f, t1) == POk(Var("a"), t1[1..]);
    assert t1[1..][1..] == [L.Ident("b")];
    assert CompareOp(t1[1..]) == (Relation(Eq), [L.Ident("b")]);
    assert MathExpr(f, [L.Ident("b")]) == POk(Var("b"), []);
    assert CondPart(f, t1) == POk(Bop(Eq, Var("a"), Var("b")), []);
    assert CondPart(f, ts) == POk(UnNeg(Bop(Eq, Var("a"), Var("b"))), []);
  }

  /** The right side of `in` must be an attribute or a JSONPath, and `not` must be
      followed by `in`. */
  lemma MembershipErrors(f: Foreign)
    ensures Parse(f, [L.Ident("a"), L.KwIn, L.Str("b")]) == None
    ensures Parse(f, [L.Ident("a"), L.KwNot, L.Ident("b")]) == None
  {
    var t1 := [L.Ident("a"), L.KwIn, L.Str("b")];
    assert MathExpr(f, t1) == POk(Var("a"), t1[1..]);
    assert CondPart(f, t1) == PFail;
    var t2 := [L.Ident("a"), L.KwNot, L.Ident("b")];
    assert MathExpr(f, t2) == POk(Var("a"), t2[1..]);
    assert t2[1..][1..] == [L.Ident("b")];
    assert CondPart(f, t2) == PFail;
  }

  /** Tokens left over after a complete condition are an error. */
  lemma TrailingTokensRejected(f: Foreign)
    ensures Parse(f, [L.Ident("a"), L.Ident("b")]) == None
  {
    SingleIdentPart(f, "a", [L.Ident("b")]);
    assert [L.Ident("a")] + [L.Ident("b")] == [L.Ident("a"), L.Ident("b")];
  }

  /** An attribute followed by a token that ends a condition part. */
  lemma SingleIdentPart(f: Foreign, x: string, t: seq<L.Token>)
    requires t == [] || t[0] in {L.KwAnd, L.KwOr, L.Ident("b")}
    ensures CondPart(f, [L.Ident(x)] + t) == POk(Var(x), t)
  {
    var ts := [L.Ident(x)] + t;
    assert ts[1..] == t;
    assert MathTimes(f, ts) == POk(Var(x), t);
    assert MathExpr(f, ts) == POk(Var(x), t);
  }
}
