/**
  Writing a tree back as tokens, fully parenthesised, and the round trip of the
  parser: parsing the tokens of a tree gives the tree back. Together with the
  lexer round trip this says the rule language can spell every tree the parser
  can build, and that the parser's precedence and nesting are unambiguous.
*/
module Unparse {
  import opened Wrappers
  import opened Ast
  import opened Parser
  import L = Lexer

  /** Trees the parser can produce: `in` tests against an attribute or a JSONPath,
      and only JSONPath queries the library accepts. */
  predicate Parsable(f: Foreign, e: Expr)
  {
    match e
    case Var(_) => true
    case JsonPath(q) => f.jsonPathValid(q)
    case Numb(_) => true
    case Str(_) => true
    case Bop(_, l, r) => Parsable(f, l) && Parsable(f, r)
    case In(item, c, _) =>
      Parsable(f, item) && (c.Var? || (c.JsonPath? && f.jsonPathValid(c.query)))
    case UnMinus(x) => Parsable(f, x)
    case UnNeg(x) => Parsable(f, x)
  }

  function OpToken(op: BinOp): L.Token
  {
    match op
    case Add => L.Plus
    case Sub => L.Minus
    case Mul => L.Times
    case Div => L.Divide
    case Eq => L.Eq
    case Neq => L.Neq
    case Lt => L.Lt
    case Gt => L.Gt
    case Le => L.Lte
    case Ge => L.Gte
    case And => L.KwAnd
    case Or => L.KwOr
  }

  function Paren(ts: seq<L.Token>): seq<L.Token>
  {
    [L.LPar] + ts + [L.RPar]
  }

  /** Tokens of a tree, every compound operand in parentheses. */
  function Tokens(e: Expr): seq<L.Token>
  {
    match e
    case Var(x) => [L.Ident(x)]
    case JsonPath(q) => [L.JsonPath(q)]
    case Numb(n) => [L.Number(n)]
    case Str(t) => [L.Str(t)]
    case Bop(op, l, r) => Paren(Tokens(l)) + ([OpToken(op)] + Paren(Tokens(r)))
    case In(item, c, positive) => Paren(Tokens(item)) + InTail(c, positive, [])
    case UnMinus(x) => [L.Minus] + Paren(Tokens(x))
    case UnNeg(x) => [L.KwNot] + Paren(Tokens(x))
  }

  /** The tokens that may follow a complete condition: end of input or ')'. */
  predicate Closing(t: seq<L.Token>)
  {
    t == [] || t[0] == L.RPar
  }

  // ---------------------------------------------------------------------------
  // The round trip

  /** Parsing the tokens of a tree gives the tree back. */
  lemma ParseTokens(f: Foreign, e: Expr)
    requires Parsable(f, e)
    ensures Parse(f, Tokens(e)) == Some(e)
  {
    CondOrTokens(f, e, []);
    assert Tokens(e) + [] == Tokens(e);
  }

  lemma {:induction false} CondOrTokens(f: Foreign, e: Expr, t: seq<L.Token>)
    requires Parsable(f, e)
    requires Closing(t)
    ensures CondOr(f, Tokens(e) + t) == POk(e, t)
    decreases e
  {
    match e
    case Var(_) => AtomTokens(f, e, t);
    case JsonPath(_) => AtomTokens(f, e, t);
    case Numb(_) => AtomTokens(f, e, t);
    case Str(_) => AtomTokens(f, e, t);
    case UnMinus(x) =>
      CondOrTokens(f, x, [L.RPar] + t);
      UnaryTokens(f, e, t);
    case UnNeg(x) =>
      CondOrTokens(f, x, [L.RPar] + t);
      UnaryTokens(f, e, t);
    case Bop(op, l, r) =>
      var mid := [OpToken(op)] + (Paren(Tokens(r)) + t);
      CondOrTokens(f, l, [L.RPar] + mid);
      CondOrTokens(f, r, [L.RPar] + t);
      BopTokens(f, op, l, r, t);
    case In(item, c, positive) =>
      CondOrTokens(f, item, [L.RPar] + InTail(c, positive, t));
      InTokens(f, item, c, positive, t);
  }

  lemma AtomTokens(f: Foreign, e: Expr, t: seq<L.Token>)
    requires e.Var? || e.Numb? || e.Str? || (e.JsonPath? && f.jsonPathValid(e.query))
    requires Closing(t)
    ensures CondOr(f, Tokens(e) + t) == POk(e, t)
  {
    var ts := Tokens(e) + t;
    assert ts[1..] == t;
    assert Operand(f, ts) == POk(e, t);
    FromOperand(f, ts, e, t);
  }

  lemma UnaryTokens(f: Foreign, e: Expr, t: seq<L.Token>)
    requires e.UnMinus? || e.UnNeg?
    requires CondOr(f, Tokens(e.operand) + ([L.RPar] + t)) == POk(e.operand, [L.RPar] + t)
    requires Closing(t)
    ensures CondOr(f, Tokens(e) + t) == POk(e, t)
  {
    var x := e.operand;
    var ts := Tokens(e) + t;
    ParenOperand(f, x, t);
    assert ts[1..] == Paren(Tokens(x)) + t;
    if e.UnMinus? {
      assert Operand(f, ts) == POk(e, t);
      FromOperand(f, ts, e, t);
    } else {
      PartFromOperand(f, Paren(Tokens(x)) + t, x, t);
      assert CondPart(f, ts) == POk(e, t);
      FromCondPart(f, ts, e, t);
    }
  }

  /** A parenthesised condition is an operand. */
  lemma ParenOperand(f: Foreign, x: Expr, t: seq<L.Token>)
    requires CondOr(f, Tokens(x) + ([L.RPar] + t)) == POk(x, [L.RPar] + t)
    ensures Operand(f, Paren(Tokens(x)) + t) == POk(x, t)
  {
    var ts := Paren(Tokens(x)) + t;
    assert ts[1..] == Tokens(x) + ([L.RPar] + t);
    assert ([L.RPar] + t)[1..] == t;
  }

  lemma BopTokens(f: Foreign, op: BinOp, l: Expr, r: Expr, t: seq<L.Token>)
    requires Closing(t)
    requires
      var mid := [OpToken(op)] + (Paren(Tokens(r)) + t);
      CondOr(f, Tokens(l) + ([L.RPar] + mid)) == POk(l, [L.RPar] + mid)
    requires CondOr(f, Tokens(r) + ([L.RPar] + t)) == POk(r, [L.RPar] + t)
    ensures CondOr(f, Tokens(Bop(op, l, r)) + t) == POk(Bop(op, l, r), t)
  {
    var right := Paren(Tokens(r)) + t;
    var mid := [OpToken(op)] + right;
    var ts := Paren(Tokens(l)) + mid;
    assert Tokens(Bop(op, l, r)) + t == ts;
    ParenOperand(f, l, mid);
    ParenOperand(f, r, t);
    assert mid[1..] == right;
    if op == Mul || op == Div {
      TimesStep(f, op, l, r, ts, t);
      FromMathTimes(f, ts, Bop(op, l, r), t);
    } else if op == Add || op == Sub {
      PlusStep(f, op, l, r, ts, t);
      FromMathExpr(f, ts, Bop(op, l, r), t);
    } else if op == And || op == Or {
      PartFromOperand(f, ts, l, mid);
      PartFromOperand(f, right, r, t);
      LogicalStep(f, op, l, r, ts, t);
    } else {
      RelationStep(f, op, l, r, ts, t);
      FromCondPart(f, ts, Bop(op, l, r), t);
    }
  }

  lemma TimesStep(f: Foreign, op: BinOp, l: Expr, r: Expr, ts: seq<L.Token>, t: seq<L.Token>)
    requires op == Mul || op == Div
    requires Closing(t)
    requires ts == Paren(Tokens(l)) + ([OpToken(op)] + (Paren(Tokens(r)) + t))
    requires Operand(f, ts) == POk(l, [OpToken(op)] + (Paren(Tokens(r)) + t))
    requires Operand(f, Paren(Tokens(r)) + t) == POk(r, t)
    ensures MathTimes(f, ts) == POk(Bop(op, l, r), t)
  {
    var mid := [OpToken(op)] + (Paren(Tokens(r)) + t);
    assert mid[1..] == Paren(Tokens(r)) + t;
    assert MathTimesRest(f, Bop(op, l, r), t) == POk(Bop(op, l, r), t);
    assert MathTimesRest(f, l, mid) == POk(Bop(op, l, r), t);
  }

  lemma PlusStep(f: Foreign, op: BinOp, l: Expr, r: Expr, ts: seq<L.Token>, t: seq<L.Token>)
    requires op == Add || op == Sub
    requires Closing(t)
    requires ts == Paren(Tokens(l)) + ([OpToken(op)] + (Paren(Tokens(r)) + t))
    requires Operand(f, ts) == POk(l, [OpToken(op)] + (Paren(Tokens(r)) + t))
    requires Operand(f, Paren(Tokens(r)) + t) == POk(r, t)
    ensures MathExpr(f, ts) == POk(Bop(op, l, r), t)
  {
    var right := Paren(Tokens(r)) + t;
    var mid := [OpToken(op)] + right;
    assert mid[1..] == right;
    assert MathTimesRest(f, l, mid) == POk(l, mid);
    assert MathTimes(f, ts) == POk(l, mid);
    assert MathTimesRest(f, r, t) == POk(r, t);
    assert MathTimes(f, right) == POk(r, t);
    assert MathExprRest(f, Bop(op, l, r), t) == POk(Bop(op, l, r), t);
    assert MathExprRest(f, l, mid) == POk(Bop(op, l, r), t);
  }

  lemma LogicalStep(f: Foreign, op: BinOp, l: Expr, r: Expr, ts: seq<L.Token>, t: seq<L.Token>)
    requires op == And || op == Or
    requires Closing(t)
    requires ts == Paren(Tokens(l)) + ([OpToken(op)] + (Paren(Tokens(r)) + t))
    requires CondPart(f, ts) == POk(l, [OpToken(op)] + (Paren(Tokens(r)) + t))
    requires CondPart(f, Paren(Tokens(r)) + t) == POk(r, t)
    ensures CondOr(f, ts) == POk(Bop(op, l, r), t)
  {
    var right := Paren(Tokens(r)) + t;
    var mid := [OpToken(op)] + right;
    assert mid[1..] == right;
    assert CondAndRest(f, r, t) == POk(r, t);
    assert CondOrRest(f, r, t) == POk(r, t);
    if op == And {
      assert CondAndRest(f, l, mid) == POk(Bop(op, l, r), t);
      assert CondAnd(f, ts) == POk(Bop(op, l, r), t);
      assert CondOrRest(f, Bop(op, l, r), t) == POk(Bop(op, l, r), t);
    } else {
      assert CondAndRest(f, l, mid) == POk(l, mid);
      assert CondAnd(f, ts) == POk(l, mid);
      assert CondAnd(f, right) == POk(r, t);
      assert CondOrRest(f, l, mid) == POk(Bop(op, l, r), t);
    }
  }

  lemma RelationStep(f: Foreign, op: BinOp, l: Expr, r: Expr, ts: seq<L.Token>, t: seq<L.Token>)
    requires op in {Eq, Neq, Lt, Gt, Le, Ge}
    requires Closing(t)
    requires ts == Paren(Tokens(l)) + ([OpToken(op)] + (Paren(Tokens(r)) + t))
    requires Operand(f, ts) == POk(l, [OpToken(op)] + (Paren(Tokens(r)) + t))
    requires Operand(f, Paren(Tokens(r)) + t) == POk(r, t)
    ensures CondPart(f, ts) == POk(Bop(op, l, r), t)
  {
    var right := Paren(Tokens(r)) + t;
    var mid := [OpToken(op)] + right;
    assert mid[1..] == right;
    assert MathTimesRest(f, l, mid) == POk(l, mid);
    assert MathTimes(f, ts) == POk(l, mid);
    assert MathExprRest(f, l, mid) == POk(l, mid);
    assert MathExpr(f, ts) == POk(l, mid);
    assert CompareOp(mid) == (Relation(op), right);
    assert MathTimesRest(f, r, t) == POk(r, t);
    assert MathTimes(f, right) == POk(r, t);
    assert MathExprRest(f, r, t) == POk(r, t);
    assert MathExpr(f, right) == POk(r, t);
  }

  /** The tokens after the item of an `in` test. */
  function InTail(c: Expr, positive: bool, t: seq<L.Token>): seq<L.Token>
  {
    (if positive then [L.KwIn] else [L.KwNot, L.KwIn])
    + ([if c.Var? then L.Ident(c.ident) else if c.JsonPath? then L.JsonPath(c.query) else L.Eoi] + t)
  }

  lemma InCompare(c: Expr, positive: bool, t: seq<L.Token>)
    requires c.Var? || c.JsonPath?
    ensures CompareOp(InTail(c, positive, t))
         == (Member(positive), [if c.Var? then L.Ident(c.ident) else L.JsonPath(c.query)] + t)
  {
    var last := if c.Var? then L.Ident(c.ident) else L.JsonPath(c.query);
    var tail := InTail(c, positive, t);
    if positive {
      assert tail[1..] == [last] + t;
    } else {
      assert tail[1..] == [L.KwIn, last] + t;
      assert tail[2..] == [last] + t;
    }
  }

  lemma InTokens(f: Foreign, item: Expr, c: Expr, positive: bool, t: seq<L.Token>)
    requires Closing(t)
    requires c.Var? || (c.JsonPath? && f.jsonPathValid(c.query))
    requires CondOr(f, Tokens(item) + ([L.RPar] + InTail(c, positive, t)))
          == POk(item, [L.RPar] + InTail(c, positive, t))
    ensures CondOr(f, Tokens(In(item, c, positive)) + t) == POk(In(item, c, positive), t)
  {
    var tail := InTail(c, positive, t);
    var ts := Paren(Tokens(item)) + tail;
    InTailAppend(c, positive, t);
    assert Tokens(In(item, c, positive)) + t == ts;
    ParenOperand(f, item, tail);
    InCompare(c, positive, t);
    assert MathTimesRest(f, item, tail) == POk(item, tail);
    assert MathTimes(f, ts) == POk(item, tail);
    assert MathExprRest(f, item, tail) == POk(item, tail);
    assert MathExpr(f, ts) == POk(item, tail);
    InPart(f, item, c, positive, ts, t);
    FromCondPart(f, ts, In(item, c, positive), t);
  }

  lemma InTailAppend(c: Expr, positive: bool, t: seq<L.Token>)
    ensures InTail(c, positive, []) + t == InTail(c, positive, t)
  {
  }

  lemma InPart(f: Foreign, item: Expr, c: Expr, positive: bool, ts: seq<L.Token>, t: seq<L.Token>)
    requires c.Var? || (c.JsonPath? && f.jsonPathValid(c.query))
    requires Head(ts) == L.LPar
    requires MathExpr(f, ts) == POk(item, InTail(c, positive, t))
    requires CompareOp(InTail(c, positive, t))
          == (Member(positive), [if c.Var? then L.Ident(c.ident) else L.JsonPath(c.query)] + t)
    ensures CondPart(f, ts) == POk(In(item, c, positive), t)
  {
    var last := if c.Var? then L.Ident(c.ident) else L.JsonPath(c.query);
    assert ([last] + t)[1..] == t;
  }

  // ---------------------------------------------------------------------------
  // Climbing the grammar when the next token closes the condition

  lemma FromOperand(f: Foreign, ts: seq<L.Token>, e: Expr, t: seq<L.Token>)
    requires Closing(t) && Head(ts) != L.KwNot
    requires Operand(f, ts) == POk(e, t)
    ensures CondOr(f, ts) == POk(e, t)
  {
    assert MathTimes(f, ts) == POk(e, t);
    FromMathTimes(f, ts, e, t);
  }

  lemma FromMathTimes(f: Foreign, ts: seq<L.Token>, e: Expr, t: seq<L.Token>)
    requires Closing(t) && Head(ts) != L.KwNot
    requires MathTimes(f, ts) == POk(e, t)
    ensures CondOr(f, ts) == POk(e, t)
  {
    assert MathExpr(f, ts) == POk(e, t);
    FromMathExpr(f, ts, e, t);
  }

  lemma FromMathExpr(f: Foreign, ts: seq<L.Token>, e: Expr, t: seq<L.Token>)
    requires Closing(t) && Head(ts) != L.KwNot
    requires MathExpr(f, ts) == POk(e, t)
    ensures CondOr(f, ts) == POk(e, t)
  {
    assert CompareOp(t).0 == Unary;
    assert CondPart(f, ts) == POk(e, t);
    FromCondPart(f, ts, e, t);
  }

  lemma FromCondPart(f: Foreign, ts: seq<L.Token>, e: Expr, t: seq<L.Token>)
    requires Closing(t)
    requires CondPart(f, ts) == POk(e, t)
    ensures CondOr(f, ts) == POk(e, t)
  {
    assert CondAnd(f, ts) == POk(e, t);
  }

  /** A parenthesised operand followed by a token that closes the condition, `and`
      or `or` is a whole condition part. */
  lemma PartFromOperand(f: Foreign, ts: seq<L.Token>, e: Expr, t: seq<L.Token>)
    requires Closing(t) || Head(t) == L.KwAnd || Head(t) == L.KwOr
    requires Head(ts) == L.LPar
    requires Operand(f, ts) == POk(e, t)
    ensures CondPart(f, ts) == POk(e, t)
  {
    assert MathTimes(f, ts) == POk(e, t);
    assert MathExpr(f, ts) == POk(e, t);
    assert CompareOp(t).0 == Unary;
  }
}
