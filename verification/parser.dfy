/**
  The recursive-descent parser of the tag rule language (`Parser` in
  `NERDd/modules/tags.py`).

  Each grammar function takes the tokens not yet consumed and, on success, yields the
  tree it built and the tokens that follow it. The source reads one token of
  look-ahead from the lexer as it goes; the end of the token sequence stands for the
  `EOI` lexem. Every failure of the source (a `raise` in `comparison`,
  `error_expansion`, `cond_part` or the JSONPath library) is `PFail`.

  Grammar:
    cond_or    ::= cond_and ("or" cond_or_rest)?          right-nested
    cond_and   ::= cond_part ("and" cond_and_rest)?       right-nested
    cond_part  ::= "not" cond_part
                 | math_expr [ relop math_expr | ["not"] "in" (ident | jsonpath) ]
    math_expr  ::= math_times (("+" | "-") math_times)*   left-nested
    math_times ::= operand (("*" | "/") operand)*         left-nested
    operand    ::= ident | string | jsonpath | number | "-" operand | "(" cond_or ")"
*/
module Parser {
  import opened Wrappers
  import opened Ast
  import L = Lexer

  datatype PResult = POk(e: Expr, rest: seq<L.Token>) | PFail

  /** The current look-ahead symbol. */
  function Head(ts: seq<L.Token>): L.Token
  {
    if ts == [] then L.Eoi else ts[0]
  }

  /** What `compare_operator` recognised after the left operand. */
  datatype Comparator = Unary | Relation(op: BinOp) | Member(positive: bool) | NoComparator

  /** `compare_operator`: the comparator and the tokens after it. A `not` that is not
      followed by `in` is an error. */
  function CompareOp(ts: seq<L.Token>): (r: (Comparator, seq<L.Token>))
    ensures r.0.Unary? ==> r.1 == ts
    ensures !r.0.Unary? ==> |r.1| < |ts|
    ensures r.0.Relation? ==> r.0.op in {Eq, Neq, Lt, Gt, Le, Ge}
  {
    match Head(ts)
    case Eq => (Relation(Eq), ts[1..])
    case Neq => (Relation(Neq), ts[1..])
    case Lt => (Relation(Lt), ts[1..])
    case Gt => (Relation(Gt), ts[1..])
    case Lte => (Relation(Le), ts[1..])
    case Gte => (Relation(Ge), ts[1..])
    case KwNot => if Head(ts[1..]) == L.KwIn then (Member(false), ts[2..]) else (NoComparator, ts[1..])
    case KwIn => (Member(true), ts[1..])
    case _ => (Unary, ts)
  }

  function Operand(f: Foreign, ts: seq<L.Token>): (r: PResult)
    ensures r.POk? ==> |r.rest| < |ts|
    decreases |ts|, 0
  {
    match Head(ts)
    case Ident(x) => POk(Var(x), ts[1..])
    case Str(t) => POk(Str(t), ts[1..])
    case JsonPath(q) => if f.jsonPathValid(q) then POk(JsonPath(q), ts[1..]) else PFail
    case Number(n) => POk(Numb(n), ts[1..])
    case Minus =>
      (match Operand(f, ts[1..])
       case POk(e, rest) => POk(UnMinus(e), rest)
       case PFail => PFail)
    case LPar =>
      (match CondOr(f, ts[1..])
       case POk(e, rest) => if Head(rest) == L.RPar then POk(e, rest[1..]) else PFail
       case PFail => PFail)
    case _ => PFail
  }

  function MathTimes(f: Foreign, ts: seq<L.Token>): (r: PResult)
    ensures r.POk? ==> |r.rest| < |ts|
    decreases |ts|, 1
  {
    match Operand(f, ts)
    case POk(e, rest) => MathTimesRest(f, e, rest)
    case PFail => PFail
  }

  function MathTimesRest(f: Foreign, acc: Expr, ts: seq<L.Token>): (r: PResult)
    ensures r.POk? ==> |r.rest| <= |ts|
    decreases |ts|, 1
  {
    var op := Head(ts);
    if op == L.Times || op == L.Divide then
      match Operand(f, ts[1..])
      case POk(e, rest) => MathTimesRest(f, Bop(if op == L.Times then Mul else Div, acc, e), rest)
      case PFail => PFail
    else POk(acc, ts)
  }

  function MathExpr(f: Foreign, ts: seq<L.Token>): (r: PResult)
    ensures r.POk? ==> |r.rest| < |ts|
    decreases |ts|, 2
  {
    match MathTimes(f, ts)
    case POk(e, rest) => MathExprRest(f, e, rest)
    case PFail => PFail
  }

  function MathExprRest(f: Foreign, acc: Expr, ts: seq<L.Token>): (r: PResult)
    ensures r.POk? ==> |r.rest| <= |ts|
    decreases |ts|, 2
  {
    var op := Head(ts);
    if op == L.Plus || op == L.Minus then
      match MathTimes(f, ts[1..])
      case POk(e, rest) => MathExprRest(f, Bop(if op == L.Plus then Add else Sub, acc, e), rest)
      case PFail => PFail
    else POk(acc, ts)
  }

  function CondPart(f: Foreign, ts: seq<L.Token>): (r: PResult)
    ensures r.POk? ==> |r.rest| < |ts|
    decreases |ts|, 3
  {
    if Head(ts) == L.KwNot then
      match CondPart(f, ts[1..])
      case POk(e, rest) => POk(UnNeg(e), rest)
      case PFail => PFail
    else
      match MathExpr(f, ts)
      case PFail => PFail
      case POk(left, rest) =>
        var (cmp, after) := CompareOp(rest);
        match cmp
        case Unary => POk(left, rest)
        case NoComparator => PFail
        case Member(positive) =>
          (match Head(after)
           case Ident(x) => POk(In(left, Var(x), positive), after[1..])
           case JsonPath(q) => if f.jsonPathValid(q) then POk(In(left, JsonPath(q), positive), after[1..]) else PFail
           case _ => PFail)
        case Relation(op) =>
          (match MathExpr(f, after)
           case POk(right, rest2) => POk(Bop(op, left, right), rest2)
           case PFail => PFail)
  }

  function CondAnd(f: Foreign, ts: seq<L.Token>): (r: PResult)
    ensures r.POk? ==> |r.rest| < |ts|
    decreases |ts|, 4
  {
    match CondPart(f, ts)
    case POk(e, rest) => CondAndRest(f, e, rest)
    case PFail => PFail
  }

  /** `cond_and_rest`: `a and b and c` is read as `a and (b and c)`. */
  function CondAndRest(f: Foreign, acc: Expr, ts: seq<L.Token>): (r: PResult)
    ensures r.POk? ==> |r.rest| <= |ts|
    decreases |ts|, 4
  {
    if Head(ts) == L.KwAnd then
      match CondPart(f, ts[1..])
      case PFail => PFail
      case POk(e, rest) =>
        (match CondAndRest(f, e, rest)
         case POk(e2, rest2) => POk(Bop(And, acc, e2), rest2)
         case PFail => PFail)
    else POk(acc, ts)
  }

  function CondOr(f: Foreign, ts: seq<L.Token>): (r: PResult)
    ensures r.POk? ==> |r.rest| < |ts|
    decreases |ts|, 5
  {
    match CondAnd(f, ts)
    case POk(e, rest) => CondOrRest(f, e, rest)
    case PFail => PFail
  }

  /** `cond_or_rest`: `a or b or c` is read as `a or (b or c)`. */
  function CondOrRest(f: Foreign, acc: Expr, ts: seq<L.Token>): (r: PResult)
    ensures r.POk? ==> |r.rest| <= |ts|
    decreases |ts|, 5
  {
    if Head(ts) == L.KwOr then
      match CondAnd(f, ts[1..])
      case PFail => PFail
      case POk(e, rest) =>
        (match CondOrRest(f, e, rest)
         case POk(e2, rest2) => POk(Bop(Or, acc, e2), rest2)
         case PFail => PFail)
    else POk(acc, ts)
  }

  /** `parse`: a whole condition followed by the end of input. */
  function Parse(f: Foreign, ts: seq<L.Token>): Option<Expr>
  {
    match CondOr(f, ts)
    case POk(e, rest) => if rest == [] then Some(e) else None
    case PFail => None
  }
}
