/**
  The abstract syntax of tag conditions and infos and its evaluation against an
  entity record (the `Expr` node classes of `NERDd/modules/tags.py` and the two
  coercions of `Interpreter`).

  Three pieces of the source are library calls outside this model and enter as the
  fields of a `Foreign` value: whether `jsonpath_rw.parse` accepts a query, the values
  `find` returns for it, and `str()` of a value.
*/
module Ast {
  import opened Wrappers
  import opened Values

  datatype Foreign = Foreign(
    jsonPathValid: string -> bool,
    jsonPathFind: (string, Value) -> seq<Value>,
    show: Value -> string)

  datatype BinOp = Add | Sub | Mul | Div | Eq | Neq | Lt | Gt | Le | Ge | And | Or

  datatype Expr =
    | Var(ident: string)                        // attribute, possibly dotted
    | JsonPath(query: string)                   // list of all matches
    | Numb(value: real)
    | Str(text: string)                         // string with "{attr}" placeholders
    | Bop(op: BinOp, left: Expr, right: Expr)
    | In(item: Expr, container: Expr, positive: bool)
    | UnMinus(operand: Expr)
    | UnNeg(operand: Expr)

  predicate IsArithmetic(op: BinOp) { op == Add || op == Sub || op == Mul || op == Div }

  function RelOf(op: BinOp): Rel
    requires op == Lt || op == Gt || op == Le || op == Ge
  {
    match op
    case Lt => Less
    case Gt => Greater
    case Le => LessEq
    case Ge => GreaterEq
  }

  /** Arithmetic on coerced operands; a division by zero yields 0. */
  function Arith(op: BinOp, x: real, y: real): real
    requires IsArithmetic(op)
  {
    match op
    case Add => x + y
    case Sub => x - y
    case Mul => x * y
    case Div => if y == 0.0 then 0.0 else x / y
  }

  /** `Expr.eval` for every node kind. */
  function Eval(f: Foreign, e: Expr, data: Value): Value
  {
    match e
    case Var(x) => Lookup(data, x)
    case JsonPath(q) => VList(f.jsonPathFind(q, data))
    case Numb(n) => VNum(n)
    case Str(t) => VStr(Format(f, t, data))
    case Bop(op, l, r) =>
      if op == And then
        if !ToLogical(Eval(f, l, data)) then VBool(false) else VBool(ToLogical(Eval(f, r, data)))
      else if op == Or then
        if ToLogical(Eval(f, l, data)) then VBool(true) else VBool(ToLogical(Eval(f, r, data)))
      else
        var lv := Eval(f, l, data);
        var rv := Eval(f, r, data);
        if IsArithmetic(op) then VNum(Arith(op, ToArith(lv), ToArith(rv)))
        else if op == Eq then VBool(PyEq(lv, rv))
        else if op == Neq then VBool(!PyEq(lv, rv))
        else VBool(PyCompare(RelOf(op), lv, rv) == Some(true))
    case In(item, c, positive) =>
      var r := Contains(Eval(f, item, data), Eval(f, c, data));
      if r.None? then VBool(false) else VBool(if positive then r.value else !r.value)
    case UnMinus(x) => VNum(-ToArith(Eval(f, x, data)))
    case UnNeg(x) => VBool(!Truthy(Eval(f, x, data)))
  }

  // ---------------------------------------------------------------------------
  // Placeholders of string nodes

  /** Position of the first '}' of `s`, provided no line break comes before it
      (the lazy `.*?` of the placeholder pattern does not cross lines). */
  function CloseBrace(s: string): (r: Option<nat>)
    ensures r.Some? ==> r.value < |s| && s[r.value] == '}'
    ensures r.Some? ==> forall i :: 0 <= i < r.value ==> s[i] != '}' && s[i] != '\n'
  {
    if s == [] || s[0] == '\n' then None
    else if s[0] == '}' then Some(0)
    else match CloseBrace(s[1..])
      case None => None
      case Some(j) => Some(j + 1)
  }

  /** All matches of `\{(.*?)\}` from left to right, as `re.findall` returns them. */
  function FindPlaceholders(s: string): (r: seq<string>)
    ensures forall k :: 0 <= k < |r| ==> '}' !in r[k] && '\n' !in r[k]
    decreases |s|
  {
    if s == [] then []
    else if s[0] == '{' && CloseBrace(s[1..]).Some? then
      var j := CloseBrace(s[1..]).value;
      [s[1..][..j]] + FindPlaceholders(s[1..][j + 1..])
    else FindPlaceholders(s[1..])
  }

  /** Drop repeated names, keeping the first occurrence of each. */
  function Dedup(xs: seq<string>): (r: seq<string>)
    ensures forall x :: x in r <==> x in xs
    ensures forall i, j :: 0 <= i < j < |r| ==> r[i] != r[j]
  {
    if xs == [] then []
    else
      var tail := Dedup(xs[..|xs| - 1]);
      if xs[|xs| - 1] in tail then tail else tail + [xs[|xs| - 1]]
  }

  /** The placeholder names of a string node, each once. */
  function Placeholders(s: string): seq<string>
  {
    Dedup(FindPlaceholders(s))
  }

  /** Python `str.replace`: every non-overlapping occurrence, scanning left to right. */
  function ReplaceAll(s: string, pat: string, rep: string): string
    requires pat != []
    decreases |s|
  {
    if |s| < |pat| then s
    else if pat <= s then rep + ReplaceAll(s[|pat|..], pat, rep)
    else [s[0]] + ReplaceAll(s[1..], pat, rep)
  }

  /** `String.eval`: substitute each placeholder whose attribute exists in the record. */
  function Format(f: Foreign, t: string, data: Value): string
  {
    Substitute(f, t, Placeholders(t), data)
  }

  function Substitute(f: Foreign, t: string, names: seq<string>, data: Value): string
    decreases |names|
  {
    if names == [] then t
    else
      var v := Lookup(data, names[0]);
      var t' := if v == VNone then t else ReplaceAll(t, "{" + names[0] + "}", f.show(v));
      Substitute(f, t', names[1..], data)
  }

  // ---------------------------------------------------------------------------
  // The interpreter's coercions of a condition's value

  /** `evaluate_logical`: false exactly for None, values equal to False or 0, and []. */
  predicate EvaluateLogical(v: Value)
  {
    !(v == VNone || PyEq(v, VBool(false)) || PyEq(v, VNum(0.0)) || v == VList([]))
  }

  /** `evaluate_mathematical`: the confidence of a satisfied tag. */
  function EvaluateMathematical(v: Value): (r: real)
  {
    if v == VNone || PyEq(v, VBool(false)) then 0.0
    else if !IsNumber(v) || PyEq(v, VBool(true)) then 1.0
    else NumberOf(v)
  }

  // ---------------------------------------------------------------------------
  // Properties of evaluation

  /** Logical, comparison and membership nodes always yield a boolean; arithmetic
      nodes always yield a number: evaluation of an operator never fails. */
  lemma ResultKinds(f: Foreign, e: Expr, data: Value)
    ensures (e.Bop? && !IsArithmetic(e.op)) || e.In? || e.UnNeg? ==> Eval(f, e, data).VBool?
    ensures (e.Bop? && IsArithmetic(e.op)) || e.UnMinus? || e.Numb? ==> Eval(f, e, data).VNum?
    ensures e.Str? ==> Eval(f, e, data).VStr?
    ensures e.JsonPath? ==> Eval(f, e, data).VList?
  {
  }

  /** `and` does not look at its right operand once the left one is false, and `or`
      once the left one is true. */
  lemma ShortCircuit(f: Foreign, l: Expr, r1: Expr, r2: Expr, data: Value)
    ensures !ToLogical(Eval(f, l, data)) ==> Eval(f, Bop(And, l, r1), data) == VBool(false)
    ensures !ToLogical(Eval(f, l, data)) ==> Eval(f, Bop(And, l, r1), data) == Eval(f, Bop(And, l, r2), data)
    ensures ToLogical(Eval(f, l, data)) ==> Eval(f, Bop(Or, l, r1), data) == VBool(true)
    ensures ToLogical(Eval(f, l, data)) ==> Eval(f, Bop(Or, l, r1), data) == Eval(f, Bop(Or, l, r2), data)
  {
  }

  /** Apart from short-circuiting, `and` and `or` are boolean conjunction and
      disjunction of their coerced operands. */
  lemma LogicalConnectives(f: Foreign, l: Expr, r: Expr, data: Value)
    ensures Eval(f, Bop(And, l, r), data)
         == VBool(ToLogical(Eval(f, l, data)) && ToLogical(Eval(f, r, data)))
    ensures Eval(f, Bop(Or, l, r), data)
         == VBool(ToLogical(Eval(f, l, data)) || ToLogical(Eval(f, r, data)))
  {
  }

  /** `not in` is the negation of `in` when the test is defined; when it raises, both
      forms are false (so `'a' not in x` is false for a missing attribute `x`). */
  lemma NotInNegatesIn(f: Foreign, item: Expr, c: Expr, data: Value)
    ensures Contains(Eval(f, item, data), Eval(f, c, data)).Some? ==>
      Eval(f, In(item, c, false), data) == VBool(!Eval(f, In(item, c, true), data).b)
    ensures Contains(Eval(f, item, data), Eval(f, c, data)).None? ==>
      Eval(f, In(item, c, false), data) == VBool(false) && Eval(f, In(item, c, true), data) == VBool(false)
  {
  }

  /** A missing attribute counts as 0 in arithmetic, a string as 1, and a division
      by zero yields 0. */
  lemma ArithmeticCoercions(f: Foreign, x: string, s: string, data: Value)
    requires Lookup(data, x) == VNone
    ensures Eval(f, Bop(Add, Var(x), Numb(1.0)), data) == VNum(1.0)
    ensures Eval(f, Bop(Add, Numb(1.0), Numb(2.0)), data) == VNum(3.0)
    ensures Eval(f, Bop(Add, JsonPath(s), Numb(1.0)), data) == VNum(2.0)
    ensures Eval(f, Bop(Div, Numb(5.0), Var(x)), data) == VNum(0.0)
    ensures Eval(f, UnMinus(Var(x)), data) == VNum(0.0)
  {
  }

  /** `not` uses native truthiness: an empty string or list is false, unlike for
      `and`/`or`, where any non-None, non-number value is true. */
  lemma NotVersusAnd(f: Foreign, data: Value)
    ensures Eval(f, UnNeg(Str("")), data) == VBool(true)
    ensures Eval(f, Bop(And, Str(""), Numb(1.0)), data) == VBool(true)
  {
    assert Placeholders("") == [];
  }

  /** Comparisons between values Python cannot order are false rather than errors. */
  lemma IncomparableIsFalse(f: Foreign, x: string, data: Value)
    requires Lookup(data, x) == VNone
    ensures Eval(f, Bop(Lt, Var(x), Numb(1.0)), data) == VBool(false)
    ensures Eval(f, Bop(Ge, Var(x), Numb(1.0)), data) == VBool(false)
  {
  }

  // ---------------------------------------------------------------------------
  // Properties of the interpreter's coercions

  /** A value counts as satisfied exactly when it is truthy, except that an empty
      string and an empty dict are satisfied although falsy. */
  lemma EvaluateLogicalVersusTruthy(v: Value)
    ensures EvaluateLogical(v) <==> Truthy(v) || v == VStr([]) || v == VMap(map[])
  {
  }

  /** The confidence is the arithmetic coercion of the value. */
  lemma EvaluateMathematicalIsToArith(v: Value)
    ensures EvaluateMathematical(v) == ToArith(v)
  {
  }

  /** A satisfied condition never yields confidence 0. */
  lemma SatisfiedConfidenceNonZero(v: Value)
    requires EvaluateLogical(v)
    ensures EvaluateMathematical(v) != 0.0
    ensures !IsNumber(v) ==> EvaluateMathematical(v) == 1.0
  {
  }

  // ---------------------------------------------------------------------------
  // Properties of placeholder substitution

  lemma {:induction false} ReplaceAllAbsent(s: string, pat: string, rep: string)
    requires pat != []
    requires !IsSubstring(pat, s)
    ensures ReplaceAll(s, pat, rep) == s
    decreases |s|
  {
    if |s| >= |pat| {
      assert !(pat <= s);
      ReplaceAllAbsent(s[1..], pat, rep);
      assert [s[0]] + s[1..] == s;
    }
  }

  lemma {:induction false} ReplaceAllSame(s: string, pat: string)
    requires pat != []
    ensures ReplaceAll(s, pat, pat) == s
    decreases |s|
  {
    if |s| >= |pat| {
      if pat <= s {
        ReplaceAllSame(s[|pat|..], pat);
        assert pat + s[|pat|..] == s;
      } else {
        ReplaceAllSame(s[1..], pat);
        assert [s[0]] + s[1..] == s;
      }
    }
  }

  /** Each occurrence is replaced: the result for `pat + s` starts with `rep`. */
  lemma ReplaceAllPrefix(s: string, pat: string, rep: string)
    requires pat != []
    ensures ReplaceAll(pat + s, pat, rep) == rep + ReplaceAll(s, pat, rep)
  {
    assert pat <= pat + s;
    assert (pat + s)[|pat|..] == s;
  }

  /** A string without '{' has no placeholders. */
  lemma {:induction false} NoBraceNoPlaceholders(s: string)
    requires '{' !in s
    ensures FindPlaceholders(s) == []
    decreases |s|
  {
    if s != [] {
      assert '{' !in s[1..];
      NoBraceNoPlaceholders(s[1..]);
    }
  }

  /** Placeholders whose attributes are all missing leave the text as written. */
  lemma {:induction false} SubstituteMissing(f: Foreign, t: string, names: seq<string>, data: Value)
    requires forall k :: 0 <= k < |names| ==> Lookup(data, names[k]) == VNone
    ensures Substitute(f, t, names, data) == t
    decreases |names|
  {
    if names != [] {
      SubstituteMissing(f, t, names[1..], data);
    }
  }

  lemma FormatUnresolved(f: Foreign, t: string, data: Value)
    requires forall x :: x in FindPlaceholders(t) ==> Lookup(data, x) == VNone
    ensures Format(f, t, data) == t
  {
    SubstituteMissing(f, t, Placeholders(t), data);
  }

  /** `sep.join(chunks)`. */
  function Join(chunks: seq<string>, sep: string): string
    requires chunks != []
  {
    if |chunks| == 1 then chunks[0] else chunks[0] + sep + Join(chunks[1..], sep)
  }

  /** Literal text without '{' contributes no placeholder. */
  lemma {:induction false} PlaceholdersAfterText(c: string, s: string)
    requires '{' !in c
    ensures FindPlaceholders(c + s) == FindPlaceholders(s)
    decreases |c|
  {
    if c != [] {
      var t := c + s;
      assert c[0] in c && '{' !in c[1..];
      assert t[0] == c[0] && t[0] != '{' && t[1..] == c[1..] + s;
      assert FindPlaceholders(t) == FindPlaceholders(t[1..]);
      PlaceholdersAfterText(c[1..], s);
    } else {
      assert c + s == s;
    }
  }

  /** The closing brace of `x + "}"` is the one after x. */
  lemma {:induction false} CloseBraceAfter(x: string, s: string)
    requires '}' !in x && '\n' !in x
    ensures CloseBrace(x + "}" + s) == Some(|x|)
    decreases |x|
  {
    if x == [] {
      assert (x + "}" + s)[0] == '}';
    } else {
      assert (x + "}" + s)[1..] == x[1..] + "}" + s;
      CloseBraceAfter(x[1..], s);
    }
  }

  /** A placeholder `{x}` in front of s is matched as x. */
  lemma PlaceholdersAfterBrace(x: string, s: string)
    requires '}' !in x && '\n' !in x
    ensures FindPlaceholders("{" + x + "}" + s) == [x] + FindPlaceholders(s)
  {
    var t := "{" + x + "}" + s;
    assert t[1..] == x + "}" + s;
    CloseBraceAfter(x, s);
    assert t[1..][..|x|] == x && t[1..][|x| + 1..] == s;
  }

  /** The placeholders of chunks joined by `{x}` are copies of x, one per separator. */
  lemma {:induction false} JoinPlaceholders(chunks: seq<string>, x: string)
    requires chunks != []
    requires forall k :: 0 <= k < |chunks| ==> '{' !in chunks[k]
    requires '}' !in x && '\n' !in x
    ensures forall y :: y in FindPlaceholders(Join(chunks, "{" + x + "}")) ==> y == x
    ensures |chunks| > 1 <==> x in FindPlaceholders(Join(chunks, "{" + x + "}"))
    decreases |chunks|
  {
    var sep := "{" + x + "}";
    if |chunks| == 1 {
      NoBraceNoPlaceholders(chunks[0]);
    } else {
      var rest := Join(chunks[1..], sep);
      JoinPlaceholders(chunks[1..], x);
      assert Join(chunks, sep) == chunks[0] + (sep + rest);
      PlaceholdersAfterText(chunks[0], sep + rest);
      assert sep + rest == "{" + x + "}" + rest;
      PlaceholdersAfterBrace(x, rest);
    }
  }

  /** Replacing a pattern that starts with '{' passes over text without '{'. */
  lemma {:induction false} ReplaceAfterText(c: string, s: string, pat: string, rep: string)
    requires pat != [] && pat[0] == '{' && '{' !in c
    ensures ReplaceAll(c + s, pat, rep) == c + ReplaceAll(s, pat, rep)
    decreases |c|
  {
    if c != [] {
      var t := c + s;
      assert c[0] in c && '{' !in c[1..];
      assert t[0] == c[0] && t[1..] == c[1..] + s;
      if |t| < |pat| {
        ReplaceShort(s, pat, rep);
      } else {
        assert !(pat <= t) by { assert pat[0] != t[0]; }
        ReplaceAfterText(c[1..], s, pat, rep);
        assert [c[0]] + (c[1..] + ReplaceAll(s, pat, rep)) == c + ReplaceAll(s, pat, rep);
      }
    } else {
      assert c + s == s;
    }
  }

  lemma ReplaceShort(s: string, pat: string, rep: string)
    requires pat != [] && |s| < |pat|
    ensures ReplaceAll(s, pat, rep) == s
  {
  }

  /** `str.replace` of the separator in a join: every occurrence is replaced. */
  lemma {:induction false} ReplaceJoin(chunks: seq<string>, pat: string, rep: string)
    requires chunks != [] && pat != [] && pat[0] == '{'
    requires forall k :: 0 <= k < |chunks| ==> '{' !in chunks[k]
    ensures ReplaceAll(Join(chunks, pat), pat, rep) == Join(chunks, rep)
    decreases |chunks|
  {
    if |chunks| == 1 {
      ReplaceAfterText(chunks[0], [], pat, rep);
      assert chunks[0] + [] == chunks[0];
      ReplaceShort([], pat, rep);
    } else {
      var rest := Join(chunks[1..], pat);
      ReplaceJoin(chunks[1..], pat, rep);
      assert Join(chunks, pat) == chunks[0] + (pat + rest);
      ReplaceAfterText(chunks[0], pat + rest, pat, rep);
      ReplaceAllPrefix(rest, pat, rep);
    }
  }

  /** A placeholder naming a present attribute is replaced, at every occurrence, by
      `str()` of the attribute's value, and the text around it stays. */
  lemma FormatPresent(f: Foreign, chunks: seq<string>, x: string, data: Value)
    requires chunks != []
    requires forall k :: 0 <= k < |chunks| ==> '{' !in chunks[k]
    requires '}' !in x && '\n' !in x
    requires Lookup(data, x) != VNone
    ensures Format(f, Join(chunks, "{" + x + "}"), data) == Join(chunks, f.show(Lookup(data, x)))
  {
    if |chunks| == 1 {
      var t := Join(chunks, "{" + x + "}");
      NoBraceNoPlaceholders(t);
      assert Placeholders(t) == [];
    } else {
      FormatSeparated(f, chunks, "{" + x + "}", x, data);
    }
  }

  lemma FormatSeparated(f: Foreign, chunks: seq<string>, pat: string, x: string, data: Value)
    requires |chunks| > 1 && pat == "{" + x + "}"
    requires forall k :: 0 <= k < |chunks| ==> '{' !in chunks[k]
    requires '}' !in x && '\n' !in x
    requires Lookup(data, x) != VNone
    ensures Format(f, Join(chunks, pat), data) == Join(chunks, f.show(Lookup(data, x)))
  {
    var t := Join(chunks, pat);
    JoinPlaceholders(chunks, x);
    DedupSame(FindPlaceholders(t), x);
    SubstituteOne(f, t, x, data);
    ReplaceJoin(chunks, pat, f.show(Lookup(data, x)));
  }

  /** Substituting one present name is one `str.replace`. */
  lemma SubstituteOne(f: Foreign, t: string, x: string, data: Value)
    requires Lookup(data, x) != VNone
    ensures Substitute(f, t, [x], data) == ReplaceAll(t, "{" + x + "}", f.show(Lookup(data, x)))
  {
    assert [x][1..] == [];
  }

  /** A list whose every entry is x, and which holds x, deduplicates to [x]. */
  lemma {:induction false} DedupSame(xs: seq<string>, x: string)
    requires x in xs && forall y :: y in xs ==> y == x
    ensures Dedup(xs) == [x]
    decreases |xs|
  {
    var init := xs[..|xs| - 1];
    assert xs[|xs| - 1] in xs;
    if init != [] {
      assert init[0] in xs;
      assert forall y :: y in init ==> y in xs;
      DedupSame(init, x);
    }
  }

  /** A placeholder naming a present attribute is replaced by its text. */
  lemma FormatExample(f: Foreign, data: Value)
    requires data == VMap(map["cc" := VStr("CZ")])
    requires f.show(VStr("CZ")) == "CZ"
    ensures Format(f, "{cc}", data) == "CZ"
  {
    var chunks: seq<string> := ["", ""];
    assert Join(chunks, "{" + "cc" + "}") == "{cc}" by {
      assert Join(chunks[1..], "{" + "cc" + "}") == "";
    }
    assert Join(chunks, "CZ") == "CZ" by {
      assert Join(chunks[1..], "CZ") == "";
    }
    assert Lookup(data, "cc") == VStr("CZ");
    FormatPresent(f, chunks, "cc", data);
  }
}
