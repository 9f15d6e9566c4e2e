/**
  Runtime values of the NERD entity records and the Python semantics the tag
  interpreter relies on: equality, ordering, truthiness, containment and
  dotted-path lookup.
*/
module Values {
  import opened Wrappers

  /** A value stored in an entity record or produced by evaluating a rule. */
  datatype Value =
    | VNone
    | VBool(b: bool)
    | VNum(n: real)                   // Python int and float, unified
    | VStr(s: string)
    | VTime(t: int)                   // a datetime, as a tick count
    | VList(items: seq<Value>)
    | VMap(fields: map<string, Value>)

  /** An update request handed to the update manager: ('set', path, v) or ('remove', path). */
  datatype Request = Set(path: string, value: Value) | Remove(path: string)

  /** `isinstance(v, Number)`: Python's bool is a subclass of int. */
  predicate IsNumber(v: Value) { v.VBool? || v.VNum? }

  /** The numeric value of a number; True and False count as 1 and 0. */
  function NumberOf(v: Value): real
    requires IsNumber(v)
  {
    if v.VBool? then (if v.b then 1.0 else 0.0) else v.n
  }

  /** Python `==` on values: numbers compare numerically across bool/int/float,
      lists elementwise, dicts by keys and values; other mixed types are unequal. */
  predicate PyEq(a: Value, b: Value)
  {
    if IsNumber(a) || IsNumber(b) then
      IsNumber(a) && IsNumber(b) && NumberOf(a) == NumberOf(b)
    else
      match (a, b)
      case (VNone, VNone) => true
      case (VStr(x), VStr(y)) => x == y
      case (VTime(x), VTime(y)) => x == y
      case (VList(xs), VList(ys)) =>
        |xs| == |ys| && forall i :: 0 <= i < |xs| ==> PyEq(xs[i], ys[i])
      case (VMap(m1), VMap(m2)) =>
        m1.Keys == m2.Keys && forall k :: k in m1 ==> PyEq(m1[k], m2[k])
      case _ => false
  }

  lemma {:induction false} PyEqReflexive(a: Value)
    ensures PyEq(a, a)
  {
    match a
    case VList(xs) =>
      forall i | 0 <= i < |xs| ensures PyEq(xs[i], xs[i]) {
        PyEqReflexive(xs[i]);
      }
    case VMap(m) =>
      forall k | k in m ensures PyEq(m[k], m[k]) {
        PyEqReflexive(m[k]);
      }
    case _ =>
  }

  lemma {:induction false} PyEqSymmetric(a: Value, b: Value)
    ensures PyEq(a, b) <==> PyEq(b, a)
  {
    match (a, b)
    case (VList(xs), VList(ys)) =>
      if |xs| == |ys| {
        forall i | 0 <= i < |xs| ensures PyEq(xs[i], ys[i]) <==> PyEq(ys[i], xs[i]) {
          PyEqSymmetric(xs[i], ys[i]);
        }
      }
    case (VMap(m1), VMap(m2)) =>
      if m1.Keys == m2.Keys {
        forall k | k in m1 ensures PyEq(m1[k], m2[k]) <==> PyEq(m2[k], m1[k]) {
          PyEqSymmetric(m1[k], m2[k]);
        }
      }
    case _ =>
  }

  /** The four ordering operators of the rule language. */
  datatype Rel = Less | Greater | LessEq | GreaterEq

  function RealHolds(op: Rel, x: real, y: real): bool
  {
    match op
    case Less => x < y
    case Greater => x > y
    case LessEq => x <= y
    case GreaterEq => x >= y
  }

  function IntHolds(op: Rel, x: int, y: int): bool
  {
    match op
    case Less => x < y
    case Greater => x > y
    case LessEq => x <= y
    case GreaterEq => x >= y
  }

  /** Python `<` on str: lexicographic by code point, a proper prefix being smaller. */
  predicate StrLess(x: string, y: string)
    decreases |x|
  {
    if |x| == 0 then |y| > 0
    else if |y| == 0 then false
    else if x[0] != y[0] then x[0] < y[0]
    else StrLess(x[1..], y[1..])
  }

  /** Python's string order is a strict total order. */
  lemma {:induction false} StrLessTrichotomy(x: string, y: string)
    ensures !StrLess(x, x)
    ensures x == y || StrLess(x, y) || StrLess(y, x)
    ensures !(StrLess(x, y) && StrLess(y, x))
    decreases |x|
  {
    if |x| > 0 && |y| > 0 {
      StrLessTrichotomy(x[1..], y[1..]);
      if x[0] == y[0] && x[1..] == y[1..] {
        assert x == [x[0]] + x[1..] && y == [y[0]] + y[1..];
      }
    } else if |x| > 0 {
      StrLessTrichotomy(x[1..], x[1..]);
    }
  }

  function StrHolds(op: Rel, x: string, y: string): bool
  {
    match op
    case Less => StrLess(x, y)
    case Greater => StrLess(y, x)
    case LessEq => x == y || StrLess(x, y)
    case GreaterEq => x == y || StrLess(y, x)
  }

  /** Index of the first position where two lists differ under `==`, or the shorter length. */
  function FirstDiff(xs: seq<Value>, ys: seq<Value>): (k: nat)
    ensures k <= |xs| && k <= |ys|
    ensures forall i :: 0 <= i < k ==> PyEq(xs[i], ys[i])
    ensures k < |xs| && k < |ys| ==> !PyEq(xs[k], ys[k])
  {
    if |xs| == 0 || |ys| == 0 || !PyEq(xs[0], ys[0]) then 0
    else 1 + FirstDiff(xs[1..], ys[1..])
  }

  /** Python `<`, `>`, `<=`, `>=` on raw values; None stands for the TypeError raised
      when the operands are not comparable (None, dicts, mixed kinds). */
  function PyCompare(op: Rel, a: Value, b: Value): Option<bool>
  {
    if IsNumber(a) && IsNumber(b) then Some(RealHolds(op, NumberOf(a), NumberOf(b)))
    else
      match (a, b)
      case (VStr(x), VStr(y)) => Some(StrHolds(op, x, y))
      case (VTime(x), VTime(y)) => Some(IntHolds(op, x, y))
      case (VList(xs), VList(ys)) =>
        var k := FirstDiff(xs, ys);
        if k == |xs| || k == |ys| then Some(IntHolds(op, |xs|, |ys|))
        else PyCompare(op, xs[k], ys[k])
      case _ => None
  }

  /** Values Python can order against each other never raise; everything else does. */
  lemma PyCompareDefinedness(op: Rel, a: Value, b: Value)
    requires !a.VList? || !b.VList?
    ensures PyCompare(op, a, b).Some? <==>
      (IsNumber(a) && IsNumber(b)) || (a.VStr? && b.VStr?) || (a.VTime? && b.VTime?)
  {
  }

  /** Native truthiness `bool(v)`: empty containers, zero, None and False are falsy. */
  predicate Truthy(v: Value)
  {
    match v
    case VNone => false
    case VBool(b) => b
    case VNum(n) => n != 0.0
    case VStr(s) => |s| > 0
    case VTime(_) => true
    case VList(xs) => |xs| > 0
    case VMap(m) => |m| > 0
  }

  /** The coercion the `and`/`or` operators apply to their operands
      (`Bop.eval_operand_to_logical`): booleans are kept, a number is false iff zero,
      and any other value is true iff it is not None. */
  predicate ToLogical(v: Value)
  {
    if v.VBool? then v.b
    else if v.VNum? then v.n != 0.0
    else !v.VNone?
  }

  /** The coercion arithmetic and unary minus apply: numbers (bools as 0/1) are kept,
      None becomes 0 and every other value becomes 1. */
  function ToArith(v: Value): real
  {
    if IsNumber(v) then NumberOf(v)
    else if v.VNone? then 0.0
    else 1.0
  }

  lemma ToArithZero(v: Value)
    ensures ToArith(v) == 0.0 <==> v == VNone || PyEq(v, VNum(0.0))
    ensures !IsNumber(v) && v != VNone ==> ToArith(v) == 1.0
  {
  }

  /** The logical coercion differs from truthiness only on empty strings and containers. */
  lemma ToLogicalVersusTruthy(v: Value)
    ensures ToLogical(v) != Truthy(v) <==>
      (v.VStr? && v.s == []) || (v.VList? && v.items == []) || (v.VMap? && v.fields == map[])
  {
  }

  /** `t in s` for strings. */
  predicate IsSubstring(t: string, s: string)
    decreases |s|
  {
    t <= s || (|s| > 0 && IsSubstring(t, s[1..]))
  }

  /** `t` occurs in `s` at position `i`. */
  predicate OccursAt(t: string, s: string, i: int)
  {
    0 <= i <= |s| - |t| && s[i..i + |t|] == t
  }

  lemma {:induction false} IsSubstringSpec(t: string, s: string)
    ensures IsSubstring(t, s) <==> exists i :: OccursAt(t, s, i)
    decreases |s|
  {
    if t <= s {
      assert OccursAt(t, s, 0);
    } else if |s| > 0 {
      IsSubstringSpec(t, s[1..]);
      if IsSubstring(t, s[1..]) {
        var i :| OccursAt(t, s[1..], i);
        assert s[1..][i..i + |t|] == s[i + 1..i + 1 + |t|];
        assert OccursAt(t, s, i + 1);
      }
      if exists i :: OccursAt(t, s, i) {
        var i :| OccursAt(t, s, i);
        assert i != 0;
        assert s[1..][i - 1..i - 1 + |t|] == s[i..i + |t|];
        assert OccursAt(t, s[1..], i - 1);
      }
    }
  }

  /** Python `item in container`, None standing for the TypeError raised for
      non-iterable containers, non-string items tested against a string, and
      unhashable items tested against a dict. */
  function Contains(item: Value, container: Value): Option<bool>
  {
    match container
    case VStr(s) => if item.VStr? then Some(IsSubstring(item.s, s)) else None
    case VList(xs) => Some(exists i :: 0 <= i < |xs| && PyEq(item, xs[i]))
    case VMap(m) => if item.VList? || item.VMap? then None else Some(item.VStr? && item.s in m)
    case _ => None
  }

  /** Position of the first '.' in a dotted path. */
  function FirstDot(key: string): (i: nat)
    requires '.' in key
    ensures i < |key| && key[i] == '.' && '.' !in key[..i]
  {
    if key[0] == '.' then 0
    else
      assert '.' in key[1..] by { var j :| 0 <= j < |key| && key[j] == '.'; assert key[1..][j - 1] == '.'; }
      1 + FirstDot(key[1..])
  }

  /** `Var.eval`: descend the nested record along the '.'-separated segments of
      `key`; None when a segment is absent. A non-dict intermediate also gives None. */
  function Lookup(data: Value, key: string): Value
    decreases |key|
  {
    if '.' in key then
      var i := FirstDot(key);
      if data.VMap? && key[..i] in data.fields then Lookup(data.fields[key[..i]], key[i + 1..])
      else VNone
    else if data.VMap? && key in data.fields then data.fields[key]
    else VNone
  }

  /** Reference definition of a path lookup over a list of dot-free segments. */
  function Walk(data: Value, segments: seq<string>): Value
    requires |segments| > 0
    decreases |segments|
  {
    if !data.VMap? || segments[0] !in data.fields then VNone
    else if |segments| == 1 then data.fields[segments[0]]
    else Walk(data.fields[segments[0]], segments[1..])
  }

  /** Segments joined with '.'. */
  function JoinDots(segments: seq<string>): string
    requires |segments| > 0
  {
    if |segments| == 1 then segments[0] else segments[0] + "." + JoinDots(segments[1..])
  }

  /** The lookup of a dotted path is the walk along its segments. */
  lemma {:induction false} LookupIsWalk(data: Value, segments: seq<string>)
    requires |segments| > 0
    requires forall j :: 0 <= j < |segments| ==> '.' !in segments[j]
    ensures Lookup(data, JoinDots(segments)) == Walk(data, segments)
    decreases |segments|
  {
    var key := JoinDots(segments);
    if |segments| > 1 {
      var rest := JoinDots(segments[1..]);
      assert key == segments[0] + "." + rest;
      assert key[|segments[0]|] == '.';
      assert '.' in key;
      var i := FirstDot(key);
      assert key[..|segments[0]|] == segments[0];
      assert i == |segments[0]|;
      assert key[i + 1..] == rest;
      LookupIsWalk(if data.VMap? && segments[0] in data.fields then data.fields[segments[0]] else data, segments[1..]);
    }
  }
}
