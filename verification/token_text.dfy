/**
  Rendering tokens back to text, and the round trip of the lexer: a sequence of
  well-formed tokens written out with single spaces between them is read back as
  exactly that sequence.
*/
module TokenText {
  import opened Wrappers
  import opened Lexer

  /** Decimal digits of a natural number, most significant first. */
  function Digits(k: nat): (r: string)
    ensures r != []
    ensures forall i :: 0 <= i < |r| ==> IsDigit(r[i])
    decreases k
  {
    if k < 10 then [DigitChar(k)] else Digits(k / 10) + [DigitChar(k % 10)]
  }

  function DigitChar(d: nat): (c: char)
    requires d < 10
    ensures IsDigit(c) && DigitValue(c) == d
  {
    ('0' as int + d) as char
  }

  /** Tokens that have a spelling the lexer reads back: no `Eoi`, identifiers that are
      not keywords, natural numbers, strings without '"', JSONPath without '`'. */
  predicate WellFormed(t: Token)
  {
    match t
    case Eoi => false
    case Ident(name) =>
      name != [] && IsLetter(name[0]) && !IsKeyword(name)
      && forall i :: 0 <= i < |name| ==> IsIdentChar(name[i])
    case Number(v) => v >= 0.0 && v == v.Floor as real
    case Str(text) => '"' !in text
    case JsonPath(query) => '`' !in query
    case _ => true
  }

  /** The spelling of one token. */
  function Spell(t: Token): (r: string)
    requires WellFormed(t)
    ensures r != [] && r[0] != ' '
  {
    match t
    case Ident(name) => name
    case Number(v) => Digits(v.Floor)
    case Str(text) => ['"'] + text + ['"']
    case JsonPath(query) => ['`'] + query + ['`']
    case Plus => "+"
    case Minus => "-"
    case Times => "*"
    case Divide => "/"
    case LPar => "("
    case RPar => ")"
    case Eq => "=="
    case Neq => "!="
    case Lt => "<"
    case Gt => ">"
    case Lte => "<="
    case Gte => ">="
    case KwOr => "or"
    case KwAnd => "and"
    case KwNot => "not"
    case KwIn => "in"
  }

  /** Tokens spelled one after another, separated by single spaces. */
  function Render(ts: seq<Token>): string
    requires forall i :: 0 <= i < |ts| ==> WellFormed(ts[i])
  {
    if ts == [] then ""
    else if |ts| == 1 then Spell(ts[0])
    else Spell(ts[0]) + " " + Render(ts[1..])
  }

  // ---------------------------------------------------------------------------
  // The round trip

  /** Every well-formed token is read back from its spelling, whatever follows it
      as long as that starts with a space or is the end of input. */
  lemma SpellRead(t: Token, tail: string)
    requires WellFormed(t)
    requires tail == [] || tail[0] == ' '
    ensures ReadLexem(Spell(t) + tail) == Ok((t, tail))
  {
    var s := Spell(t) + tail;
    assert s[0] == Spell(t)[0];
    SkipSpacesNoSpace(s);
    match t
    case Ident(name) =>
      SpanPrefix(name, tail, IsIdentChar);
      assert s[..|name|] == name && s[|name|..] == tail;
    case Number(v) =>
      NumberRead(v.Floor, tail);
    case Str(text) =>
      QuotedRead('"', text, tail);
    case JsonPath(query) =>
      QuotedRead('`', query, tail);
    case Eq => TwoCharOperators(tail);
    case Neq => TwoCharOperators(tail);
    case Lte => TwoCharOperators(tail);
    case Gte => TwoCharOperators(tail);
    case KwOr => KeywordRead("or", tail);
    case KwAnd => KeywordRead("and", tail);
    case KwNot => KeywordRead("not", tail);
    case KwIn => KeywordRead("in", tail);
    case Plus => assert s[1..] == tail;
    case Minus => assert s[1..] == tail;
    case Times => assert s[1..] == tail;
    case Divide => assert s[1..] == tail;
    case LPar => assert s[1..] == tail;
    case RPar => assert s[1..] == tail;
    case Lt => assert s[1..] == tail;
    case Gt => assert s[1..] == tail;
    case Eoi =>
  }

  lemma KeywordRead(w: string, tail: string)
    requires w == "or" || w == "and" || w == "not" || w == "in"
    requires tail == [] || tail[0] == ' '
    ensures ReadIdent(w + tail) == Ok((KeyWord(w), tail))
  {
    var s := w + tail;
    assert forall i :: 0 <= i < |w| ==> 'a' <= w[i] <= 'z';
    SpanPrefix(w, tail, IsIdentChar);
    assert s[..|w|] == w && s[|w|..] == tail;
  }

  lemma NumberRead(k: nat, tail: string)
    requires tail == [] || tail[0] == ' '
    ensures ReadNumber(Digits(k) + tail) == Ok((Number(k as real), tail))
  {
    var d := Digits(k);
    var s := d + tail;
    assert s[0] == d[0];
    SpanPrefix(d, tail, IsNumberChar);
    assert s[..|d|] == d && s[|d|..] == tail;
    DigitsHaveNoDot(k);
    NoDotIndex(d);
    NoDotCount(d);
    assert d != "." by { assert IsDigit(d[0]); }
    MantissaDigits(k);
    assert NumberValue(d) == k as real;
  }

  lemma NoDotCount(s: string)
    requires '.' !in s
    ensures CountDots(s) == 0
  {
    if s != [] {
      assert s[0] != '.';
      NoDotCount(s[1..]);
    }
  }

  lemma QuotedRead(q: char, body: string, tail: string)
    requires q == '"' || q == '`'
    requires q !in body
    requires tail == [] || tail[0] == ' '
    ensures ReadQuoted([q] + body + [q] + tail)
         == Ok((if q == '`' then JsonPath(body) else Str(body), tail))
  {
    var s := [q] + body + [q] + tail;
    var next := s[1..];
    assert next == body + ([q] + tail);
    IndexAfter(body, q, tail);
    assert next[..|body|] == body;
    assert next[|body| + 1..] == tail;
  }

  /** Writing tokens out and reading them back gives the same tokens and no error. */
  lemma {:induction false} TokenizeRender(ts: seq<Token>)
    requires forall i :: 0 <= i < |ts| ==> WellFormed(ts[i])
    ensures Tokenize(Render(ts)) == Lexed(ts, false)
    decreases |ts|
  {
    if ts == [] {
    } else if |ts| == 1 {
      SpellRead(ts[0], []);
      assert Spell(ts[0]) + [] == Spell(ts[0]);
      assert Tokenize([]) == Lexed([], false);
    } else {
      var rest := Render(ts[1..]);
      var s := Render(ts);
      assert s == Spell(ts[0]) + (" " + rest);
      SpellRead(ts[0], " " + rest);
      assert ReadLexem(s) == Ok((ts[0], " " + rest));
      var after := Tokenize(" " + rest);
      assert Tokenize(s) == Lexed([ts[0]] + after.tokens, after.failed);
      TokenizeSpace(rest);
      TokenizeRender(ts[1..]);
      assert [ts[0]] + ts[1..] == ts;
    }
  }

  // ---------------------------------------------------------------------------
  // Helper facts

  /** A leading space changes nothing. */
  lemma TokenizeSpace(x: string)
    ensures Tokenize(" " + x) == Tokenize(x)
  {
    assert (" " + x)[1..] == x;
    assert ReadLexem(" " + x) == ReadLexem(x);
  }

  lemma SpanPrefix(a: string, b: string, p: char -> bool)
    requires forall i :: 0 <= i < |a| ==> p(a[i])
    requires b == [] || !p(b[0])
    ensures Span(a + b, p) == |a|
  {
    var s := a + b;
    assert forall i :: 0 <= i < |a| ==> s[i] == a[i];
    assert |a| < |s| ==> s[|a|] == b[0];
  }

  lemma IndexAfter(a: string, c: char, b: string)
    requires c !in a
    ensures IndexOf(a + ([c] + b), c) == Some(|a|)
    decreases |a|
  {
    if a == [] {
      assert a + ([c] + b) == [c] + b;
    } else {
      assert (a + ([c] + b))[0] == a[0];
      assert (a + ([c] + b))[1..] == a[1..] + ([c] + b);
      IndexAfter(a[1..], c, b);
    }
  }

  lemma DigitsHaveNoDot(k: nat)
    ensures '.' !in Digits(k)
  {
    var d := Digits(k);
    assert forall i :: 0 <= i < |d| ==> d[i] != '.';
  }

  lemma NoDotIndex(s: string)
    requires '.' !in s
    ensures IndexOf(s, '.') == None
  {
  }

  lemma {:induction false} MantissaDigits(k: nat)
    ensures Mantissa(Digits(k)) == k
    decreases k
  {
    var d := Digits(k);
    if k < 10 {
      assert d[..0] == [];
    } else {
      assert d[..|d| - 1] == Digits(k / 10);
      assert d[|d| - 1] == DigitChar(k % 10);
      MantissaDigits(k / 10);
    }
  }
}
