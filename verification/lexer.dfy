/**
  The lexer of the tag rule language (`Lexer.read_input` / `Lexer.read_lexem`).

  The source lexer keeps a cursor, the current character `char` and its class.
  Here its state is the remaining input starting at the current character. At
  end of input `read_input` leaves `char` untouched, so the character examined
  right after the last one is that last character again: `CharAfter` models it.
*/
module Lexer {
  import opened Wrappers

  /** Lexical elements (the `Lexem` types of the source). */
  datatype Token =
    | Ident(name: string)
    | Number(value: real)
    | JsonPath(query: string)
    | Str(text: string)
    | Plus | Minus | Times | Divide | LPar | RPar
    | Eq | Neq | Lt | Gt | Lte | Gte
    | KwOr | KwAnd | KwNot | KwIn
    | Eoi

  /** The exceptions `read_lexem` raises. */
  datatype LexError =
    | SyntaxError                 // a character outside the grammar, or a lone '!' / '='
    | UnterminatedString
    | UnterminatedJsonPath
    | InvalidNumber               // a second '.' in a number, or a number that is just "."

  /** `isalpha() or == "_"`, restricted to ASCII. */
  predicate IsLetter(c: char) { ('a' <= c <= 'z') || ('A' <= c <= 'Z') || c == '_' }

  predicate IsDigit(c: char) { '0' <= c <= '9' }

  /** Characters that may continue an identifier: letters, digits and '.'. */
  predicate IsIdentChar(c: char) { IsLetter(c) || IsDigit(c) || c == '.' }

  /** Characters that may continue a number: digits and '.'. */
  predicate IsNumberChar(c: char) { IsDigit(c) || c == '.' }

  predicate IsKeyword(w: string) { w == "in" || w == "or" || w == "and" || w == "not" }

  /** `key_word`: the keyword token for a reserved word, otherwise an identifier. */
  function KeyWord(w: string): (t: Token)
    ensures t.Ident? <==> !IsKeyword(w)
    ensures t.Ident? ==> t.name == w
  {
    if w == "in" then KwIn
    else if w == "or" then KwOr
    else if w == "and" then KwAnd
    else if w == "not" then KwNot
    else Ident(w)
  }

  /** Only the space character is white space. */
  function SkipSpaces(s: string): (r: string)
    ensures |r| <= |s|
    ensures r == [] || r[0] != ' '
  {
    if s != [] && s[0] == ' ' then SkipSpaces(s[1..]) else s
  }

  /** The character the source examines after consuming `s[0]`. */
  function CharAfter(s: string): char
    requires s != []
  {
    if |s| > 1 then s[1] else s[0]
  }

  /** Remaining input after consuming one more character (nothing happens at end of input). */
  function Drop1(s: string): string
  {
    if s == [] then [] else s[1..]
  }

  /** Length of the longest prefix of `s` whose characters all satisfy `p`. */
  function Span(s: string, p: char -> bool): (n: nat)
    ensures n <= |s|
    ensures forall i :: 0 <= i < n ==> p(s[i])
    ensures n < |s| ==> !p(s[n])
  {
    if s != [] && p(s[0]) then 1 + Span(s[1..], p) else 0
  }

  /** Position of the first occurrence of `c` in `s`. */
  function IndexOf(s: string, c: char): (r: Option<nat>)
    ensures r.Some? ==> r.value < |s| && s[r.value] == c && c !in s[..r.value]
    ensures r.None? ==> c !in s
  {
    if s == [] then None
    else if s[0] == c then Some(0)
    else match IndexOf(s[1..], c)
      case None => None
      case Some(i) => assert s[..i + 1] == [s[0]] + s[1..][..i]; Some(i + 1)
  }

  /** Number of '.' characters in a string. */
  function CountDots(s: string): nat
  {
    if s == [] then 0 else (if s[0] == '.' then 1 else 0) + CountDots(s[1..])
  }

  function DigitValue(c: char): nat
    requires IsDigit(c)
  {
    (c as int - '0' as int) as nat
  }

  /** The integer spelled by the digits of a number lexeme, dots skipped. */
  function Mantissa(s: string): nat
    requires forall i :: 0 <= i < |s| ==> IsNumberChar(s[i])
  {
    if s == [] then 0
    else if s[|s| - 1] == '.' then Mantissa(s[..|s| - 1])
    else
      assert IsNumberChar(s[|s| - 1]);
      Mantissa(s[..|s| - 1]) * 10 + DigitValue(s[|s| - 1])
  }

  function Pow10(n: nat): (r: nat)
    ensures r > 0
  {
    if n == 0 then 1 else 10 * Pow10(n - 1)
  }

  /** `int(s)`, or `float(s)` when `s` holds a '.', for a number lexeme with at most one '.'. */
  function NumberValue(s: string): real
    requires forall i :: 0 <= i < |s| ==> IsNumberChar(s[i])
  {
    match IndexOf(s, '.')
    case None => Mantissa(s) as real
    case Some(d) => (Mantissa(s) as real) / (Pow10(|s| - d - 1) as real)
  }

  /** `read_lexem`: skip spaces and read one lexical element from the remaining input.
      Yields the token and the input that follows it. */
  function ReadLexem(rest: string): (r: Result<(Token, string), LexError>)
    ensures r.Ok? && r.value.0 != Eoi ==> |r.value.1| < |rest|
    ensures r.Ok? && r.value.0 == Eoi ==> r.value.1 == [] && SkipSpaces(rest) == []
  {
    var s := SkipSpaces(rest);
    if s == [] then Ok((Eoi, []))
    else if IsOperatorChar(s[0]) then ReadOperator(s)
    else if s[0] == '\'' || s[0] == '"' || s[0] == '`' then ReadQuoted(s)
    else if IsLetter(s[0]) then ReadIdent(s)
    else if IsNumberChar(s[0]) then ReadNumber(s)
    else Err(SyntaxError)
  }

  predicate IsOperatorChar(c: char)
  {
    c == '+' || c == '-' || c == '*' || c == '/' || c == '(' || c == ')'
    || c == '=' || c == '!' || c == '<' || c == '>'
  }

  /** The operator branches of `read_lexem`. */
  function ReadOperator(s: string): (r: Result<(Token, string), LexError>)
    requires s != [] && IsOperatorChar(s[0])
    ensures r.Ok? ==> |r.value.1| < |s| && r.value.0 != Eoi
  {
    var c := s[0];
    var next := s[1..];
    if c == '+' then Ok((Plus, next))
    else if c == '-' then Ok((Minus, next))
    else if c == '*' then Ok((Times, next))
    else if c == '/' then Ok((Divide, next))
    else if c == '(' then Ok((LPar, next))
    else if c == ')' then Ok((RPar, next))
    else if c == '=' then
      if CharAfter(s) == '=' then Ok((Eq, Drop1(next))) else Err(SyntaxError)
    else if c == '!' then
      if CharAfter(s) == '=' then Ok((Neq, Drop1(next))) else Err(SyntaxError)
    else if c == '<' then
      if CharAfter(s) == '=' then Ok((Lte, Drop1(next))) else Ok((Lt, next))
    else
      if CharAfter(s) == '=' then Ok((Gte, Drop1(next))) else Ok((Gt, next))
  }

  /** Quoted strings ('...' or "...") and backtick-delimited JSONPath expressions:
      everything up to the matching delimiter. */
  function ReadQuoted(s: string): (r: Result<(Token, string), LexError>)
    requires s != [] && (s[0] == '\'' || s[0] == '"' || s[0] == '`')
    ensures r.Ok? ==> |r.value.1| < |s| && r.value.0 != Eoi
  {
    var next := s[1..];
    match IndexOf(next, s[0])
    case None => if s[0] == '`' then Err(UnterminatedJsonPath) else Err(UnterminatedString)
    case Some(j) =>
      var body := next[..j];
      Ok((if s[0] == '`' then JsonPath(body) else Str(body), next[j + 1..]))
  }

  /** Identifiers and keywords: a letter followed by letters, digits and dots. */
  function ReadIdent(s: string): (r: Result<(Token, string), LexError>)
    requires s != [] && IsLetter(s[0])
    ensures r.Ok? && |r.value.1| < |s| && r.value.0 != Eoi
  {
    var n := Span(s, IsIdentChar);
    Ok((KeyWord(s[..n]), s[n..]))
  }

  /** Numbers: digits with at most one '.'; a lone "." is rejected by `float()`. */
  function ReadNumber(s: string): (r: Result<(Token, string), LexError>)
    requires s != [] && IsNumberChar(s[0])
    ensures r.Ok? ==> |r.value.1| < |s| && r.value.0 != Eoi
  {
    var n := Span(s, IsNumberChar);
    var text := s[..n];
    if CountDots(text) > 1 || text == "." then Err(InvalidNumber)
    else Ok((Number(NumberValue(text)), s[n..]))
  }

  /** The token stream of a text: the tokens read before end of input or before the
      first lexical error, and whether an error ended it. */
  datatype Lexed = Lexed(tokens: seq<Token>, failed: bool)

  function Tokenize(rest: string): (r: Lexed)
    ensures Eoi !in r.tokens
    decreases |rest|
  {
    match ReadLexem(rest)
    case Err(_) => Lexed([], true)
    case Ok((t, after)) =>
      if t == Eoi then Lexed([], false)
      else
        var tail := Tokenize(after);
        Lexed([t] + tail.tokens, tail.failed)
  }

  // ---------------------------------------------------------------------------
  // Properties of single lexemes

  /** `==`, `!=`, `<=` and `>=` are single tokens whatever follows them. */
  lemma TwoCharOperators(tail: string)
    ensures ReadLexem("==" + tail) == Ok((Eq, tail))
    ensures ReadLexem("!=" + tail) == Ok((Neq, tail))
    ensures ReadLexem("<=" + tail) == Ok((Lte, tail))
    ensures ReadLexem(">=" + tail) == Ok((Gte, tail))
  {
    assert ("==" + tail)[1..][1..] == tail;
    assert ("!=" + tail)[1..][1..] == tail;
    assert ("<=" + tail)[1..][1..] == tail;
    assert (">=" + tail)[1..][1..] == tail;
  }

  /** A '=' at the very end of the input is read as `==`, because the source compares
      the stale current character with '='; a '!' there is an error. */
  lemma TrailingEqualsIsEq(rest: string)
    ensures SkipSpaces(rest) == "=" ==> ReadLexem(rest) == Ok((Eq, []))
    ensures SkipSpaces(rest) == "!" ==> ReadLexem(rest).Err?
  {
    var s := SkipSpaces(rest);
    if s == "=" || s == "!" {
      assert s[0] in "=!" && |s| == 1;
      assert IsOperatorChar(s[0]) && CharAfter(s) == s[0];
      assert ReadLexem(rest) == ReadOperator(s);
    }
  }

  /** A '=' or '!' followed by anything other than '=' is an error. */
  lemma LoneEqualsOrBangFails(c: char, tail: string)
    requires c == '=' || c == '!'
    requires tail != [] && tail[0] != '='
    ensures ReadLexem([c] + tail) == Err(SyntaxError)
  {
    assert ([c] + tail)[1] == tail[0];
  }

  /** A string or JSONPath without its closing delimiter is an error. */
  lemma UnterminatedQuotesFail(q: char, body: string)
    requires q == '\'' || q == '"' || q == '`'
    requires q !in body
    ensures ReadLexem([q] + body).Err?
  {
    assert ([q] + body)[1..] == body;
  }

  /** Tabs (and every other character outside the grammar) are errors. */
  lemma OutsideGrammarFails(c: char, tail: string)
    requires !IsLetter(c) && !IsNumberChar(c) && c != ' '
    requires !IsOperatorChar(c) && c != '\'' && c != '"' && c != '`'
    ensures ReadLexem([c] + tail) == Err(SyntaxError)
  {
  }

  /** A number lexeme holding a second '.' is an error. */
  lemma SecondDotFails(s: string)
    requires s != [] && forall i :: 0 <= i < |s| ==> IsNumberChar(s[i])
    requires CountDots(s) > 1
    ensures ReadLexem(s) == Err(InvalidNumber)
  {
    assert IsNumberChar(s[0]);
    SkipSpacesNoSpace(s);
    ReadNumberAll(s);
  }

  lemma ReadNumberAll(s: string)
    requires s != [] && forall i :: 0 <= i < |s| ==> IsNumberChar(s[i])
    requires CountDots(s) > 1
    ensures ReadNumber(s) == Err(InvalidNumber)
  {
    SpanAll(s, IsNumberChar);
    assert s[..|s|] == s;
  }

  // ---------------------------------------------------------------------------
  // Helper facts

  lemma SkipSpacesAppend(prefix: string, s: string)
    requires SkipSpaces(prefix) == []
    ensures SkipSpaces(prefix + s) == SkipSpaces(s)
  {
    if prefix == [] {
      assert prefix + s == s;
    } else {
      assert prefix[0] == ' ';
      assert (prefix + s)[0] == ' ';
      assert (prefix + s)[1..] == prefix[1..] + s;
      SkipSpacesAppend(prefix[1..], s);
    }
  }

  lemma SkipSpacesNoSpace(s: string)
    requires s != [] && s[0] != ' '
    ensures SkipSpaces(s) == s
  {
  }

  lemma SpanAll(s: string, p: char -> bool)
    requires forall i :: 0 <= i < |s| ==> p(s[i])
    ensures Span(s, p) == |s|
  {
    if s != [] {
      assert forall i :: 0 <= i < |s[1..]| ==> p(s[1..][i]) by {
        forall i | 0 <= i < |s[1..]| ensures p(s[1..][i]) { assert s[1..][i] == s[i + 1]; }
      }
      SpanAll(s[1..], p);
    }
  }

  lemma CountDotsAppend(a: string, b: string)
    ensures CountDots(a + b) == CountDots(a) + CountDots(b)
  {
    if a == [] {
      assert a + b == b;
    } else {
      assert (a + b)[0] == a[0];
      assert (a + b)[1..] == a[1..] + b;
      CountDotsAppend(a[1..], b);
    }
  }
}
