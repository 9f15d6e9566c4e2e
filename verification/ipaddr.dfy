/**
  Dotted-quad IPv4 addresses as the visualizer reads them: the `IP_RE` pattern of
  `IPVisualizator-backend/IPVisualizator.py`, and the fold of the dotted text into
  a 32-bit integer with its /16 bucket used throughout
  `IPVisualizator-backend/redisdb.py`.
*/
module IpAddr {
  import opened Bits

  predicate IsDigit(c: char) { '0' <= c <= '9' }

  function DigitVal(c: char): nat
    requires IsDigit(c)
  {
    (c as int) - ('0' as int)
  }

  predicate AllDigits(s: string)
  {
    forall i :: 0 <= i < |s| ==> IsDigit(s[i])
  }

  /** Python `int` of a string of decimal digits. */
  function Decimal(s: string): nat
    requires AllDigits(s)
  {
    if s == [] then 0 else Decimal(s[..|s| - 1]) * 10 + DigitVal(s[|s| - 1])
  }

  // ---------------------------------------------------------------------------
  // str.split

  /** Python `s.split(c)`: the pieces between separators, always at least one. */
  function Split(s: string, c: char): (r: seq<string>)
    ensures |r| >= 1
  {
    if s == [] then [[]]
    else
      var rest := Split(s[1..], c);
      if s[0] == c then [[]] + rest else [[s[0]] + rest[0]] + rest[1..]
  }

  function Join(parts: seq<string>, c: char): string
    requires |parts| >= 1
  {
    if |parts| == 1 then parts[0] else parts[0] + [c] + Join(parts[1..], c)
  }

  /** Splitting loses nothing: the pieces joined back give the text, and no piece
      holds the separator. */
  lemma {:induction false} SplitJoin(s: string, c: char)
    ensures Join(Split(s, c), c) == s
    ensures forall k :: 0 <= k < |Split(s, c)| ==> c !in Split(s, c)[k]
    decreases |s|
  {
    if s != [] {
      SplitJoin(s[1..], c);
      var rest := Split(s[1..], c);
      if s[0] == c {
        assert ([[]] + rest)[1..] == rest;
      } else {
        var r := [[s[0]] + rest[0]] + rest[1..];
        if |rest| > 1 {
          assert r[1..] == rest[1..];
          assert Join(rest, c) == rest[0] + [c] + Join(rest[1..], c);
        }
        assert s == [s[0]] + s[1..];
      }
    }
  }

  /** The piece before the first separator comes first. */
  lemma {:induction false} SplitCons(a: string, c: char, rest: string)
    requires c !in a
    ensures Split(a + [c] + rest, c) == [a] + Split(rest, c)
    decreases |a|
  {
    if a == [] {
      assert a + [c] + rest == [c] + rest;
      assert ([c] + rest)[1..] == rest;
    } else {
      var s := a + [c] + rest;
      assert s[1..] == a[1..] + [c] + rest;
      SplitCons(a[1..], c, rest);
      assert [a[0]] + a[1..] == a;
    }
  }

  /** Every character of a piece comes from the text. */
  lemma {:induction false} SplitChars(s: string, c: char, k: nat, x: char)
    requires k < |Split(s, c)| && x in Split(s, c)[k]
    ensures x in s && x != c
    decreases |s|
  {
    SplitJoin(s, c);
    if s != [] {
      var rest := Split(s[1..], c);
      if s[0] == c {
        SplitChars(s[1..], c, k - 1, x);
      } else if k == 0 {
        if x != s[0] {
          SplitChars(s[1..], c, 0, x);
        }
      } else {
        SplitChars(s[1..], c, k, x);
      }
    }
  }

  lemma {:induction false} SplitSingle(a: string, c: char)
    requires c !in a
    ensures Split(a, c) == [a]
    decreases |a|
  {
    if a != [] {
      SplitSingle(a[1..], c);
      assert [a[0]] + a[1..] == a;
    }
  }

  // ---------------------------------------------------------------------------
  // IP_RE

  /** `25[0-5]|2[0-4][0-9]|[01]?[0-9][0-9]?`, one octet of `IP_RE`. */
  predicate OctetPattern(o: string)
  {
    (|o| == 3 && o[0] == '2' && o[1] == '5' && '0' <= o[2] <= '5')
    || (|o| == 3 && o[0] == '2' && '0' <= o[1] <= '4' && IsDigit(o[2]))
    || (|o| == 1 && IsDigit(o[0]))
    || (|o| == 2 && IsDigit(o[0]) && IsDigit(o[1]))
    || (|o| == 2 && (o[0] == '0' || o[0] == '1') && IsDigit(o[1]))
    || (|o| == 3 && (o[0] == '0' || o[0] == '1') && IsDigit(o[1]) && IsDigit(o[2]))
  }

  /** An octet of `IP_RE` is one to three digits with a value of at most 255;
      leading zeros are allowed. */
  lemma OctetPatternValue(o: string)
    ensures OctetPattern(o) <==> 1 <= |o| <= 3 && AllDigits(o) && Decimal(o) <= 255
  {
    if 1 <= |o| <= 3 && AllDigits(o) {
      DecimalShort(o);
    }
  }

  /** The value of one to three digits, most significant first. */
  lemma DecimalShort(s: string)
    requires 1 <= |s| <= 3 && AllDigits(s)
    ensures |s| == 1 ==> Decimal(s) == DigitVal(s[0])
    ensures |s| == 2 ==> Decimal(s) == DigitVal(s[0]) * 10 + DigitVal(s[1])
    ensures |s| == 3 ==> Decimal(s) == (DigitVal(s[0]) * 10 + DigitVal(s[1])) * 10 + DigitVal(s[2])
  {
    var one := s[..1];
    assert one[..0] == [];
    assert Decimal(one) == DigitVal(s[0]);
    if |s| >= 2 {
      var two := s[..2];
      assert two[..1] == one;
      assert Decimal(two) == DigitVal(s[0]) * 10 + DigitVal(s[1]);
      if |s| == 3 {
        assert s[..2] == two;
      } else {
        assert s == two;
      }
    } else {
      assert s == one;
    }
  }

  /** `(octet\.){3}octet`: four octets separated by dots. */
  predicate DottedQuad(t: string)
  {
    var parts := Split(t, '.');
    |parts| == 4 && forall k :: 0 <= k < 4 ==> OctetPattern(parts[k])
  }

  /** `IP_RE.match(s) is not None`: `$` also matches before a final line break. */
  predicate IpPattern(s: string)
  {
    DottedQuad(s) || (|s| > 0 && s[|s| - 1] == '\n' && DottedQuad(s[..|s| - 1]))
  }

  // ---------------------------------------------------------------------------
  // The fold into an integer

  /** `functools.reduce(lambda out, x: (out << 8) + int(x), parts, 0)`. */
  function Fold(xs: seq<nat>): nat
  {
    if xs == [] then 0 else Fold(xs[..|xs| - 1]) * 256 + xs[|xs| - 1]
  }

  function Octets(t: string): (r: seq<nat>)
    requires DottedQuad(t)
    ensures |r| == 4 && forall k :: 0 <= k < 4 ==> r[k] <= 255
  {
    var parts := Split(t, '.');
    forall k | 0 <= k < 4 ensures 1 <= |parts[k]| <= 3 && AllDigits(parts[k]) && Decimal(parts[k]) <= 255 {
      OctetPatternValue(parts[k]);
    }
    [Decimal(parts[0]), Decimal(parts[1]), Decimal(parts[2]), Decimal(parts[3])]
  }

  /** The integer of an address text accepted by `IP_RE` (without the final line
      break). */
  function IpToInt(t: string): nat
    requires DottedQuad(t)
  {
    Fold(Octets(t))
  }

  /** `ip >> 16`: the /16 network an address belongs to. */
  function Bucket(n: nat): nat
  {
    n / 65536
  }

  /** The address's octets, most significant first. */
  function IntToOctets(n: nat): (r: seq<nat>)
    ensures |r| == 4 && forall k :: 0 <= k < 4 ==> r[k] <= 255
  {
    [n / 16777216 % 256, n / 65536 % 256, n / 256 % 256, n % 256]
  }

  lemma FoldFour(a: nat, b: nat, c: nat, d: nat)
    ensures Fold([a, b, c, d]) == ((a * 256 + b) * 256 + c) * 256 + d
  {
    assert [a][..0] == [];
    assert Fold([a]) == a;
    assert [a, b][..1] == [a];
    assert Fold([a, b]) == a * 256 + b;
    assert [a, b, c][..2] == [a, b];
    assert Fold([a, b, c]) == (a * 256 + b) * 256 + c;
    assert [a, b, c, d][..3] == [a, b, c];
  }

  /** Four octets of at most 255 fold to an address below 2^32, whose bucket is its
      first two octets, and from which the octets come back. */
  lemma FoldOctets(xs: seq<nat>)
    requires |xs| == 4 && forall k :: 0 <= k < 4 ==> xs[k] <= 255
    ensures Fold(xs) < Pow2(32)
    ensures Bucket(Fold(xs)) == xs[0] * 256 + xs[1]
    ensures IntToOctets(Fold(xs)) == xs
  {
    var a, b, c, d := xs[0], xs[1], xs[2], xs[3];
    assert xs == [a, b, c, d];
    FoldFour(a, b, c, d);
    Pow2Value32();
    OctetsHigh(a, b, c * 256 + d);
    OctetsLow(a * 256 + b, c, d);
  }

  /** The upper half of a 32-bit number made of two 16-bit halves. */
  lemma OctetsHigh(a: nat, b: nat, lo: nat)
    requires a <= 255 && b <= 255 && lo < 65536
    ensures var n := (a * 256 + b) * 65536 + lo;
      && n < 4294967296 && n / 65536 == a * 256 + b
      && n / 16777216 % 256 == a && n / 65536 % 256 == b
  {
    var hi := a * 256 + b;
    var n := hi * 65536 + lo;
    MulMonotone(hi, 65535, 65536);
    DivUnique(n, 65536, hi, lo);
    DivUnique(hi, 256, a, b);
    assert n == a * 16777216 + (b * 65536 + lo);
    MulMonotone(b, 255, 65536);
    DivUnique(n, 16777216, a, b * 65536 + lo);
  }

  /** The lower half: the third and fourth octets. */
  lemma OctetsLow(hi: nat, c: nat, d: nat)
    requires c <= 255 && d <= 255
    ensures var n := hi * 65536 + (c * 256 + d);
      && n == ((hi * 256 + c) * 256 + d)
      && n / 256 % 256 == c && n % 256 == d
  {
    var n := hi * 65536 + (c * 256 + d);
    assert n == (hi * 256 + c) * 256 + d;
    DivUnique(n, 256, hi * 256 + c, d);
    DivUnique(hi * 256 + c, 256, hi, c);
  }

  /** Every address below 2^32 is the fold of its octets. */
  lemma OctetsFold(n: nat)
    requires n < Pow2(32)
    ensures Fold(IntToOctets(n)) == n
  {
    Pow2Value32();
    var a, b, c, d := n / 16777216 % 256, n / 65536 % 256, n / 256 % 256, n % 256;
    FoldFour(a, b, c, d);
    DivDiv(n, 256, 256);
    DivDiv(n, 65536, 256);
    assert n / 16777216 < 256 by { DivBound(n, 16777216, 256); }
    assert a == n / 16777216;
    assert n / 256 == (n / 256 / 256) * 256 + c;
    assert n / 65536 == (n / 65536 / 256) * 256 + b;
    assert n == (n / 256) * 256 + d;
  }

  lemma Pow2Value32()
    ensures Pow2(32) == 4294967296
  {
    Pow2Small();
    Pow2Add(16, 16);
  }

  /** The text of an accepted address folds to an address below 2^32. */
  lemma IpToIntBound(t: string)
    requires DottedQuad(t)
    ensures IpToInt(t) < Pow2(32)
    ensures Bucket(IpToInt(t)) < 65536
  {
    FoldOctets(Octets(t));
  }

  /** The text of four dot-free pieces joined with dots splits back into them. */
  lemma SplitQuad(a: string, b: string, c: string, d: string)
    requires '.' !in a && '.' !in b && '.' !in c && '.' !in d
    ensures Split(a + "." + b + "." + c + "." + d, '.') == [a, b, c, d]
  {
    var t3 := c + ['.'] + d;
    SplitSingle(d, '.');
    SplitCons(c, '.', d);
    var t2 := b + ['.'] + t3;
    SplitCons(b, '.', t3);
    var t1 := a + ['.'] + t2;
    SplitCons(a, '.', t2);
    JoinNest(a, b, c, d);
  }

  lemma JoinNest(a: string, b: string, c: string, d: string)
    ensures a + "." + b + "." + c + "." + d == a + ['.'] + (b + ['.'] + (c + ['.'] + d))
  {
    assert "." == ['.'];
  }

  /** Leading zeros are accepted and give the same address: the texts "1.2.3.4" and
      "01.2.3.4" are distinct keys that fold to the same integer. */
  lemma LeadingZerosCollide()
    ensures DottedQuad("1.2.3.4") && DottedQuad("01.2.3.4")
    ensures IpToInt("1.2.3.4") == IpToInt("01.2.3.4") == 16909060
  {
    QuadText("1");
    assert "1" + ".2.3.4" == "1.2.3.4";
    QuadText("01");
    assert "01" + ".2.3.4" == "01.2.3.4";
    FoldFour(1, 2, 3, 4);
    assert Fold([1, 2, 3, 4]) == 16909060;
  }

  /** Four octets joined with dots form an accepted address whose octets are their
      values. */
  lemma QuadOctets(a: string, b: string, c: string, d: string)
    requires OctetPattern(a) && OctetPattern(b) && OctetPattern(c) && OctetPattern(d)
    ensures DottedQuad(a + "." + b + "." + c + "." + d)
    ensures Octets(a + "." + b + "." + c + "." + d)
         == [Decimal(a), Decimal(b), Decimal(c), Decimal(d)]
  {
    var t := a + "." + b + "." + c + "." + d;
    QuadSplit(a, b, c, d);
    var parts := Split(t, '.');
    assert parts[0] == a && parts[1] == b && parts[2] == c && parts[3] == d;
    assert DottedQuad(t);
  }

  /** The address of four octets joined with dots, and its /16 network. */
  lemma QuadAddress(a: string, b: string, c: string, d: string)
    requires OctetPattern(a) && OctetPattern(b) && OctetPattern(c) && OctetPattern(d)
    ensures DottedQuad(a + "." + b + "." + c + "." + d)
    ensures AllDigits(a) && AllDigits(b)
      && Bucket(IpToInt(a + "." + b + "." + c + "." + d)) == Decimal(a) * 256 + Decimal(b)
  {
    OctetPatternValue(a);
    OctetPatternValue(b);
    OctetPatternValue(c);
    OctetPatternValue(d);
    QuadOctets(a, b, c, d);
    FoldOctets([Decimal(a), Decimal(b), Decimal(c), Decimal(d)]);
  }

  lemma QuadSplit(a: string, b: string, c: string, d: string)
    requires OctetPattern(a) && OctetPattern(b) && OctetPattern(c) && OctetPattern(d)
    ensures Split(a + "." + b + "." + c + "." + d, '.') == [a, b, c, d]
  {
    NoDot(a);
    NoDot(b);
    NoDot(c);
    NoDot(d);
    SplitQuad(a, b, c, d);
  }

  lemma NoDot(o: string)
    requires OctetPattern(o)
    ensures '.' !in o
  {
    OctetPatternValue(o);
  }

  lemma QuadText(first: string)
    requires first == "1" || first == "01"
    ensures DottedQuad(first + ".2.3.4")
    ensures Octets(first + ".2.3.4") == [1, 2, 3, 4]
  {
    SplitQuad(first, "2", "3", "4");
    assert first + "." + "2" + "." + "3" + "." + "4" == first + ".2.3.4";
    DecimalShort(first);
    DecimalShort("2");
    DecimalShort("3");
    DecimalShort("4");
  }

  /** `IP_RE` accepts a final line break. */
  lemma PatternAcceptsLineBreak()
    ensures IpPattern("10.0.0.1\n")
  {
    var t := "10" + "." + "0" + "." + "0" + "." + "1";
    QuadOctets("10", "0", "0", "1");
    var s := t + "\n";
    assert s == "10.0.0.1\n";
    assert s[..|s| - 1] == t;
  }

  /** `IP_RE` rejects an octet above 255. */
  lemma PatternRejectsLargeOctet()
    ensures !IpPattern("256.0.0.1")
  {
    SplitQuad("256", "0", "0", "1");
    assert "256" + "." + "0" + "." + "0" + "." + "1" == "256.0.0.1";
    var parts := Split("256.0.0.1", '.');
    assert parts[0] == "256";
    assert !OctetPattern(parts[0]);
    var t := "256.0.0.1";
    assert t[|t| - 1] == '1';
  }
}
