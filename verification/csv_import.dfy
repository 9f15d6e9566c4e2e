/**
  The upload format of `IPVisualizator-backend/IPVisualizator.py`: `is_ip`, the
  `ip` format check of the API schema, and `convert_ip_data_from_csv`, which turns
  the uploaded text into the address-to-value dictionary that `create_dataset`
  stores. The text is taken as already decoded; Python's `float` is a parameter.
*/
module CsvImport {
  import opened Wrappers
  import opened IpAddr
  import DatasetStore

  // ---------------------------------------------------------------------------
  // is_ip

  /** A value checked against the `ip` format: only strings are looked at. */
  datatype FormatInput = Text(s: string) | NotText

  /** `is_ip`: anything that is not a string passes; a string must match
      `IP_RE`, which also lets a final line break through. */
  function IsIp(v: FormatInput): (ok: bool)
    ensures v.NotText? ==> ok
    ensures v.Text? ==> (ok <==> DottedQuad(v.s) || (|v.s| > 0 && v.s[|v.s| - 1] == '\n' && DottedQuad(v.s[..|v.s| - 1])))
  {
    match v
    case NotText => true
    case Text(s) => IpPattern(s)
  }

  lemma IsIpExamples()
    ensures IsIp(NotText)
    ensures IsIp(Text("10.0.0.1\n"))
    ensures !IsIp(Text("256.0.0.1"))
  {
    PatternAcceptsLineBreak();
    PatternRejectsLargeOctet();
  }

  // ---------------------------------------------------------------------------
  // bytes.splitlines

  predicate IsBreak(c: char) { c == '\n' || c == '\r' }

  /** The first line and the text after its terminator; `\r\n` is one
      terminator. */
  function BreakLine(s: string): (r: (string, string))
    requires s != []
    ensures |r.1| < |s|
    ensures forall x :: x in r.0 ==> x in s && !IsBreak(x)
  {
    if IsBreak(s[0]) then
      if s[0] == '\r' && |s| > 1 && s[1] == '\n' then ([], s[2..]) else ([], s[1..])
    else if |s| == 1 then (s, [])
    else
      var (line, rest) := BreakLine(s[1..]);
      ([s[0]] + line, rest)
  }

  /** `records.splitlines()` on bytes: lines end at `\n`, `\r` or `\r\n`, and a
      final terminator does not start an empty line. */
  function SplitLines(s: string): (lines: seq<string>)
    ensures forall k, x :: 0 <= k < |lines| && x in lines[k] ==> !IsBreak(x)
    decreases |s|
  {
    if s == [] then [] else var (line, rest) := BreakLine(s); [line] + SplitLines(rest)
  }

  /** A text without line breaks is one line, and a line followed by `\n` comes
      first. */
  lemma {:induction false} SplitLinesCons(a: string, rest: string)
    requires forall x :: x in a ==> !IsBreak(x)
    ensures SplitLines(a + "\n" + rest) == [a] + SplitLines(rest)
    ensures a != [] ==> SplitLines(a) == [a]
  {
    BreakLineCons(a, rest);
    if a != [] {
      BreakLineWhole(a);
    }
  }

  lemma {:induction false} BreakLineCons(a: string, rest: string)
    requires forall x :: x in a ==> !IsBreak(x)
    ensures BreakLine(a + "\n" + rest) == (a, rest)
    decreases |a|
  {
    if a == [] {
      assert a + "\n" + rest == ['\n'] + rest;
      assert (['\n'] + rest)[1..] == rest;
    } else {
      assert (a + "\n" + rest)[1..] == a[1..] + "\n" + rest;
      assert a[0] in a;
      BreakLineCons(a[1..], rest);
      assert [a[0]] + a[1..] == a;
    }
  }

  lemma {:induction false} BreakLineWhole(a: string)
    requires a != [] && forall x :: x in a ==> !IsBreak(x)
    ensures BreakLine(a) == (a, [])
    decreases |a|
  {
    assert a[0] in a;
    if |a| > 1 {
      BreakLineWhole(a[1..]);
      assert [a[0]] + a[1..] == a;
    }
  }

  // ---------------------------------------------------------------------------
  // str.strip

  /** The characters `str.isspace` accepts. */
  predicate IsSpace(c: char)
  {
    var n := c as int;
    (9 <= n <= 13) || (28 <= n <= 32) || n == 0x85 || n == 0xA0 || n == 0x1680
    || (0x2000 <= n <= 0x200A) || n == 0x2028 || n == 0x2029 || n == 0x202F
    || n == 0x205F || n == 0x3000
  }

  function TrimStart(s: string): (r: string)
    ensures |r| <= |s| && r == s[|s| - |r|..]
    ensures r != [] ==> !IsSpace(r[0])
    ensures forall k :: 0 <= k < |s| - |r| ==> IsSpace(s[k])
  {
    if s != [] && IsSpace(s[0]) then TrimStart(s[1..]) else s
  }

  function TrimEnd(s: string): (r: string)
    ensures |r| <= |s| && r == s[..|r|]
    ensures r != [] ==> !IsSpace(r[|r| - 1])
    ensures forall k :: |r| <= k < |s| ==> IsSpace(s[k])
  {
    if s != [] && IsSpace(s[|s| - 1]) then TrimEnd(s[..|s| - 1]) else s
  }

  /** `str.strip()`: the text between the leading and the trailing white space. */
  function Strip(s: string): (r: string)
    ensures exists i, j ::
      && 0 <= i <= j <= |s| && r == s[i..j]
      && (forall k :: 0 <= k < i ==> IsSpace(s[k]))
      && (forall k :: j <= k < |s| ==> IsSpace(s[k]))
    ensures r != [] ==> !IsSpace(r[0]) && !IsSpace(r[|r| - 1])
  {
    var t := TrimStart(s);
    var r := TrimEnd(t);
    var i := |s| - |t|;
    assert r == s[i..i + |r|];
    r
  }

  lemma StripChars(s: string, x: char)
    requires x in Strip(s)
    ensures x in s
  {
    var t := TrimStart(s);
    var r := TrimEnd(t);
    var k :| 0 <= k < |r| && r[k] == x;
    assert t[k] == x;
    assert s[|s| - |t| + k] == x;
  }

  // ---------------------------------------------------------------------------
  // convert_ip_data_from_csv

  datatype CsvError =
    | BadRow(row: string)         // not two comma-separated fields
    | BadAddress(field: string)   // first field rejected by IP_RE
    | BadNumber(field: string)    // second field rejected by float()

  /** A stripped row that is empty or starts with `#` is skipped. */
  predicate Skipped(row: string)
  {
    |row| == 0 || row[0] == '#'
  }

  /** The outcome of one line: nothing when skipped, else its address and value
      or the error it raises. */
  datatype LineOutcome = Skip | Row(ip: string, value: real) | Fail(error: CsvError)

  function ParseLine(line: string, parseFloat: string -> Option<real>): LineOutcome
  {
    var row := Strip(line);
    if Skipped(row) then Skip
    else
      var fields := Split(row, ',');
      if |fields| != 2 then Fail(BadRow(row))
      else if !IpPattern(fields[0]) then Fail(BadAddress(fields[0]))
      else match parseFloat(fields[1])
        case None => Fail(BadNumber(fields[1]))
        case Some(v) => Row(fields[0], v)
  }

  /** The outcome of every line, in order. */
  function Outcomes(lines: seq<string>, parseFloat: string -> Option<real>): (outs: seq<LineOutcome>)
    ensures |outs| == |lines|
    ensures forall j :: 0 <= j < |lines| ==> outs[j] == ParseLine(lines[j], parseFloat)
  {
    if lines == [] then [] else [ParseLine(lines[0], parseFloat)] + Outcomes(lines[1..], parseFloat)
  }

  /** The dictionary built so far, in insertion order. */
  type Dict = seq<(string, real)>

  predicate HasKey(d: Dict, ip: string)
  {
    exists k :: 0 <= k < |d| && d[k].0 == ip
  }

  /** The position of `ip` in `d`, or `|d|` when it is absent. */
  function Find(d: Dict, ip: string): (r: nat)
    ensures r <= |d|
    ensures r < |d| ==> d[r].0 == ip
    ensures forall k :: 0 <= k < r ==> d[k].0 != ip
  {
    if d == [] then 0
    else if d[0].0 == ip then 0
    else 1 + Find(d[1..], ip)
  }

  /** No key appears twice. */
  predicate DistinctKeys(d: Dict)
  {
    forall a, b :: 0 <= a < b < |d| ==> d[a].0 != d[b].0
  }

  /** `ips[ip] = value`: an existing key keeps its place and takes the new value;
      a new key goes last. */
  function Store(d: Dict, ip: string, value: real): (r: Dict)
    requires DistinctKeys(d)
    ensures DistinctKeys(r)
    ensures forall x :: HasKey(r, x) <==> HasKey(d, x) || x == ip
    ensures |r| == if HasKey(d, ip) then |d| else |d| + 1
    ensures forall k :: 0 <= k < |r| && r[k].0 == ip ==> r[k].1 == value
    ensures forall k :: 0 <= k < |r| && r[k].0 != ip ==> k < |d| && r[k] == d[k]
    ensures forall k :: 0 <= k < |d| && d[k].0 != ip ==> r[k] == d[k]
  {
    var i := Find(d, ip);
    if i < |d| then
      var r := d[i := (ip, value)];
      assert forall x :: HasKey(d, x) ==> HasKey(r, x) by {
        forall x | HasKey(d, x) ensures HasKey(r, x) {
          var k :| 0 <= k < |d| && d[k].0 == x;
          assert r[k].0 == x;
        }
      }
      assert HasKey(d, ip) by { assert d[i].0 == ip; }
      assert forall x :: HasKey(r, x) ==> HasKey(d, x) by {
        forall x | HasKey(r, x) ensures HasKey(d, x) {
          var k :| 0 <= k < |r| && r[k].0 == x;
          assert d[k].0 == x;
        }
      }
      r
    else
      var r := d + [(ip, value)];
      assert r[|d|].0 == ip;
      assert !HasKey(d, ip);
      assert forall x :: HasKey(d, x) ==> HasKey(r, x) by {
        forall x | HasKey(d, x) ensures HasKey(r, x) {
          var k :| 0 <= k < |d| && d[k].0 == x;
          assert r[k].0 == x;
        }
      }
      r
  }

  /** The loop of `convert_ip_data_from_csv` over the outcomes of the lines read
      so far: the first failing line stops it. */
  function Collect(outs: seq<LineOutcome>): (r: Result<Dict, CsvError>)
    ensures r.Ok? ==> DistinctKeys(r.value)
  {
    if outs == [] then Ok([])
    else
      match Collect(outs[..|outs| - 1])
      case Err(e) => Err(e)
      case Ok(d) =>
        match outs[|outs| - 1]
        case Skip => Ok(d)
        case Fail(e) => Err(e)
        case Row(ip, v) => Ok(Store(d, ip, v))
  }

  /** `convert_ip_data_from_csv`: Python's `float` is the `parseFloat` parameter,
      `None` where it raises `ValueError`. */
  function ConvertIpDataFromCsv(text: string, parseFloat: string -> Option<real>): Result<Dict, CsvError>
  {
    Collect(Outcomes(SplitLines(text), parseFloat))
  }

  // ---------------------------------------------------------------------------
  // What the conversion promises

  /** Line j is the first that fails. */
  predicate FirstFail(outs: seq<LineOutcome>, j: int)
  {
    0 <= j < |outs| && outs[j].Fail? && forall i :: 0 <= i < j ==> !outs[i].Fail?
  }

  /** Line j holds the last row for its address. */
  predicate LastRow(outs: seq<LineOutcome>, j: int)
  {
    0 <= j < |outs| && outs[j].Row?
    && forall i :: j < i < |outs| ==> !(outs[i].Row? && outs[i].ip == outs[j].ip)
  }

  /** The conversion fails exactly when some line fails, and then with the error
      of the first failing line. */
  lemma {:induction false} CollectErrors(outs: seq<LineOutcome>)
    ensures Collect(outs).Ok? <==> forall j :: 0 <= j < |outs| ==> !outs[j].Fail?
    ensures Collect(outs).Err? ==> exists j :: FirstFail(outs, j) && outs[j].error == Collect(outs).error
    decreases |outs|
  {
    if outs != [] {
      var init := outs[..|outs| - 1];
      CollectErrors(init);
      assert forall j :: 0 <= j < |init| ==> init[j] == outs[j];
      if Collect(init).Err? {
        var j :| FirstFail(init, j) && init[j].error == Collect(init).error;
        assert FirstFail(outs, j);
      } else if outs[|outs| - 1].Fail? {
        assert FirstFail(outs, |outs| - 1);
      }
    }
  }

  /** The keys are the addresses of the accepted rows, each once. */
  lemma {:induction false} CollectKeys(outs: seq<LineOutcome>)
    requires Collect(outs).Ok?
    ensures forall ip :: HasKey(Collect(outs).value, ip) <==> exists j :: 0 <= j < |outs| && outs[j].Row? && outs[j].ip == ip
    decreases |outs|
  {
    if outs != [] {
      var init := outs[..|outs| - 1];
      assert forall j :: 0 <= j < |init| ==> init[j] == outs[j];
      CollectKeys(init);
      var d := Collect(init).value;
      var last := outs[|outs| - 1];
    }
  }

  /** Every key holds the value of the last row with that address. */
  lemma {:induction false} CollectLastWins(outs: seq<LineOutcome>, j: int, k: int)
    requires Collect(outs).Ok?
    requires LastRow(outs, j)
    requires 0 <= k < |Collect(outs).value| && Collect(outs).value[k].0 == outs[j].ip
    ensures Collect(outs).value[k].1 == outs[j].value
    decreases |outs|
  {
    var init := outs[..|outs| - 1];
    var d := Collect(init).value;
    var last := outs[|outs| - 1];
    if j < |outs| - 1 {
      assert forall i :: 0 <= i < |init| ==> init[i] == outs[i];
      assert LastRow(init, j);
      assert !(last.Row? && last.ip == outs[j].ip);
      if last.Row? {
        var r := Store(d, last.ip, last.value);
        assert k < |d| && r[k] == d[k];
      }
      CollectLastWins(init, j, k);
    }
  }

  /** An accepted row of a line without breaks has an address `IP_RE` accepts
      without the line-break allowance. */
  lemma RowAddress(line: string, parseFloat: string -> Option<real>)
    requires forall x :: x in line ==> !IsBreak(x)
    requires ParseLine(line, parseFloat).Row?
    ensures DottedQuad(ParseLine(line, parseFloat).ip)
  {
    var row := Strip(line);
    var field := Split(row, ',')[0];
    if !DottedQuad(field) {
      assert field[|field| - 1] in field;
      SplitChars(row, ',', 0, field[|field| - 1]);
      StripChars(line, field[|field| - 1]);
    }
  }

  /** A whole upload converts to rows `create_dataset` accepts: distinct keys,
      each a dotted quad without a line break. */
  lemma UploadFeedsCreate(text: string, parseFloat: string -> Option<real>)
    requires ConvertIpDataFromCsv(text, parseFloat).Ok?
    ensures DatasetStore.ValidRows(ConvertIpDataFromCsv(text, parseFloat).value)
  {
    var lines := SplitLines(text);
    var outs := Outcomes(lines, parseFloat);
    CollectKeys(outs);
    var d := Collect(outs).value;
    forall k | 0 <= k < |d|
      ensures DottedQuad(d[k].0)
    {
      assert HasKey(d, d[k].0);
      var j :| 0 <= j < |outs| && outs[j].Row? && outs[j].ip == d[k].0;
      RowAddress(lines[j], parseFloat);
    }
  }
}
