/**
  The Hilbert curve of `Dataset.hilbert_i_to_xy` in
  `IPVisualizator-backend/redisdb.py`: a four-state machine that reads the pixel
  index two bits at a time, most significant pair first, and appends one bit to
  each coordinate per step. The three hexadecimal constants of the source are its
  transition tables.
*/
module Hilbert {
  import opened Bits

  /** A base-4 digit of the index: `(ix >> it) & 3`. */
  type Digit = d: nat | d < 4

  /** The machine's orientation: always one of four. */
  type State = s: nat | s < 4

  /** Bit `row` of this table is the x bit emitted for that row. */
  const XTable: nat := 0x936C
  /** Bit `row` of this table is the y bit emitted for that row. */
  const YTable: nat := 0x39C6
  /** Bits `2 * row` and `2 * row + 1` of this table are the next state. */
  const StateTable: nat := 0x3E6B94C1

  /** `4 * state | digit`: the two low bits of `4 * state` are clear, so the or is
      a sum and the row indexes one of the sixteen table entries. */
  function Row(state: State, d: Digit): (r: nat)
    ensures r < 16 && r / 4 == state && r % 4 == d
  {
    4 * state + d
  }

  function Bit(table: nat, k: nat): (b: nat)
    ensures b < 2
  {
    Shr(table, k) % 2
  }

  function NextState(row: nat): State
  {
    Shr(StateTable, 2 * row) % 4
  }

  /** The coordinates built so far and the state reached. */
  datatype Cursor = Cursor(x: nat, y: nat, state: State)

  /** One step: `x = (x << 1) | bit`, the same for y, then the state transition. */
  function Step(c: Cursor, d: Digit): Cursor
  {
    var row := Row(c.state, d);
    Cursor(2 * c.x + Bit(XTable, row), 2 * c.y + Bit(YTable, row), NextState(row))
  }

  /** The machine run over a sequence of digits from state 0, first digit first. */
  function Walk(ds: seq<Digit>): (c: Cursor)
    ensures c.x < Pow2(|ds|) && c.y < Pow2(|ds|)
  {
    if ds == [] then Cursor(0, 0, 0) else Step(Walk(ds[..|ds| - 1]), ds[|ds| - 1])
  }

  /** The `n` low base-4 digits of `ix`, most significant first. */
  function Digits(ix: nat, n: nat): (ds: seq<Digit>)
    ensures |ds| == n
  {
    if n == 0 then [] else Digits(ix / 4, n - 1) + [ix % 4]
  }

  /** The number the digits spell. */
  function FromDigits(ds: seq<Digit>): (v: nat)
    ensures v < Pow4(|ds|)
  {
    if ds == [] then 0 else FromDigits(ds[..|ds| - 1]) * 4 + ds[|ds| - 1]
  }

  /** The pixel of index `ix` on the curve of the given order. */
  function Curve(ix: nat, order: nat): Cursor
  {
    Walk(Digits(ix, order))
  }

  // ---------------------------------------------------------------------------
  // Digits

  /** Digit i of `Digits(ix, n)` is `(ix >> 2 * (n - 1 - i)) & 3`, the digit the
      source's loop reads at its i-th iteration. */
  lemma {:induction false} DigitAt(ix: nat, n: nat, i: nat)
    requires i < n
    ensures Digits(ix, n)[i] == Shr(ix, 2 * (n - 1 - i)) % 4
    decreases n
  {
    ShrIsDiv(ix, 2 * (n - 1 - i));
    Pow4IsPow2(n - 1 - i);
    if i == n - 1 {
      assert Pow4(0) == 1;
    } else {
      DigitAt(ix / 4, n - 1, i);
      ShrIsDiv(ix / 4, 2 * (n - 2 - i));
      Pow4IsPow2(n - 2 - i);
      DivDiv(ix, 4, Pow4(n - 2 - i));
    }
  }

  /** The digits of an index below 4^n spell it back. */
  lemma {:induction false} DigitsRoundTrip(ix: nat, n: nat)
    requires ix < Pow4(n)
    ensures FromDigits(Digits(ix, n)) == ix
    decreases n
  {
    if n > 0 {
      var ds := Digits(ix, n);
      assert ds[..n - 1] == Digits(ix / 4, n - 1);
      DivBound(ix, 4, Pow4(n - 1));
      DigitsRoundTrip(ix / 4, n - 1);
    } else {
      assert ix == 0;
    }
  }

  /** Distinct indices below 4^n have distinct digits. */
  lemma DigitsInjective(a: nat, b: nat, n: nat)
    requires a < Pow4(n) && b < Pow4(n)
    requires Digits(a, n) == Digits(b, n)
    ensures a == b
  {
    DigitsRoundTrip(a, n);
    DigitsRoundTrip(b, n);
  }

  // ---------------------------------------------------------------------------
  // The tables

  /** Within one state the four digits emit four different bit pairs: the tables
      place the four sub-squares of a square at four different corners. */
  lemma CellsDistinct(s: State, d1: Digit, d2: Digit)
    requires Bit(XTable, Row(s, d1)) == Bit(XTable, Row(s, d2))
    requires Bit(YTable, Row(s, d1)) == Bit(YTable, Row(s, d2))
    ensures d1 == d2
  {
    XBits(Row(s, d1));
    XBits(Row(s, d2));
    YBits(Row(s, d1));
    YBits(Row(s, d2));
  }

  /** Bit k of `XTable`, least significant first. */
  const XCells: seq<nat> := [0, 0, 1, 1, 0, 1, 1, 0, 1, 1, 0, 0, 1, 0, 0, 1]
  /** Bit k of `YTable`, least significant first. */
  const YCells: seq<nat> := [0, 1, 1, 0, 0, 0, 1, 1, 1, 0, 0, 1, 1, 1, 0, 0]

  /** `XTable >> k` for k below 16. */
  const XShifts: seq<nat> := [0x936C, 0x49B6, 0x24DB, 0x126D, 0x936, 0x49B, 0x24D, 0x126,
                              0x93, 0x49, 0x24, 0x12, 0x9, 0x4, 0x2, 0x1]
  /** `YTable >> k` for k below 16. */
  const YShifts: seq<nat> := [0x39C6, 0x1CE3, 0xE71, 0x738, 0x39C, 0x1CE, 0xE7, 0x73,
                              0x39, 0x1C, 0xE, 0x7, 0x3, 0x1, 0x0, 0x0]

  lemma XBits(k: nat)
    requires k < 16
    ensures Bit(XTable, k) == XCells[k]
  {
    ShrChain(XTable, XShifts, k);
  }

  lemma YBits(k: nat)
    requires k < 16
    ensures Bit(YTable, k) == YCells[k]
  {
    ShrChain(YTable, YShifts, k);
  }

  /** A list that starts at x and halves at every step lists the shifts of x. */
  lemma {:induction false} ShrChain(x: nat, shifts: seq<nat>, k: nat)
    requires k < |shifts| && shifts[0] == x
    requires forall i :: 0 <= i < |shifts| - 1 ==> shifts[i + 1] == shifts[i] / 2
    ensures Shr(x, k) == shifts[k]
    decreases k
  {
    if k > 0 {
      ShrChain(x, shifts, k - 1);
      ShrNext(x, k - 1);
    }
  }

  // ---------------------------------------------------------------------------
  // Injectivity

  /** Runs of equal length that end on the same pixel read the same digits and end
      in the same state. */
  lemma {:induction false} WalkInjective(d1: seq<Digit>, d2: seq<Digit>)
    requires |d1| == |d2|
    requires Walk(d1).x == Walk(d2).x && Walk(d1).y == Walk(d2).y
    ensures d1 == d2 && Walk(d1).state == Walk(d2).state
    decreases |d1|
  {
    if d1 != [] {
      var n := |d1|;
      var p1, p2 := Walk(d1[..n - 1]), Walk(d2[..n - 1]);
      var r1, r2 := Row(p1.state, d1[n - 1]), Row(p2.state, d2[n - 1]);
      assert Walk(d1) == Step(p1, d1[n - 1]) && Walk(d2) == Step(p2, d2[n - 1]);
      DivUnique(Walk(d1).x, 2, p1.x, Bit(XTable, r1));
      DivUnique(Walk(d2).x, 2, p2.x, Bit(XTable, r2));
      DivUnique(Walk(d1).y, 2, p1.y, Bit(YTable, r1));
      DivUnique(Walk(d2).y, 2, p2.y, Bit(YTable, r2));
      WalkInjective(d1[..n - 1], d2[..n - 1]);
      CellsDistinct(p1.state, d1[n - 1], d2[n - 1]);
      assert d1 == d1[..n - 1] + [d1[n - 1]];
      assert d2 == d2[..n - 1] + [d2[n - 1]];
    }
  }

  /** The curve visits every pixel at most once: distinct indices of the 4^order
      pixels map to distinct coordinates, all below 2^order. */
  lemma CurveInjective(a: nat, b: nat, order: nat)
    requires a < Pow4(order) && b < Pow4(order)
    requires Curve(a, order).x == Curve(b, order).x && Curve(a, order).y == Curve(b, order).y
    ensures a == b
  {
    WalkInjective(Digits(a, order), Digits(b, order));
    DigitsInjective(a, b, order);
  }

  // ---------------------------------------------------------------------------
  // The loop

  /** `hilbert_i_to_xy`: the loop runs `it` from `2 * order - 2` down to 0 in steps
      of two. */
  method HilbertIToXy(ix: nat, order: nat) returns (x: nat, y: nat)
    ensures x == Curve(ix, order).x && y == Curve(ix, order).y
    ensures x < Pow2(order) && y < Pow2(order)
  {
    var ds := Digits(ix, order);
    var state: State := 0;
    x, y := 0, 0;
    var i := 0;
    while i < order
      invariant 0 <= i <= order
      invariant Walk(ds[..i]) == Cursor(x, y, state)
    {
      var it := 2 * (order - 1 - i);
      DigitAt(ix, order, i);
      var row := Row(state, Shr(ix, it) % 4);
      x := 2 * x + Bit(XTable, row);
      y := 2 * y + Bit(YTable, row);
      state := NextState(row);
      assert ds[..i + 1][..i] == ds[..i];
      i := i + 1;
    }
    assert ds[..order] == ds;
  }
}
