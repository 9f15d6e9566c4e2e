/**
  `get_map_api` of `IPVisualizator-backend/IPVisualizator.py`: the request
  checks, the choice of resolution and Hilbert order, the rounding of pixel
  values, and the list of pixels with their coordinates, address labels and
  extreme values. Reading the dataset and parsing the address text are
  parameters; the JSON encoding is left out.
*/
module MapApi {
  import opened Wrappers
  import opened Bits
  import Hilbert
  import Networks

  // ---------------------------------------------------------------------------
  // Request checks

  /** A query or path parameter that `int()` either converts or rejects. */
  datatype IntParam = NotInteger | Integer(v: int)

  datatype Reason = InvalidNetwork | OddMask | ResolutionNotInteger | InvalidResolution

  /** The status of `get_map_api` before the dataset is read: 404, a 400 with its
      reason, or the network, prefix length, resolution and Hilbert order that the
      map is drawn with. */
  datatype Reply =
    | NotFound
    | BadRequest(reason: Reason)
    | Accepted(net: nat, prefixlen: nat, resolution: nat, order: nat)

  /** `IPv4Network((network, mask))` in strict mode: the address text parses (the
      parser is the `address` parameter), the prefix length is between 0 and 32,
      and no host bit is set. */
  predicate ValidNetwork(address: Option<nat>, mask: int)
  {
    && address.Some? && address.value < Pow2(32)
    && 0 <= mask <= 32 && address.value % Pow2(32 - mask) == 0
  }

  /** Without a resolution the map shows 2^16 pixels, or single addresses when the
      network is smaller than that. */
  function DefaultResolution(mask: int): (r: int)
    ensures mask <= 32 ==> mask <= r <= 32
    ensures mask % 2 == 0 ==> r % 2 == 0
  {
    if mask + 16 <= 32 then mask + 16 else 32
  }

  function CheckMapRequest(found: bool, address: Option<nat>, mask: IntParam, resolution: Option<IntParam>): (r: Reply)
    ensures r.Accepted? ==> && r.prefixlen <= r.resolution <= 32
                            && r.prefixlen % 2 == 0 && r.resolution % 2 == 0
                            && r.net < Pow2(32) && r.net % Pow2(32 - r.prefixlen) == 0
                            && 2 * r.order == r.resolution - r.prefixlen
  {
    if !found then NotFound
    else if mask.NotInteger? || !ValidNetwork(address, mask.v) then BadRequest(InvalidNetwork)
    else if mask.v % 2 != 0 then BadRequest(OddMask)
    else
      var pl := mask.v;
      match resolution
      case None =>
        var res := DefaultResolution(pl);
        EvenHalf(res, pl);
        Accepted(address.value, pl, res, (res - pl) / 2)
      case Some(NotInteger) => BadRequest(ResolutionNotInteger)
      case Some(Integer(res)) =>
        if res % 2 != 0 || res < pl || res > 32 then BadRequest(InvalidResolution)
        else
          EvenHalf(res, pl);
          Accepted(address.value, pl, res, (res - pl) / 2)
  }

  /** Halving the difference of two even numbers is exact. */
  lemma EvenHalf(a: int, b: int)
    requires b <= a && a % 2 == 0 && b % 2 == 0
    ensures 2 * ((a - b) / 2) == a - b
  {
  }

  /** The request is accepted exactly when the dataset exists, the network is
      valid with an even prefix length, and the resolution is absent or an even
      number from the prefix length to 32; the map then uses the given or the
      default resolution. */
  lemma CheckMapRequestSpec(found: bool, address: Option<nat>, mask: IntParam, resolution: Option<IntParam>)
    ensures CheckMapRequest(found, address, mask, resolution) == NotFound <==> !found
    ensures CheckMapRequest(found, address, mask, resolution).Accepted? <==>
      && found && mask.Integer? && ValidNetwork(address, mask.v) && mask.v % 2 == 0
      && (resolution.None? || (resolution.value.Integer? && resolution.value.v % 2 == 0
                               && mask.v <= resolution.value.v <= 32))
    ensures var r := CheckMapRequest(found, address, mask, resolution);
      r.Accepted? ==> && r.net == address.value && r.prefixlen == mask.v
                      && r.resolution == (if resolution.None? then DefaultResolution(mask.v) else resolution.value.v)
  {
  }

  /** The default resolution is never rejected: for an even prefix length it is
      even and between the prefix length and 32. */
  lemma DefaultResolutionValid(mask: int)
    requires 0 <= mask <= 32 && mask % 2 == 0
    ensures var res := DefaultResolution(mask);
      res % 2 == 0 && mask <= res <= 32
  {
  }

  /** The pixels of an accepted map fill a square of side 2^order. */
  lemma PixelSquare(r: Reply)
    requires r.Accepted? && r.prefixlen <= r.resolution && 2 * r.order == r.resolution - r.prefixlen
    ensures Pow2(r.resolution - r.prefixlen) == Pow4(r.order)
  {
    Pow4IsPow2(r.order);
  }

  // ---------------------------------------------------------------------------
  // Rounding to five decimals

  /** Python's `int()` of a number: truncation toward zero. */
  function Trunc(x: real): (n: int)
    ensures x >= 0.0 ==> n as real <= x < n as real + 1.0
    ensures x < 0.0 ==> n as real - 1.0 < x <= n as real
  {
    if x >= 0.0 then x.Floor else -((-x).Floor)
  }

  /** `int(value * round_p + 0.5) / round_p` as written: adding a half and
      truncating toward zero rounds up for negative values too. */
  function RoundAsWritten(v: real): real
  {
    Trunc(v * 100000.0 + 0.5) as real / 100000.0
  }

  /** The source's rounding gives a multiple of 10^-5 that lies within half of
      10^-5 below the value and less than one and a half above it; the upper side
      only reaches past half of 10^-5 for values below -0.000005. */
  lemma RoundAsWrittenClose(v: real)
    ensures v - 0.000005 < RoundAsWritten(v) < v + 0.000015
    ensures v >= -0.000005 ==> RoundAsWritten(v) <= v + 0.000005
    ensures (RoundAsWritten(v) * 100000.0).Floor as real == RoundAsWritten(v) * 100000.0
  {
    var n := Trunc(v * 100000.0 + 0.5);
    assert (n as real / 100000.0) * 100000.0 == n as real;
  }

  /** A total rounds to 0.0, and `skip_zeros` hides its pixel, exactly when it
      lies strictly between -0.000015 and 0.000005. */
  lemma RoundAsWrittenZero(v: real)
    ensures RoundAsWritten(v) == 0.0 <==> -0.000015 < v < 0.000005
  {
    var x := v * 100000.0 + 0.5;
    assert RoundAsWritten(v) == 0.0 <==> Trunc(x) == 0;
  }

  /** On a negative value that already has five decimals, the source's rounding
      adds 10^-5: applied again it drifts further, so it is not idempotent. */
  lemma RoundAsWrittenDrift(v: real)
    requires v <= -0.00001 && (v * 100000.0).Floor as real == v * 100000.0
    ensures RoundAsWritten(v) == v + 0.00001
    ensures v <= -0.00002 ==> RoundAsWritten(RoundAsWritten(v)) == v + 0.00002
  {
    var n := (v * 100000.0).Floor;
    assert v * 100000.0 + 0.5 == n as real + 0.5;
    assert Trunc(n as real + 0.5) == n + 1;
    if v <= -0.00002 {
      var w := v + 0.00001;
      assert w * 100000.0 == (n + 1) as real;
      assert Trunc(w * 100000.0 + 0.5) == n + 2;
    }
  }

  /** Rounding to the nearest multiple of 10^-5, halves upward: what the comment
      "rounding of value to 5 decimal digit" asks for. */
  function Round5(v: real): real
  {
    (v * 100000.0 + 0.5).Floor as real / 100000.0
  }

  /** The rounded value is a multiple of 10^-5 within half of 10^-5 of the value. */
  lemma Round5Close(v: real)
    ensures v - 0.000005 < Round5(v) <= v + 0.000005
    ensures (Round5(v) * 100000.0).Floor as real == Round5(v) * 100000.0
  {
    var n := (v * 100000.0 + 0.5).Floor;
    assert (n as real / 100000.0) * 100000.0 == n as real;
  }

  /** The two agree on every value from -0.000005 up. */
  lemma RoundAgreesAboveZero(v: real)
    requires v >= -0.000005
    ensures RoundAsWritten(v) == Round5(v)
  {
  }

  /** For -1.0 the source's rounding gives -0.99999, a value 10^-5 away from the
      already five-decimal input, where rounding gives -1.0 back. */
  lemma RoundNegativeDrift()
    ensures RoundAsWritten(-1.0) == -0.99999
    ensures Round5(-1.0) == -1.0
  {
    assert -1.0 * 100000.0 + 0.5 == -99999.5;
    assert (99999.5).Floor == 99999;
    assert (-99999.5).Floor == -100000;
  }

  /** The corrected rounding leaves a value with at most five decimals unchanged. */
  lemma RoundIdempotent(v: real)
    ensures Round5(Round5(v)) == Round5(v)
  {
    var r := Round5(v);
    Round5Close(v);
    var n := (r * 100000.0).Floor;
    assert r * 100000.0 + 0.5 == n as real + 0.5;
    assert (r * 100000.0 + 0.5).Floor == n;
  }

  /** The pixel values as the loop rounds them, each within the bounds of
      `RoundAsWrittenClose`. */
  function RoundAll(s: seq<real>): (r: seq<real>)
    ensures |r| == |s|
    ensures forall i :: 0 <= i < |s| ==> r[i] == RoundAsWritten(s[i])
    ensures forall i :: 0 <= i < |s| ==> s[i] - 0.000005 < r[i] < s[i] + 0.000015
  {
    if s == [] then []
    else
      RoundAsWrittenClose(s[|s| - 1]);
      RoundAll(s[..|s| - 1]) + [RoundAsWritten(s[|s| - 1])]
  }

  // ---------------------------------------------------------------------------
  // Pixels

  /** A pixel of the response: with coordinates and the label "address/resolution",
      or, for `raw_data`, with its index. */
  datatype Pixel =
    | Drawn(x: nat, y: nat, val: real, ip: nat, len: nat)
    | RawValue(val: real, index: nat)

  /** With `skip_zeros`, pixels whose rounded value is 0 are left out. */
  predicate Shown(v: real, skipZeros: bool)
  {
    !skipZeros || v != 0.0
  }

  /** The indices of the shown pixels, in increasing order. */
  function Kept(vals: seq<real>, skipZeros: bool): (ks: seq<nat>)
    ensures forall k :: 0 <= k < |ks| ==> ks[k] < |vals| && Shown(vals[ks[k]], skipZeros)
    ensures forall a, b :: 0 <= a < b < |ks| ==> ks[a] < ks[b]
    ensures forall i :: 0 <= i < |vals| && Shown(vals[i], skipZeros) ==> i in ks
  {
    if vals == [] then []
    else
      var init := vals[..|vals| - 1];
      var pre := Kept(init, skipZeros);
      assert forall i :: 0 <= i < |init| ==> init[i] == vals[i];
      if Shown(vals[|vals| - 1], skipZeros) then pre + [|vals| - 1] else pre
  }

  /** The pixel for index `ix`: its Hilbert coordinates, its value and the first
      address of its block. */
  function PixelAt(vals: seq<real>, ix: nat, net: nat, resolution: nat, order: nat, raw: bool): Pixel
    requires ix < |vals| && resolution <= 32
  {
    if raw then RawValue(vals[ix], ix)
    else
      var c := Hilbert.Curve(ix, order);
      Drawn(c.x, c.y, vals[ix], net + ix * Pow2(32 - resolution), resolution)
  }

  /** The smallest and the largest non-zero value, None when every value is 0. */
  predicate IsMin(vals: seq<real>, m: Option<real>)
  {
    && (m.None? <==> forall i :: 0 <= i < |vals| ==> vals[i] == 0.0)
    && (m.Some? ==> && (exists i :: 0 <= i < |vals| && vals[i] != 0.0 && vals[i] == m.value)
                    && (forall i :: 0 <= i < |vals| && vals[i] != 0.0 ==> m.value <= vals[i]))
  }

  predicate IsMax(vals: seq<real>, m: Option<real>)
  {
    && (m.None? <==> forall i :: 0 <= i < |vals| ==> vals[i] == 0.0)
    && (m.Some? ==> && (exists i :: 0 <= i < |vals| && vals[i] != 0.0 && vals[i] == m.value)
                    && (forall i :: 0 <= i < |vals| && vals[i] != 0.0 ==> vals[i] <= m.value))
  }

  function OrZero(m: Option<real>): real
  {
    if m.Some? then m.value else 0.0
  }

  /** The pixels listed are those of the shown indices, in order. */
  predicate PixelsOf(pixels: seq<Pixel>, vals: seq<real>, ks: seq<nat>, net: nat, resolution: nat, order: nat, raw: bool)
    requires resolution <= 32
  {
    && |pixels| == |ks|
    && forall k :: 0 <= k < |ks| ==> ks[k] < |vals| && pixels[k] == PixelAt(vals, ks[k], net, resolution, order, raw)
  }

  /** The pixels of the first n values, in the loop's order. */
  function PixelList(vals: seq<real>, n: nat, skipZeros: bool, net: nat, resolution: nat, order: nat, raw: bool): seq<Pixel>
    requires n <= |vals| && resolution <= 32
  {
    if n == 0 then []
    else
      PixelList(vals, n - 1, skipZeros, net, resolution, order, raw)
        + (if Shown(vals[n - 1], skipZeros) then [PixelAt(vals, n - 1, net, resolution, order, raw)] else [])
  }

  /** The running minimum and maximum of the non-zero values among the first n. */
  function MinOf(vals: seq<real>, n: nat): Option<real>
    requires n <= |vals|
  {
    if n == 0 then None
    else
      var lo := MinOf(vals, n - 1);
      var v := vals[n - 1];
      if v != 0.0 && (lo.None? || v < lo.value) then Some(v) else lo
  }

  function MaxOf(vals: seq<real>, n: nat): Option<real>
    requires n <= |vals|
  {
    if n == 0 then None
    else
      var hi := MaxOf(vals, n - 1);
      var v := vals[n - 1];
      if v != 0.0 && (hi.None? || v > hi.value) then Some(v) else hi
  }

  /** The pixel loop of `get_map_api`: each value is rounded, the extremes are
      taken over the non-zero rounded values (0.0 when there are none), and every
      shown pixel gets its coordinates on the curve of the given order and the
      first address of its block. */
  method MapPixels(subnets: seq<real>, net: nat, resolution: nat, order: nat, skipZeros: bool, raw: bool)
    returns (pixels: seq<Pixel>, minValue: real, maxValue: real)
    requires resolution <= 32
    ensures PixelsOf(pixels, RoundAll(subnets), Kept(RoundAll(subnets), skipZeros), net, resolution, order, raw)
    ensures exists lo, hi ::
      && IsMin(RoundAll(subnets), lo) && IsMax(RoundAll(subnets), hi)
      && minValue == OrZero(lo) && maxValue == OrZero(hi)
  {
    var vals := RoundAll(subnets);
    pixels := [];
    var lo: Option<real> := None;
    var hi: Option<real> := None;
    var i := 0;
    while i < |subnets|
      invariant 0 <= i <= |subnets|
      invariant pixels == PixelList(vals, i, skipZeros, net, resolution, order, raw)
      invariant lo == MinOf(vals, i) && hi == MaxOf(vals, i)
    {
      pixels, lo, hi := PixelStep(vals, i, RoundAsWritten(subnets[i]), pixels, lo, hi, net, resolution, order, skipZeros, raw);
      i := i + 1;
    }
    minValue := OrZero(lo);
    maxValue := OrZero(hi);
    LoopResult(vals, pixels, lo, hi, net, resolution, order, skipZeros, raw);
  }

  /** One iteration of the pixel loop on the rounded value of index i. */
  method PixelStep(vals: seq<real>, i: nat, value: real, pixels: seq<Pixel>, lo: Option<real>, hi: Option<real>,
                   net: nat, resolution: nat, order: nat, skipZeros: bool, raw: bool)
    returns (pixels': seq<Pixel>, lo': Option<real>, hi': Option<real>)
    requires i < |vals| && value == vals[i] && resolution <= 32
    requires pixels == PixelList(vals, i, skipZeros, net, resolution, order, raw)
    requires lo == MinOf(vals, i) && hi == MaxOf(vals, i)
    ensures pixels' == PixelList(vals, i + 1, skipZeros, net, resolution, order, raw)
    ensures lo' == MinOf(vals, i + 1) && hi' == MaxOf(vals, i + 1)
  {
    lo', hi' := lo, hi;
    if value != 0.0 {
      lo' := if lo.None? || value < lo.value then Some(value) else lo;
      hi' := if hi.None? || value > hi.value then Some(value) else hi;
    }
    pixels' := pixels;
    if Shown(value, skipZeros) {
      var p := MakePixel(vals, i, net, resolution, order, raw);
      pixels' := pixels + [p];
    }
  }

  /** What the loop has built once every value is seen. */
  lemma LoopResult(vals: seq<real>, pixels: seq<Pixel>, lo: Option<real>, hi: Option<real>,
                   net: nat, resolution: nat, order: nat, skipZeros: bool, raw: bool)
    requires resolution <= 32
    requires pixels == PixelList(vals, |vals|, skipZeros, net, resolution, order, raw)
    requires lo == MinOf(vals, |vals|) && hi == MaxOf(vals, |vals|)
    ensures PixelsOf(pixels, vals, Kept(vals, skipZeros), net, resolution, order, raw)
    ensures IsMin(vals, lo) && IsMax(vals, hi)
  {
    PixelListSpec(vals, |vals|, skipZeros, net, resolution, order, raw);
    MinOfSpec(vals, |vals|);
    MaxOfSpec(vals, |vals|);
    assert vals[..|vals|] == vals;
  }

  /** The loop's pixels are those of the shown indices. */
  lemma {:induction false} PixelListSpec(vals: seq<real>, n: nat, skipZeros: bool, net: nat, resolution: nat, order: nat, raw: bool)
    requires n <= |vals| && resolution <= 32
    ensures PixelsOf(PixelList(vals, n, skipZeros, net, resolution, order, raw), vals, Kept(vals[..n], skipZeros),
                     net, resolution, order, raw)
  {
    if n > 0 {
      var m := n - 1;
      var prev := PixelList(vals, m, skipZeros, net, resolution, order, raw);
      var ks := Kept(vals[..m], skipZeros);
      PixelListSpec(vals, m, skipZeros, net, resolution, order, raw);
      KeptStep(vals, m, skipZeros);
      if Shown(vals[m], skipZeros) {
        var p := PixelAt(vals, m, net, resolution, order, raw);
        assert PixelList(vals, n, skipZeros, net, resolution, order, raw) == prev + [p];
        assert Kept(vals[..n], skipZeros) == ks + [m];
        PixelsAppend(prev, vals, ks, m, p, net, resolution, order, raw);
      } else {
        assert PixelList(vals, n, skipZeros, net, resolution, order, raw) == prev;
        assert Kept(vals[..n], skipZeros) == ks;
      }
    }
  }

  /** The running minimum is the minimum of the non-zero values so far. */
  lemma {:induction false} MinOfSpec(vals: seq<real>, n: nat)
    requires n <= |vals|
    ensures IsMin(vals[..n], MinOf(vals, n))
  {
    if n > 0 {
      MinOfSpec(vals, n - 1);
      MinStep(vals[..n - 1], vals[n - 1], MinOf(vals, n - 1));
      assert vals[..n] == vals[..n - 1] + [vals[n - 1]];
    }
  }

  /** The running maximum is the maximum of the non-zero values so far. */
  lemma {:induction false} MaxOfSpec(vals: seq<real>, n: nat)
    requires n <= |vals|
    ensures IsMax(vals[..n], MaxOf(vals, n))
  {
    if n > 0 {
      MaxOfSpec(vals, n - 1);
      MaxStep(vals[..n - 1], vals[n - 1], MaxOf(vals, n - 1));
      assert vals[..n] == vals[..n - 1] + [vals[n - 1]];
    }
  }

  /** One pixel of the response, its coordinates from `hilbert_i_to_xy`. */
  method MakePixel(vals: seq<real>, i: nat, net: nat, resolution: nat, order: nat, raw: bool) returns (p: Pixel)
    requires i < |vals| && resolution <= 32
    ensures p == PixelAt(vals, i, net, resolution, order, raw)
  {
    if raw {
      p := RawValue(vals[i], i);
    } else {
      var x, y := Hilbert.HilbertIToXy(i, order);
      p := Drawn(x, y, vals[i], net + i * Pow2(32 - resolution), resolution);
    }
  }

  lemma PixelsAppend(pixels: seq<Pixel>, vals: seq<real>, ks: seq<nat>, i: nat, p: Pixel,
                     net: nat, resolution: nat, order: nat, raw: bool)
    requires resolution <= 32 && i < |vals|
    requires PixelsOf(pixels, vals, ks, net, resolution, order, raw)
    requires p == PixelAt(vals, i, net, resolution, order, raw)
    ensures PixelsOf(pixels + [p], vals, ks + [i], net, resolution, order, raw)
  {
    var ks' := ks + [i];
    assert forall k :: 0 <= k < |ks| ==> ks'[k] == ks[k];
  }

  /** The shown indices grow by the new index exactly when it is shown. */
  lemma KeptStep(vals: seq<real>, i: nat, skipZeros: bool)
    requires i < |vals|
    ensures Kept(vals[..i + 1], skipZeros)
         == Kept(vals[..i], skipZeros) + (if Shown(vals[i], skipZeros) then [i] else [])
  {
    assert vals[..i + 1][..i] == vals[..i];
  }

  /** One more value moves the minimum as the loop does. */
  lemma MinStep(vals: seq<real>, v: real, lo: Option<real>)
    requires IsMin(vals, lo)
    ensures IsMin(vals + [v], if v != 0.0 && (lo.None? || v < lo.value) then Some(v) else lo)
  {
    var s := vals + [v];
    assert forall i :: 0 <= i < |vals| ==> s[i] == vals[i];
    assert s[|vals|] == v;
    if lo.Some? {
      var i :| 0 <= i < |vals| && vals[i] != 0.0 && vals[i] == lo.value;
      assert s[i] == lo.value;
    }
  }

  /** One more value moves the maximum as the loop does. */
  lemma MaxStep(vals: seq<real>, v: real, hi: Option<real>)
    requires IsMax(vals, hi)
    ensures IsMax(vals + [v], if v != 0.0 && (hi.None? || v > hi.value) then Some(v) else hi)
  {
    var s := vals + [v];
    assert forall i :: 0 <= i < |vals| ==> s[i] == vals[i];
    assert s[|vals|] == v;
    if hi.Some? {
      var i :| 0 <= i < |vals| && vals[i] != 0.0 && vals[i] == hi.value;
      assert s[i] == hi.value;
    }
  }

  // ---------------------------------------------------------------------------
  // What a drawn map means

  /** Two shown pixels of a map of 4^order values never share a cell. */
  lemma PixelsDistinctCells(vals: seq<real>, skipZeros: bool, net: nat, resolution: nat, order: nat, a: nat, b: nat)
    requires resolution <= 32 && |vals| == Pow4(order)
    requires a < b < |Kept(vals, skipZeros)|
    ensures var ks := Kept(vals, skipZeros);
      var p, q := PixelAt(vals, ks[a], net, resolution, order, false), PixelAt(vals, ks[b], net, resolution, order, false);
      (p.x, p.y) != (q.x, q.y)
  {
    var ks := Kept(vals, skipZeros);
    if Hilbert.Curve(ks[a], order).x == Hilbert.Curve(ks[b], order).x
      && Hilbert.Curve(ks[a], order).y == Hilbert.Curve(ks[b], order).y {
      Hilbert.CurveInjective(ks[a], ks[b], order);
    }
  }

  /** Without `skip_zeros` every index of the square is shown, at a cell inside
      the square. */
  lemma PixelsCoverSquare(vals: seq<real>, order: nat, ix: nat)
    requires |vals| == Pow4(order) && ix < |vals|
    ensures ix in Kept(vals, false)
    ensures Hilbert.Curve(ix, order).x < Pow2(order) && Hilbert.Curve(ix, order).y < Pow2(order)
  {
    assert Shown(vals[ix], false);
    assert |Hilbert.Digits(ix, order)| == order;
  }

  /** The label of the pixel for index j is the first address of the block that
      `get_networks` adds into index j, and the block has 2^(32 - resolution)
      addresses. */
  lemma PixelLabel(net: nat, prefixlen: nat, resolution: nat, j: nat, ip: nat)
    requires prefixlen <= resolution <= 32
    requires net % Pow2(32 - prefixlen) == 0 && j < Pow2(resolution - prefixlen)
    ensures var first := net + j * Pow2(32 - resolution);
      (Networks.PixelOf(ip, net, prefixlen, resolution) == Some(j)) <==> (first <= ip < first + Pow2(32 - resolution))
  {
    Networks.PixelRange(ip, net, prefixlen, resolution, j);
    assert (j + 1) * Pow2(32 - resolution) == j * Pow2(32 - resolution) + Pow2(32 - resolution);
  }

  // ---------------------------------------------------------------------------
  // The whole request

  /** `get_map_api`: the checks, then `get_networks` over the loaded entries
      (bucket totals keyed by /16 network when the resolution is at most 16), then
      the pixel loop. */
  method GetMap(found: bool, address: Option<nat>, mask: IntParam, resolution: Option<IntParam>,
                entries: Networks.Entries, skipZeros: bool, raw: bool)
    returns (reply: Reply, pixels: seq<Pixel>, minValue: real, maxValue: real)
    ensures reply == CheckMapRequest(found, address, mask, resolution)
    ensures !reply.Accepted? ==> pixels == []
    ensures reply.Accepted? ==>
      var subnets := Networks.Pixels(entries, reply.net, reply.prefixlen, reply.resolution, reply.resolution <= 16);
      && |subnets| == Pow4(reply.order)
      && PixelsOf(pixels, RoundAll(subnets), Kept(RoundAll(subnets), skipZeros), reply.net, reply.resolution, reply.order, raw)
      && exists lo, hi ::
           && IsMin(RoundAll(subnets), lo) && IsMax(RoundAll(subnets), hi)
           && minValue == OrZero(lo) && maxValue == OrZero(hi)
  {
    reply := CheckMapRequest(found, address, mask, resolution);
    pixels, minValue, maxValue := [], 0.0, 0.0;
    if reply.Accepted? {
      var subnets := Networks.GetNetworks(entries, reply.net, reply.prefixlen, reply.resolution, reply.resolution <= 16);
      assert subnets == Networks.Pixels(entries, reply.net, reply.prefixlen, reply.resolution, reply.resolution <= 16);
      PixelSquare(reply);
      pixels, minValue, maxValue := MapPixels(subnets, reply.net, reply.resolution, reply.order, skipZeros, raw);
    }
  }

  /** The value of a pixel of the map is the rounded total of the entries in its
      block. */
  lemma PixelValue(entries: Networks.Entries, r: Reply, vals: seq<real>, ix: nat)
    requires r.Accepted? && r.prefixlen <= r.resolution <= 32
    requires vals == RoundAll(Networks.Pixels(entries, r.net, r.prefixlen, r.resolution, r.resolution <= 16))
    requires ix < |vals|
    ensures vals[ix] == RoundAsWritten(Networks.PixelTotal(entries, r.net, r.prefixlen, r.resolution, r.resolution <= 16, ix))
  {
  }
}
