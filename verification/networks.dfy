/**
  The pixel arithmetic of `Dataset.get_networks` in
  `IPVisualizator-backend/redisdb.py`: which stored addresses fall inside the
  requested network, and into which of its 2^(resolution - prefixlen) pixels,
  together with the choice of Redis hashes `RedisDB.get_dataset` reads.
*/
module Networks {
  import opened Bits
  import opened IpAddr
  import opened Wrappers

  /** The pixel of an address: `None` when its top `prefixlen` bits differ from
      the network's, else the address's bits between positions `32 - prefixlen`
      and `32 - resolution`. The source computes it by shifting out the low bits,
      subtracting the network and shifting again. */
  function PixelOf(ip: nat, net: nat, prefixlen: nat, resolution: nat): (r: Option<nat>)
    requires prefixlen <= resolution <= 32
    ensures r.Some? <==> net == ip / Pow2(32 - prefixlen) * Pow2(32 - prefixlen)
    ensures r.Some? ==> r.value == ip / Pow2(32 - resolution) % Pow2(resolution - prefixlen)
    ensures r.Some? ==> r.value < Pow2(resolution - prefixlen)
  {
    PixelIndex(ip, prefixlen, resolution);
    var ipNet := Shr(ip, 32 - prefixlen) * Pow2(32 - prefixlen);
    if net != ipNet then None
    else
      var ipPix := Shr(ip, 32 - resolution) * Pow2(32 - resolution);
      Some(Shr(ipPix - net, 32 - resolution))
  }

  /** `((ip >> 32 - res << 32 - res) - (ip >> 32 - pl << 32 - pl)) >> 32 - res`
      is the address's pixel bits. */
  lemma PixelIndex(ip: nat, prefixlen: nat, resolution: nat)
    requires prefixlen <= resolution <= 32
    ensures Shr(ip, 32 - prefixlen) * Pow2(32 - prefixlen) == ip / Pow2(32 - prefixlen) * Pow2(32 - prefixlen)
    ensures Shr(ip, 32 - prefixlen) * Pow2(32 - prefixlen) <= Shr(ip, 32 - resolution) * Pow2(32 - resolution)
    ensures Shr(Shr(ip, 32 - resolution) * Pow2(32 - resolution) - Shr(ip, 32 - prefixlen) * Pow2(32 - prefixlen), 32 - resolution)
         == ip / Pow2(32 - resolution) % Pow2(resolution - prefixlen)
    ensures ip / Pow2(32 - resolution) % Pow2(resolution - prefixlen) < Pow2(resolution - prefixlen)
  {
    var a, b := Pow2(32 - resolution), Pow2(resolution - prefixlen);
    Pow2Split(prefixlen, resolution);
    ShrIsDiv(ip, 32 - prefixlen);
    ShrIsDiv(ip, 32 - resolution);
    FloorNested(ip, a, b);
    FloorDifference(ip, a, b);
    ShrIsDiv(ip / a * a - ip / (a * b) * (a * b), 32 - resolution);
  }

  /** The address `network_address + (index << 32 - resolution)` that labels
      pixel j starts exactly the block of addresses that fall into it. */
  lemma PixelRange(ip: nat, net: nat, prefixlen: nat, resolution: nat, j: nat)
    requires prefixlen <= resolution <= 32
    requires net % Pow2(32 - prefixlen) == 0 && j < Pow2(resolution - prefixlen)
    ensures PixelOf(ip, net, prefixlen, resolution) == Some(j)
        <==> net + j * Pow2(32 - resolution) <= ip < net + (j + 1) * Pow2(32 - resolution)
  {
    Pow2Split(prefixlen, resolution);
    PixelBlock(ip, net, Pow2(32 - resolution), Pow2(resolution - prefixlen), j,
      PixelOf(ip, net, prefixlen, resolution));
  }

  /** The arithmetic of `PixelRange`, for blocks of a addresses grouped b at a
      time. */
  lemma PixelBlock(ip: nat, net: nat, a: nat, b: nat, j: nat, p: Option<nat>)
    requires a > 0 && b > 0 && j < b && net % (a * b) == 0
    requires p.Some? <==> net == ip / (a * b) * (a * b)
    requires p.Some? ==> p.value == ip / a % b
    ensures p == Some(j) <==> net + j * a <= ip < net + (j + 1) * a
  {
    assert (j + 1) * a == j * a + a;
    if net + j * a <= ip < net + j * a + a {
      PixelBlockIn(ip, net, a, b, j);
    }
    if p == Some(j) {
      PixelBlockOut(ip, net, a, b, j);
    }
  }

  lemma PixelBlockIn(ip: nat, net: nat, a: nat, b: nat, j: nat)
    requires a > 0 && b > 0 && j < b && net % (a * b) == 0
    requires net + j * a <= ip < net + j * a + a
    ensures net == ip / (a * b) * (a * b) && ip / a % b == j
  {
    var w := a * b;
    var q := net / w;
    assert net == q * w;
    BlockInside(ip, q, a, b, j);
  }

  lemma PixelBlockOut(ip: nat, net: nat, a: nat, b: nat, j: nat)
    requires a > 0 && b > 0
    requires net == ip / (a * b) * (a * b) && ip / a % b == j
    ensures net + j * a <= ip < net + j * a + a
  {
    BlockOf(ip, ip / (a * b), a, b, j);
  }

  /** The addresses a stored entry stands for: a record's key is an address, a
      cached total's key is a /16 bucket, shifted left by 16 (`key << 16`). */
  function EntryAddress(key: nat, cacheMode: bool): nat
  {
    if cacheMode then key * 65536 else key
  }

  /** A /16 bucket's total lands in the same pixel as every address of the
      bucket when the pixels are /16 or coarser, which is when `get_dataset`
      serves the totals. */
  lemma CachePixelAgrees(ip: nat, net: nat, prefixlen: nat, resolution: nat)
    requires prefixlen <= resolution <= 16
    ensures PixelOf(EntryAddress(Bucket(ip), true), net, prefixlen, resolution)
         == PixelOf(ip, net, prefixlen, resolution)
  {
    Pow2Value16();
    SameHighBits(ip, 32 - prefixlen);
    SameHighBits(ip, 32 - resolution);
  }

  lemma Pow2Value16()
    ensures Pow2(16) == 65536
  {
    Pow2Small();
  }

  /** Clearing the 16 low bits keeps every bit from position 16 up. */
  lemma SameHighBits(ip: nat, k: nat)
    requires 16 <= k
    ensures Bucket(ip) * 65536 / Pow2(k) == ip / Pow2(k)
  {
    Pow2Value16();
    Pow2Add(16, k - 16);
    DivDiv(ip, 65536, Pow2(k - 16));
    DivAddMultiple(Bucket(ip), 65536, 0);
    DivDiv(Bucket(ip) * 65536, 65536, Pow2(k - 16));
  }

  /** The numbers lo, lo + 1, ..., lo + n - 1. */
  function Interval(lo: nat, n: nat): (r: set<nat>)
    ensures forall b :: b in r <==> lo <= b < lo + n
  {
    if n == 0 then {} else Interval(lo, n - 1) + {lo + n - 1}
  }

  /** The buckets `get_dataset` reads when pixels are finer than /16: the one
      bucket of a /16-or-longer network, else each /16 subnet of the network. */
  function LoadedBuckets(net: nat, prefixlen: nat): set<nat>
    requires prefixlen <= 32
  {
    if prefixlen >= 16 then {net / 65536}
    else Interval(net / 65536, Pow2(16 - prefixlen))
  }

  /** The buckets read hold every address the network covers, so reading only
      them loses no pixel's contribution. */
  lemma LoadedBucketsCover(ip: nat, net: nat, prefixlen: nat, resolution: nat)
    requires prefixlen <= resolution <= 32
    requires PixelOf(ip, net, prefixlen, resolution).Some?
    ensures Bucket(ip) in LoadedBuckets(net, prefixlen)
  {
    Pow2Value16();
    if prefixlen >= 16 {
      Pow2Add(32 - prefixlen, prefixlen - 16);
      CoverWithin(ip, net, Pow2(32 - prefixlen), Pow2(prefixlen - 16));
    } else {
      Pow2Add(16, 16 - prefixlen);
      CoverAcross(ip, net, 65536, Pow2(16 - prefixlen));
    }
  }

  /** A network inside one block of w * c addresses shares that block's quotient
      with each of its addresses. */
  lemma CoverWithin(ip: nat, net: nat, w: nat, c: nat)
    requires w > 0 && c > 0 && net == ip / w * w
    ensures ip / (w * c) == net / (w * c)
  {
    FloorThenCoarser(ip, w, c);
  }

  /** A network spanning m blocks of k addresses holds its addresses in blocks
      net / k up to net / k + m - 1. */
  lemma CoverAcross(ip: nat, net: nat, k: nat, m: nat)
    requires k > 0 && m > 0 && net == ip / (k * m) * (k * m)
    ensures net / k <= ip / k < net / k + m
  {
    var t := ip / (k * m);
    DivDiv(ip, k, m);
    assert net == (t * m) * k;
    DivUnique(net, k, t * m, 0);
    QuotientBlock(ip / k, m);
  }

  // ---------------------------------------------------------------------------
  // get_networks

  /** A hash's entries in iteration order: key and value. */
  type Entries = seq<(nat, real)>

  function Sum(s: seq<real>): real
  {
    if s == [] then 0.0 else Sum(s[..|s| - 1]) + s[|s| - 1]
  }

  /** The total of the entries that fall into pixel j. */
  function PixelTotal(entries: Entries, net: nat, prefixlen: nat, resolution: nat, cacheMode: bool, j: nat): real
    requires prefixlen <= resolution <= 32
  {
    if entries == [] then 0.0
    else
      var last := entries[|entries| - 1];
      PixelTotal(entries[..|entries| - 1], net, prefixlen, resolution, cacheMode, j)
        + (if PixelOf(EntryAddress(last.0, cacheMode), net, prefixlen, resolution) == Some(j) then last.1 else 0.0)
  }

  /** The total of the entries inside the network. */
  function InsideTotal(entries: Entries, net: nat, prefixlen: nat, resolution: nat, cacheMode: bool): real
    requires prefixlen <= resolution <= 32
  {
    if entries == [] then 0.0
    else
      var last := entries[|entries| - 1];
      InsideTotal(entries[..|entries| - 1], net, prefixlen, resolution, cacheMode)
        + (if PixelOf(EntryAddress(last.0, cacheMode), net, prefixlen, resolution).Some? then last.1 else 0.0)
  }

  /** `get_networks`: one zero per pixel, then each entry inside the network is
      added to its pixel. */
  method GetNetworks(entries: Entries, net: nat, prefixlen: nat, resolution: nat, cacheMode: bool)
    returns (subnets: seq<real>)
    requires prefixlen <= resolution <= 32
    ensures |subnets| == Pow2(resolution - prefixlen)
    ensures forall j :: 0 <= j < |subnets| ==>
      subnets[j] == PixelTotal(entries, net, prefixlen, resolution, cacheMode, j)
  {
    var n := Pow2(resolution - prefixlen);
    subnets := seq(n, j => 0.0);
    var i := 0;
    while i < |entries|
      invariant 0 <= i <= |entries| && |subnets| == n
      invariant forall j :: 0 <= j < n ==>
        subnets[j] == PixelTotal(entries[..i], net, prefixlen, resolution, cacheMode, j)
    {
      var (key, val) := entries[i];
      var ip := if cacheMode then key * 65536 else key;
      assert entries[..i + 1][..i] == entries[..i];
      var ipNet := Shr(ip, 32 - prefixlen) * Pow2(32 - prefixlen);
      PixelIndex(ip, prefixlen, resolution);
      if net == ipNet {
        var ipPix := Shr(ip, 32 - resolution) * Pow2(32 - resolution);
        var index := Shr(ipPix - net, 32 - resolution);
        subnets := subnets[index := subnets[index] + val];
      }
      i := i + 1;
    }
    assert entries[..|entries|] == entries;
  }

  /** The pixels of the map, as `get_networks` returns them. */
  function Pixels(entries: Entries, net: nat, prefixlen: nat, resolution: nat, cacheMode: bool): (s: seq<real>)
    requires prefixlen <= resolution <= 32
    ensures |s| == Pow2(resolution - prefixlen)
  {
    seq(Pow2(resolution - prefixlen), j requires 0 <= j => PixelTotal(entries, net, prefixlen, resolution, cacheMode, j))
  }

  /** Adding v at one position adds v to the sum. */
  lemma {:induction false} SumBump(s: seq<real>, k: nat, v: real)
    requires k < |s|
    ensures Sum(s[k := s[k] + v]) == Sum(s) + v
    decreases |s|
  {
    var t := s[k := s[k] + v];
    assert t[..|t| - 1] == if k < |s| - 1 then s[..|s| - 1][k := s[k] + v] else s[..|s| - 1];
    if k < |s| - 1 {
      SumBump(s[..|s| - 1], k, v);
    }
  }

  /** Nothing is lost or counted twice: the pixels add up to the total of the
      entries inside the network. */
  lemma {:induction false} PixelsAddUp(entries: Entries, net: nat, prefixlen: nat, resolution: nat, cacheMode: bool)
    requires prefixlen <= resolution <= 32
    ensures Sum(Pixels(entries, net, prefixlen, resolution, cacheMode))
         == InsideTotal(entries, net, prefixlen, resolution, cacheMode)
    decreases |entries|
  {
    var s := Pixels(entries, net, prefixlen, resolution, cacheMode);
    if entries == [] {
      ZeroSum(s);
    } else {
      var init := entries[..|entries| - 1];
      var last := entries[|entries| - 1];
      PixelsAddUp(init, net, prefixlen, resolution, cacheMode);
      var s0 := Pixels(init, net, prefixlen, resolution, cacheMode);
      var p := PixelOf(EntryAddress(last.0, cacheMode), net, prefixlen, resolution);
      if p.Some? {
        assert s == s0[p.value := s0[p.value] + last.1];
        SumBump(s0, p.value, last.1);
      } else {
        assert s == s0;
      }
    }
  }

  lemma {:induction false} ZeroSum(s: seq<real>)
    requires forall j :: 0 <= j < |s| ==> s[j] == 0.0
    ensures Sum(s) == 0.0
    decreases |s|
  {
    if s != [] {
      ZeroSum(s[..|s| - 1]);
    }
  }

  /** The records of the buckets in `buckets`, in their order. */
  function InBuckets(entries: Entries, buckets: set<nat>): Entries
  {
    if entries == [] then []
    else
      var last := entries[|entries| - 1];
      InBuckets(entries[..|entries| - 1], buckets) + (if Bucket(last.0) in buckets then [last] else [])
  }

  /** Reading only the buckets `get_dataset` chooses gives every pixel the total
      that reading all records would. */
  lemma LoadedBucketsSuffice(entries: Entries, net: nat, prefixlen: nat, resolution: nat, j: nat)
    requires prefixlen <= resolution <= 32
    ensures PixelTotal(InBuckets(entries, LoadedBuckets(net, prefixlen)), net, prefixlen, resolution, false, j)
         == PixelTotal(entries, net, prefixlen, resolution, false, j)
  {
    forall ip | PixelOf(ip, net, prefixlen, resolution).Some?
      ensures Bucket(ip) in LoadedBuckets(net, prefixlen)
    {
      LoadedBucketsCover(ip, net, prefixlen, resolution);
    }
    CoveringBucketsSuffice(entries, LoadedBuckets(net, prefixlen), net, prefixlen, resolution, j);
  }

  /** Dropping the records of buckets that hold no address of the network changes
      no pixel. */
  lemma {:induction false} CoveringBucketsSuffice(entries: Entries, buckets: set<nat>, net: nat, prefixlen: nat, resolution: nat, j: nat)
    requires prefixlen <= resolution <= 32
    requires forall ip :: PixelOf(ip, net, prefixlen, resolution).Some? ==> Bucket(ip) in buckets
    ensures PixelTotal(InBuckets(entries, buckets), net, prefixlen, resolution, false, j)
         == PixelTotal(entries, net, prefixlen, resolution, false, j)
    decreases |entries|
  {
    if entries != [] {
      var init := entries[..|entries| - 1];
      var last := entries[|entries| - 1];
      CoveringBucketsSuffice(init, buckets, net, prefixlen, resolution, j);
      var p := PixelOf(last.0, net, prefixlen, resolution);
      var c := if p == Some(j) then last.1 else 0.0;
      assert PixelTotal(entries, net, prefixlen, resolution, false, j)
        == PixelTotal(init, net, prefixlen, resolution, false, j) + c;
      if Bucket(last.0) in buckets {
        assert InBuckets(entries, buckets) == InBuckets(init, buckets) + [last];
        PixelTotalAppend(InBuckets(init, buckets), last, net, prefixlen, resolution, j);
      } else {
        assert InBuckets(entries, buckets) == InBuckets(init, buckets);
        assert c == 0.0;
      }
    }
  }

  lemma PixelTotalAppend(r: Entries, e: (nat, real), net: nat, prefixlen: nat, resolution: nat, j: nat)
    requires prefixlen <= resolution <= 32
    ensures PixelTotal(r + [e], net, prefixlen, resolution, false, j)
         == PixelTotal(r, net, prefixlen, resolution, false, j)
            + (if PixelOf(e.0, net, prefixlen, resolution) == Some(j) then e.1 else 0.0)
  {
    assert (r + [e])[..|r|] == r;
  }
}
