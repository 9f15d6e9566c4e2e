/**
  `RedisDB.chunks` of `IPVisualizator-backend/redisdb.py`: a bucket's records are
  written to Redis in pieces of at most `size` entries, taken in the dictionary's
  iteration order from one shared iterator.
*/
module Chunks {
  import opened Bits

  function Concat<T>(pieces: seq<seq<T>>): seq<T>
  {
    if pieces == [] then [] else Concat(pieces[..|pieces| - 1]) + pieces[|pieces| - 1]
  }

  function Min(a: int, b: int): int
  {
    if a <= b then a else b
  }

  ghost predicate Distinct<T>(s: seq<T>)
  {
    forall a, b :: 0 <= a < b < |s| ==> s[a] != s[b]
  }

  /** `for i in range(0, len(data), size): yield dict(islice(it, size))`. The
      iterator has given up exactly `i` entries when a piece is taken, so each
      piece is the slice from `i` on, cut at `size` entries or at the end.
      `range` raises for a zero step; the callers pass 10000. */
  method Chunks<T>(data: seq<T>, size: nat) returns (pieces: seq<seq<T>>)
    requires size > 0
    ensures Concat(pieces) == data
    ensures |pieces| == (|data| + size - 1) / size
    ensures forall p :: 0 <= p < |pieces| ==> 1 <= |pieces[p]| <= size
    ensures forall p :: 0 <= p < |pieces| - 1 ==> |pieces[p]| == size
  {
    pieces := [];
    var i := 0;
    while i < |data|
      invariant i == |pieces| * size
      invariant |pieces| > 0 ==> i - size < |data|
      invariant Concat(pieces) == data[..Min(i, |data|)]
      invariant forall p :: 0 <= p < |pieces| ==> 1 <= |pieces[p]| <= size
      invariant forall p :: 0 <= p < |pieces| - 1 ==> |pieces[p]| == size
      invariant |pieces| > 0 ==> |pieces[|pieces| - 1]| == Min(i, |data|) - (i - size)
    {
      var piece := data[i..Min(i + size, |data|)];
      assert data[..Min(i + size, |data|)] == data[..i] + piece;
      assert (pieces + [piece])[..|pieces|] == pieces;
      assert (|pieces| + 1) * size == |pieces| * size + size;
      pieces := pieces + [piece];
      i := i + size;
    }
    assert data[..|data|] == data;
    PieceCount(|data|, |pieces|, size);
  }

  /** The least number of pieces of `size` that hold `n` entries. */
  lemma PieceCount(n: nat, count: nat, size: nat)
    requires size > 0
    requires count * size >= n && (count > 0 ==> count * size - size < n)
    ensures count == (n + size - 1) / size
  {
    DivUnique(n + size - 1, size, count, n + size - 1 - count * size);
  }

  /** An entry of a piece is an entry of the concatenation. */
  lemma {:induction false} InConcat<T>(pieces: seq<seq<T>>, p: nat, i: nat)
    requires p < |pieces| && i < |pieces[p]|
    ensures pieces[p][i] in Concat(pieces)
    decreases |pieces|
  {
    if p < |pieces| - 1 {
      assert pieces[..|pieces| - 1][p] == pieces[p];
      InConcat(pieces[..|pieces| - 1], p, i);
    } else {
      assert Concat(pieces)[|Concat(pieces[..|pieces| - 1])| + i] == pieces[p][i];
    }
  }

  /** Pieces of a dictionary's entries share no key: two different pieces of a
      concatenation without repeats have no entry in common. */
  lemma {:induction false} PiecesDisjoint<T>(pieces: seq<seq<T>>, p: nat, q: nat, i: nat, j: nat)
    requires Distinct(Concat(pieces))
    requires p < q < |pieces| && i < |pieces[p]| && j < |pieces[q]|
    ensures pieces[p][i] != pieces[q][j]
    decreases |pieces|
  {
    var init := pieces[..|pieces| - 1];
    var front := Concat(init);
    assert Concat(pieces) == front + pieces[|pieces| - 1];
    assert Distinct(front) by {
      forall a, b | 0 <= a < b < |front| ensures front[a] != front[b] {
        assert Concat(pieces)[a] == front[a] && Concat(pieces)[b] == front[b];
      }
    }
    if q < |pieces| - 1 {
      assert init[p] == pieces[p] && init[q] == pieces[q];
      PiecesDisjoint(init, p, q, i, j);
    } else {
      assert init[p] == pieces[p];
      InConcat(init, p, i);
      var a :| 0 <= a < |front| && front[a] == pieces[p][i];
      assert Concat(pieces)[a] == pieces[p][i];
      assert Concat(pieces)[|front| + j] == pieces[q][j];
    }
  }
}
