/** Cutting a sequence into consecutive chunks of a given size, the last one possibly shorter. */
module Slicing {
  import opened Modular

  /** The chunk that position `a` falls into, for chunks of size `c`. */
  function ChunkOf(a: nat, c: nat): nat
    requires c > 0
  {
    a / c
  }

  /** The place of position `a` within its chunk. */
  function OffsetIn(a: nat, c: nat): (j: nat)
    requires c > 0
    ensures j < c
  {
    a % c
  }

  lemma PositionParts(a: nat, c: nat)
    requires c > 0
    ensures ChunkOf(a, c) * c + OffsetIn(a, c) == a
  {
  }

  lemma PositionUnique(a: nat, b: nat, c: nat)
    requires c > 0 && ChunkOf(a, c) == ChunkOf(b, c) && OffsetIn(a, c) == OffsetIn(b, c)
    ensures a == b
  {
    PositionParts(a, c);
    PositionParts(b, c);
  }

  /** Quotient and remainder are determined by the position. */
  lemma PositionIs(a: nat, c: nat, i: nat, j: nat)
    requires c > 0 && j < c && a == i * c + j
    ensures ChunkOf(a, c) == i && OffsetIn(a, c) == j
  {
    DivModUnique(a, i, j, c);
  }

  function Chunks<T>(xs: seq<T>, c: nat): (r: seq<seq<T>>)
    requires c > 0
    ensures forall i :: 0 <= i < |r| ==> 0 < |r[i]| <= c
    ensures |r| > 0 <==> |xs| > 0
  {
    if |xs| == 0 then []
    else if |xs| <= c then [xs]
    else [xs[..c]] + Chunks(xs[c..], c)
  }

  function Flatten<T>(r: seq<seq<T>>): seq<T> {
    if r == [] then [] else r[0] + Flatten(r[1..])
  }

  /** The chunks put back together are the sequence. */
  lemma {:induction false} FlattenChunks<T>(xs: seq<T>, c: nat)
    requires c > 0
    ensures Flatten(Chunks(xs, c)) == xs
  {
    if |xs| > c {
      FlattenChunks(xs[c..], c);
      assert Chunks(xs, c)[1..] == Chunks(xs[c..], c);
      assert xs[..c] + xs[c..] == xs;
    } else if |xs| > 0 {
      assert Chunks(xs, c)[1..] == [];
      assert xs + [] == xs;
    }
  }

  /** Chunk `i` starts at position `i * c` and takes what is left, up to `c` entries. */
  lemma {:induction false} ChunkAt<T>(xs: seq<T>, c: nat, i: nat)
    requires c > 0
    ensures i < |Chunks(xs, c)| <==> i * c < |xs|
    ensures i * c < |xs| ==>
      Chunks(xs, c)[i] == xs[i * c..if i * c + c <= |xs| then i * c + c else |xs|]
    decreases i
  {
    if i == 0 {
      assert |xs| > 0 && |xs| <= c ==> xs[0..|xs|] == xs;
    } else {
      ChunksStep(xs, c);
      hide Chunks;
      Scale(i, 1, c);
      if |xs| > c {
        var tail, lo := xs[c..], (i - 1) * c;
        assert i * c == lo + c;
        ChunkAt(tail, c, i - 1);
        if lo < |tail| {
          var hi := if lo + c <= |tail| then lo + c else |tail|;
          assert Chunks(xs, c)[i] == tail[lo..hi];
          DropSlice(xs, c, lo + c, hi + c);
        }
      }
    }
  }

  lemma ChunksStep<T>(xs: seq<T>, c: nat)
    requires c > 0
    ensures |xs| <= c ==> |Chunks(xs, c)| <= 1
    ensures |xs| > c ==> Chunks(xs, c) == [xs[..c]] + Chunks(xs[c..], c)
  {
  }

  lemma Scale(i: nat, k: nat, c: nat)
    ensures (i - k) * c == i * c - k * c
    ensures i >= k ==> i * c >= k * c
  {
  }

  lemma DropSlice<T>(xs: seq<T>, c: nat, lo: nat, hi: nat)
    requires c <= lo <= hi <= |xs|
    ensures xs[c..][lo - c..hi - c] == xs[lo..hi]
  {
    var u, v := xs[c..][lo - c..hi - c], xs[lo..hi];
    forall t | 0 <= t < |u|
      ensures u[t] == v[t]
    {
      assert u[t] == xs[c..][lo - c + t];
    }
    assert u == v;
  }

  /** Length of chunk `i` of a sequence of `n` entries. */
  function ChunkLength(n: nat, c: nat, i: nat): nat
    requires i * c < n
  {
    if i * c + c <= n then c else n - i * c
  }

  /** Chunk `i` holds exactly the positions with quotient `i`. */
  lemma PositionInChunk(n: nat, c: nat, i: nat, a: nat)
    requires c > 0 && i * c < n && a < n
    ensures i * c <= a < i * c + ChunkLength(n, c, i) <==> ChunkOf(a, c) == i
  {
    hide ChunkOf, OffsetIn;
    PositionParts(a, c);
    if i * c <= a < i * c + c {
      PositionIs(a, c, i, a - i * c);
    }
  }

  /** Entry `j` of chunk `i` is entry `i * c + j` of the sequence. */
  lemma ChunkEntry<T>(xs: seq<T>, c: nat, i: nat)
    requires c > 0 && i < |Chunks(xs, c)|
    ensures i * c < |xs|
    ensures |Chunks(xs, c)[i]| == ChunkLength(|xs|, c, i)
    ensures forall j :: 0 <= j < |Chunks(xs, c)[i]| ==> i * c + j < |xs| && Chunks(xs, c)[i][j] == xs[i * c + j]
  {
    hide Chunks;
    ChunkAt(xs, c, i);
  }

  /** The number of chunks depends on the length alone. */
  lemma SameChunkCount<S, T>(xs: seq<S>, ys: seq<T>, c: nat)
    requires c > 0 && |xs| == |ys|
    ensures |Chunks(xs, c)| == |Chunks(ys, c)|
  {
    ChunkAt(xs, c, |Chunks(ys, c)|);
    ChunkAt(ys, c, |Chunks(ys, c)|);
    ChunkAt(xs, c, |Chunks(xs, c)|);
    ChunkAt(ys, c, |Chunks(xs, c)|);
    if |Chunks(xs, c)| > 0 { ChunkAt(ys, c, |Chunks(xs, c)| - 1); ChunkAt(xs, c, |Chunks(xs, c)| - 1); }
    if |Chunks(ys, c)| > 0 { ChunkAt(xs, c, |Chunks(ys, c)| - 1); ChunkAt(ys, c, |Chunks(ys, c)| - 1); }
  }

  lemma ChunkSize<T>(xs: seq<T>, c: nat, i: nat)
    requires c > 0 && i < |Chunks(xs, c)|
    ensures i * c < |xs| && |Chunks(xs, c)[i]| == ChunkLength(|xs|, c, i)
  {
    ChunkEntry(xs, c, i);
  }

  lemma SameChunkSize<S, T>(xs: seq<S>, ys: seq<T>, c: nat, i: nat)
    requires c > 0 && |xs| == |ys| && i < |Chunks(xs, c)| && i < |Chunks(ys, c)|
    ensures |Chunks(xs, c)[i]| == |Chunks(ys, c)[i]|
  {
    hide Chunks;
    ChunkSize(xs, c, i);
    ChunkSize(ys, c, i);
  }

  /** Entry `j` of chunk `i` sits at the one position that has quotient `i` and remainder `j`. */
  lemma EntryOfChunk<T>(xs: seq<T>, c: nat, i: nat, j: nat) returns (a: nat)
    requires c > 0 && i < |Chunks(xs, c)| && j < |Chunks(xs, c)[i]|
    ensures a < |xs| && ChunkOf(a, c) == i && OffsetIn(a, c) == j && Chunks(xs, c)[i][j] == xs[a]
  {
    hide Chunks;
    ChunkEntry(xs, c, i);
    a := i * c + j;
    PositionIs(a, c, i, j);
  }

  /** Position `a` lies in chunk `a / c`. */
  lemma HomeChunk<T>(xs: seq<T>, c: nat, a: nat)
    requires c > 0 && a < |xs|
    ensures ChunkOf(a, c) < |Chunks(xs, c)| && OffsetIn(a, c) < |Chunks(xs, c)[ChunkOf(a, c)]|
    ensures Chunks(xs, c)[ChunkOf(a, c)][OffsetIn(a, c)] == xs[a]
  {
    PositionParts(a, c);
    ChunkAt(xs, c, ChunkOf(a, c));
    ChunkEntry(xs, c, ChunkOf(a, c));
  }

  /** Every chunk but the last is full, and the next one starts where it ends. */
  lemma NeighbouringChunks<T>(xs: seq<T>, c: nat, i: nat)
    requires c > 0 && i + 1 < |Chunks(xs, c)|
    ensures |Chunks(xs, c)[i]| == c && (i + 1) * c == i * c + c
  {
    ChunkEntry(xs, c, i);
    ChunkEntry(xs, c, i + 1);
    Scale(i + 1, 1, c);
  }

  /** The last chunk ends with the sequence. */
  lemma LastChunk<T>(xs: seq<T>, c: nat)
    requires c > 0 && xs != []
    ensures var l := |Chunks(xs, c)| - 1;
      l * c + |Chunks(xs, c)[l]| == |xs|
  {
    var l := |Chunks(xs, c)| - 1;
    ChunkEntry(xs, c, l);
    ChunkAt(xs, c, l + 1);
    Scale(l + 1, 1, c);
  }
}
