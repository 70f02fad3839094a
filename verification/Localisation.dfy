/** Where the chunk reports point for edits, swaps, arbitrary tampering and changes of length. */
module Localisation {
  import opened Modular
  import opened Polynomial
  import opened Accumulator
  import opened Collision
  import opened Edits
  import opened Slicing
  import opened Checkpoint
  import opened Verifier
  import opened Chunker
  import opened Wrappers

  // ----- one edited entry

  /**
   * Streams that differ modulo `p` only at position `a`: exactly the report of
   * the chunk of `a` is a digest mismatch, and it is the first bad one.
   */
  lemma SingleEditLocalised(cfg: Config, xs: seq<nat>, ys: seq<nat>, a: nat)
    requires cfg.Valid() && Invertible(cfg.q, cfg.p)
    requires a < |xs| == |ys| && !Cong(xs[a], ys[a], cfg.p)
    requires forall i :: 0 <= i < |xs| && i != a ==> Cong(xs[i], ys[i], cfg.p)
    ensures var r := Reports(cfg, xs, ys);
      && ChunkOf(a, cfg.c) < |r|
      && (forall i :: 0 <= i < |r| ==> r[i].status == if i == ChunkOf(a, cfg.c) then DigestMismatch else Clean)
      && FirstBadChunkIndex(r) == Some(ChunkOf(a, cfg.c))
  {
    hide Residue, Digest, Chunks, ChunkOf, OffsetIn;
    var r, k := Reports(cfg, xs, ys), ChunkOf(a, cfg.c);
    SameLengthReports(cfg, xs, ys);
    HomeChunk(xs, cfg.c, a);
    HomeChunk(ys, cfg.c, a);
    forall i | 0 <= i < |r|
      ensures r[i].status == if i == k then DigestMismatch else Clean
    {
      if i == k {
        EditedChunkIsBad(cfg, xs, ys, a);
      } else {
        AgreeingChunkIsClean(cfg, xs, ys, i);
      }
    }
    FirstBadIs(r, k);
  }

  lemma EditedChunkIsBad(cfg: Config, xs: seq<nat>, ys: seq<nat>, a: nat)
    requires cfg.Valid() && Invertible(cfg.q, cfg.p)
    requires a < |xs| == |ys| && !Cong(xs[a], ys[a], cfg.p)
    requires forall i :: 0 <= i < |xs| && i != a && ChunkOf(i, cfg.c) == ChunkOf(a, cfg.c) ==> Cong(xs[i], ys[i], cfg.p)
    ensures ChunkOf(a, cfg.c) < |Reports(cfg, xs, ys)|
    ensures Reports(cfg, xs, ys)[ChunkOf(a, cfg.c)].status == DigestMismatch
  {
    hide Residue, Digest, Chunks, ChunkOf, OffsetIn;
    var k, j := ChunkOf(a, cfg.c), OffsetIn(a, cfg.c);
    SameLengthReports(cfg, xs, ys);
    HomeChunk(xs, cfg.c, a);
    HomeChunk(ys, cfg.c, a);
    var x, y := Chunks(xs, cfg.c)[k], Chunks(ys, cfg.c)[k];
    ChunkAgrees(xs, ys, cfg.c, cfg.p, k, 0, j);
    ChunkAgrees(xs, ys, cfg.c, cfg.p, k, j + 1, |x|);
    SingleEdit(Triangular, x, y, j, cfg.q, cfg.p, 0);
    ReportAt(cfg, xs, ys, k);
  }

  // ----- swapped neighbours

  /** What a swap of the neighbours `i` and `i + 1` of one chunk has to move for the digest of the chunk to change. */
  ghost predicate SwapSeen(cfg: Config, xs: seq<nat>, i: nat)
    requires cfg.Valid() && i + 1 < |xs|
  {
    !Cong((xs[i] - xs[i + 1]) * (1 - Pow(cfg.q, OffsetIn(i, cfg.c) + 1)), 0, cfg.p)
  }

  /**
   * Neighbours `i` and `i + 1` swapped inside one chunk, under an invertible base
   * and any modulus: that chunk alone is flagged, unless the difference of the
   * entries annihilates `1 - q^(j + 1)`, where `j` is the local position of the first.
   */
  lemma SwapInsideChunk(cfg: Config, xs: seq<nat>, ys: seq<nat>, i: nat)
    requires cfg.Valid() && Invertible(cfg.q, cfg.p)
    requires i + 1 < |xs| && OffsetIn(i + 1, cfg.c) != 0 && ys == SwapAt(xs, i, i + 1)
    ensures var r, k, seen := Reports(cfg, xs, ys), ChunkOf(i, cfg.c), SwapSeen(cfg, xs, i);
      && k < |r|
      && (forall t :: 0 <= t < |r| ==> r[t].status == if t == k && seen then DigestMismatch else Clean)
      && FirstBadChunkIndex(r) == if seen then Some(k) else None
  {
    hide Residue, Invertible, Digest, Pow, Chunks, ChunkOf, OffsetIn, Reports, SwapSeen;
    var r, k := Reports(cfg, xs, ys), ChunkOf(i, cfg.c);
    SameChunkNeighbour(i, cfg.c);
    SwappedChunkReport(cfg, xs, ys, i);
    forall t | 0 <= t < |r| && t != k
      ensures r[t].status == Clean
    {
      AgreeingChunkIsClean(cfg, xs, ys, t);
    }
    if r[k].IsSuspicious() { FirstBadIs(r, k); }
  }

  /** Over a prime: unless the entries agree or the base has an order dividing the local position of the second one. */
  lemma SwapInsideChunkOverPrime(cfg: Config, xs: seq<nat>, ys: seq<nat>, i: nat)
    requires cfg.Valid() && Prime(cfg.p) && !Cong(cfg.q, 0, cfg.p)
    requires i + 1 < |xs| && OffsetIn(i + 1, cfg.c) != 0 && ys == SwapAt(xs, i, i + 1)
    ensures var r, k := Reports(cfg, xs, ys), ChunkOf(i, cfg.c);
      var seen := !Cong(xs[i], xs[i + 1], cfg.p) && !Cong(Pow(cfg.q, OffsetIn(i, cfg.c) + 1), 1, cfg.p);
      && k < |r|
      && (forall t :: 0 <= t < |r| ==> r[t].status == if t == k && seen then DigestMismatch else Clean)
      && FirstBadChunkIndex(r) == if seen then Some(k) else None
  {
    hide Residue, Prime, Invertible, Pow, ChunkOf, OffsetIn, Reports, SwapAt;
    PrimeInvertible(cfg.q, cfg.p);
    SwapInsideChunk(cfg, xs, ys, i);
    FactorsVanish(xs[i], xs[i + 1], Pow(cfg.q, OffsetIn(i, cfg.c) + 1), cfg.p);
  }

  lemma SwappedChunkReport(cfg: Config, xs: seq<nat>, ys: seq<nat>, i: nat)
    requires cfg.Valid() && Invertible(cfg.q, cfg.p)
    requires i + 1 < |xs| && OffsetIn(i + 1, cfg.c) != 0 && ys == SwapAt(xs, i, i + 1)
    ensures ChunkOf(i, cfg.c) < |Reports(cfg, xs, ys)|
    ensures Reports(cfg, xs, ys)[ChunkOf(i, cfg.c)].status == if SwapSeen(cfg, xs, i) then DigestMismatch else Clean
  {
    hide Residue, Invertible, Digest, Pow, Chunks, ChunkOf, OffsetIn, Reports;
    var k, j := ChunkOf(i, cfg.c), OffsetIn(i, cfg.c);
    SwappedChunk(xs, ys, cfg.c, i);
    SameLengthReports(cfg, xs, ys);
    var x := Chunks(xs, cfg.c)[k];
    hide SwapAt;
    AdjacentSwap(x, j, cfg.q, cfg.p, 0);
    assert 0 + j + 1 == j + 1;
    ReportAt(cfg, xs, ys, k);
  }

  lemma SameChunkNeighbour(i: nat, c: nat)
    requires c > 0 && OffsetIn(i + 1, c) != 0
    ensures ChunkOf(i + 1, c) == ChunkOf(i, c) && OffsetIn(i + 1, c) == OffsetIn(i, c) + 1
  {
    hide ChunkOf, OffsetIn;
    PositionParts(i, c);
    if OffsetIn(i, c) + 1 < c {
      PositionIs(i + 1, c, ChunkOf(i, c), OffsetIn(i, c) + 1);
    } else {
      PositionIs(i + 1, c, ChunkOf(i, c) + 1, 0);
    }
  }

  /** Swapping neighbours of one chunk swaps the neighbours in the chunk. */
  lemma SwappedChunk(xs: seq<nat>, ys: seq<nat>, c: nat, i: nat)
    requires c > 0 && i + 1 < |xs| && OffsetIn(i + 1, c) != 0 && ys == SwapAt(xs, i, i + 1)
    ensures var k, j := ChunkOf(i, c), OffsetIn(i, c);
      && k < |Chunks(xs, c)| && k < |Chunks(ys, c)| && j + 1 < |Chunks(xs, c)[k]|
      && Chunks(ys, c)[k] == SwapAt(Chunks(xs, c)[k], j, j + 1)
      && Chunks(xs, c)[k][j] == xs[i] && Chunks(xs, c)[k][j + 1] == xs[i + 1]
  {
    hide Chunks, ChunkOf, OffsetIn;
    var k, j := ChunkOf(i, c), OffsetIn(i, c);
    SameChunkNeighbour(i, c);
    HomeChunk(xs, c, i);
    HomeChunk(ys, c, i);
    HomeChunk(xs, c, i + 1);
    SameChunkSize(xs, ys, c, k);
    var x, y := Chunks(xs, c)[k], Chunks(ys, c)[k];
    forall t | 0 <= t < |x|
      ensures y[t] == SwapAt(x, j, j + 1)[t]
    {
      var a := EntryOfChunk(xs, c, k, t);
      var b := EntryOfChunk(ys, c, k, t);
      PositionUnique(a, b, c);
      if t == j { PositionUnique(a, i, c); }
      if t == j + 1 { PositionUnique(a, i + 1, c); }
    }
  }

  /** Neighbours swapped across a chunk boundary: both chunks are flagged whenever the entries differ modulo `p`. */
  lemma SwapAcrossBoundary(cfg: Config, xs: seq<nat>, ys: seq<nat>, i: nat)
    requires cfg.Valid() && Invertible(cfg.q, cfg.p)
    requires i + 1 < |xs| && OffsetIn(i + 1, cfg.c) == 0 && ys == SwapAt(xs, i, i + 1)
    ensures var r := Reports(cfg, xs, ys);
      && ChunkOf(i, cfg.c) + 1 < |r|
      && (forall t :: 0 <= t < |r| ==>
        r[t].status == if (t == ChunkOf(i, cfg.c) || t == ChunkOf(i, cfg.c) + 1) && !Cong(xs[i], xs[i + 1], cfg.p)
                       then DigestMismatch else Clean)
      && FirstBadChunkIndex(r) == if Cong(xs[i], xs[i + 1], cfg.p) then None else Some(ChunkOf(i, cfg.c))
  {
    hide Residue, Prime, Digest, Chunks, ChunkOf, OffsetIn, Reports;
    var r, k := Reports(cfg, xs, ys), ChunkOf(i, cfg.c);
    NextChunkNeighbour(i, cfg.c);
    SameLengthReports(cfg, xs, ys);
    HomeChunk(xs, cfg.c, i + 1);
    if Cong(xs[i], xs[i + 1], cfg.p) {
      forall t | 0 <= t < |r|
        ensures r[t].status == Clean
      {
        AgreeingChunkIsClean(cfg, xs, ys, t);
      }
    } else {
      EditedChunkIsBad(cfg, xs, ys, i);
      EditedChunkIsBad(cfg, xs, ys, i + 1);
      forall t | 0 <= t < |r| && t != k && t != k + 1
        ensures r[t].status == Clean
      {
        AgreeingChunkIsClean(cfg, xs, ys, t);
      }
      FirstBadIs(r, k);
    }
  }

  lemma NextChunkNeighbour(i: nat, c: nat)
    requires c > 0 && OffsetIn(i + 1, c) == 0
    ensures ChunkOf(i + 1, c) == ChunkOf(i, c) + 1
  {
    hide Chunks, ChunkOf, OffsetIn;
    var k := ChunkOf(i + 1, c);
    PositionParts(i + 1, c);
    assert i == (k - 1) * c + (c - 1);
    PositionIs(i, c, k - 1, c - 1);
  }

  // ----- arbitrary tampering

  /** Indices of the chunks both streams have that differ in length or somewhere modulo `p`. */
  ghost function DifferingChunks(xs: seq<nat>, ys: seq<nat>, c: nat, p: nat): set<nat>
    requires c > 0 && p > 0
  {
    set i | 0 <= i < |Chunks(xs, c)| && i < |Chunks(ys, c)| && ChunksDiffer(Chunks(xs, c)[i], Chunks(ys, c)[i], p)
  }

  /** For streams of one length those are the chunks of the positions that differ. */
  lemma DifferingChunksByPosition(xs: seq<nat>, ys: seq<nat>, c: nat, p: nat)
    requires c > 0 && p > 0 && |xs| == |ys|
    ensures DifferingChunks(xs, ys, c, p) == set a | 0 <= a < |xs| && !Cong(xs[a], ys[a], p) :: ChunkOf(a, c)
  {
    hide Residue, Chunks, ChunkOf, OffsetIn;
    SameChunkCount(xs, ys, c);
    forall a | 0 <= a < |xs| && !Cong(xs[a], ys[a], p)
      ensures ChunkOf(a, c) in DifferingChunks(xs, ys, c, p)
    {
      ChunkOfDifference(xs, ys, c, p, a);
    }
    forall i | i in DifferingChunks(xs, ys, c, p)
      ensures exists a :: 0 <= a < |xs| && !Cong(xs[a], ys[a], p) && ChunkOf(a, c) == i
    {
      SameChunkSize(xs, ys, c, i);
      if forall a :: 0 <= a < |xs| && ChunkOf(a, c) == i ==> Cong(xs[a], ys[a], p) {
        ChunkAgrees(xs, ys, c, p, i, 0, |Chunks(xs, c)[i]|);
      }
    }
  }

  /** The chunk of a position where the streams differ is a differing chunk. */
  lemma ChunkOfDifference(xs: seq<nat>, ys: seq<nat>, c: nat, p: nat, a: nat)
    requires c > 0 && p > 0 && a < |xs| && a < |ys| && !Cong(xs[a], ys[a], p)
    ensures ChunkOf(a, c) in DifferingChunks(xs, ys, c, p)
  {
    hide Residue, Chunks, ChunkOf, OffsetIn;
    HomeChunk(xs, c, a);
    HomeChunk(ys, c, a);
  }

  /**
   * The nonzero bases that make chunk `i` of the two streams collide; chunks of
   * different lengths are told apart by length.
   */
  ghost function ChunkBadBases(xs: seq<nat>, ys: seq<nat>, c: nat, p: nat, i: nat): set<int>
    requires c > 0 && p > 0
  {
    if i < |Chunks(xs, c)| && i < |Chunks(ys, c)| && |Chunks(xs, c)[i]| == |Chunks(ys, c)[i]|
    then BadBases(Triangular, Chunks(xs, c)[i], Chunks(ys, c)[i], p, 0, 1, p)
    else {}
  }

  /** A chunk that differs modulo a prime collides for at most `c (c - 1) / 2` nonzero bases. */
  lemma ChunkBadBound(cfg: Config, xs: seq<nat>, ys: seq<nat>, i: nat)
    requires cfg.Valid() && Prime(cfg.p) && i in DifferingChunks(xs, ys, cfg.c, cfg.p)
    ensures |ChunkBadBases(xs, ys, cfg.c, cfg.p, i)| <= Triangular(cfg.c - 1)
  {
    hide Residue, Prime, Digest, Triangular, BadBases;
    var x, y := Chunks(xs, cfg.c)[i], Chunks(ys, cfg.c)[i];
    if |x| == |y| {
      var lo, hi := DifferingEnds(x, y, cfg.p);
      SchedulesIncrease();
      NonzeroBadBound(Triangular, x, y, cfg.p, 0, lo, hi);
      assert 0 + hi == hi <= cfg.c - 1;
      assert hi < cfg.c - 1 ==> Triangular(hi) < Triangular(cfg.c - 1);
    }
  }

  /** A differing chunk is flagged for every base that does not make it collide. */
  lemma DifferingChunkReport(cfg: Config, xs: seq<nat>, ys: seq<nat>, i: nat)
    requires cfg.Valid() && i in DifferingChunks(xs, ys, cfg.c, cfg.p) && 1 <= cfg.q < cfg.p
    ensures i < |Reports(cfg, xs, ys)|
    ensures Reports(cfg, xs, ys)[i].IsSuspicious() <==> cfg.q !in ChunkBadBases(xs, ys, cfg.c, cfg.p, i)
  {
    hide Residue, Digest, Chunks;
    ReportAt(cfg, xs, ys, i);
  }

  /** A chunk both streams have that does not differ is reported clean, whatever the base. */
  lemma OtherChunkReport(cfg: Config, xs: seq<nat>, ys: seq<nat>, i: nat)
    requires cfg.Valid() && i < |Reports(cfg, xs, ys)| && i !in DifferingChunks(xs, ys, cfg.c, cfg.p)
    ensures !Reports(cfg, xs, ys)[i].IsSuspicious()
  {
    hide Residue, Digest, Chunks, Reports, ChunksDiffer;
    ReportAt(cfg, xs, ys, i);
    MatchingChunkIsClean(cfg, xs, ys, i);
  }

  /** The nonzero bases for which the first bad report is not the one for chunk `k`. */
  ghost function MisleadingBases(cfg: Config, xs: seq<nat>, ys: seq<nat>, k: nat): set<int>
    requires cfg.Valid()
  {
    set q: nat | 1 <= q < cfg.p && FirstBadChunkIndex(Reports(cfg.(q := q), xs, ys)) != Some(k)
  }

  /** Position `a` is the first at which the streams differ modulo `p`. */
  ghost predicate FirstDifference(xs: seq<nat>, ys: seq<nat>, a: nat, p: nat)
    requires p > 0
  {
    && a < |xs| && a < |ys| && !Cong(xs[a], ys[a], p)
    && forall i :: 0 <= i < a ==> Cong(xs[i], ys[i], p)
  }

  /** Streams that differ modulo `p` somewhere in their common range have a first difference. */
  lemma {:induction false} DifferenceHasFirst(xs: seq<nat>, ys: seq<nat>, b: nat, p: nat) returns (a: nat)
    requires p > 0 && b < |xs| && b < |ys| && !Cong(xs[b], ys[b], p)
    ensures a <= b && FirstDifference(xs, ys, a, p)
    decreases b
  {
    if i :| 0 <= i < b && !Cong(xs[i], ys[i], p) {
      a := DifferenceHasFirst(xs, ys, i, p);
    } else {
      a := b;
    }
  }

  /** Chunks before that of the first difference are full in both streams and do not differ. */
  lemma EarlierChunkMatches(xs: seq<nat>, ys: seq<nat>, c: nat, p: nat, a: nat, i: nat)
    requires c > 0 && p > 0 && FirstDifference(xs, ys, a, p) && i < ChunkOf(a, c)
    ensures i !in DifferingChunks(xs, ys, c, p)
  {
    hide Residue, Chunks, ChunkOf, OffsetIn;
    HomeChunk(xs, c, a);
    HomeChunk(ys, c, a);
    NeighbouringChunks(xs, c, i);
    NeighbouringChunks(ys, c, i);
    forall b | 0 <= b < |xs| && b < |ys| && ChunkOf(b, c) == i
      ensures Cong(xs[b], ys[b], p)
    {
      EarlierChunk(b, a, c);
    }
    ChunkAgrees(xs, ys, c, p, i, 0, c);
  }

  lemma EarlierChunk(b: nat, a: nat, c: nat)
    requires c > 0 && ChunkOf(b, c) < ChunkOf(a, c)
    ensures b < a
  {
    hide ChunkOf, OffsetIn;
    if a <= b {
      PositionParts(a, c);
      PositionParts(b, c);
      MulMono(c, ChunkOf(b, c) + 1, ChunkOf(a, c));
    }
  }

  /** The chunk of the first difference has the first bad report exactly unless the base makes it collide. */
  lemma DifferingChunkComesFirst(cfg: Config, xs: seq<nat>, ys: seq<nat>, a: nat)
    requires cfg.Valid() && FirstDifference(xs, ys, a, cfg.p) && 1 <= cfg.q < cfg.p
    ensures FirstBadChunkIndex(Reports(cfg, xs, ys)) == Some(ChunkOf(a, cfg.c))
       <==> cfg.q !in ChunkBadBases(xs, ys, cfg.c, cfg.p, ChunkOf(a, cfg.c))
  {
    hide Residue, Chunks, ChunkOf, Reports, FirstBadChunkIndex, DifferingChunks, ChunkBadBases;
    var r, k := Reports(cfg, xs, ys), ChunkOf(a, cfg.c);
    ChunkOfDifference(xs, ys, cfg.c, cfg.p, a);
    DifferingChunkReport(cfg, xs, ys, k);
    forall i | 0 <= i < k
      ensures !r[i].IsSuspicious()
    {
      EarlierChunkMatches(xs, ys, cfg.c, cfg.p, a, i);
      OtherChunkReport(cfg, xs, ys, i);
    }
    if r[k].IsSuspicious() { FirstBadIs(r, k); }
  }

  /**
   * Tampering of any kind, drops and insertions included: for all but
   * `c (c - 1) / 2` nonzero bases the first bad report is that of the chunk of
   * the first position at which the streams differ modulo `p`. The count does not
   * depend on the lengths of the streams.
   */
  lemma TamperLocalised(cfg: Config, xs: seq<nat>, ys: seq<nat>, a: nat)
    requires cfg.Valid() && Prime(cfg.p) && FirstDifference(xs, ys, a, cfg.p)
    ensures var k := ChunkOf(a, cfg.c);
      var bad := MisleadingBases(cfg, xs, ys, k);
      && |bad| <= Triangular(cfg.c - 1)
      && forall q: nat :: 1 <= q < cfg.p && q !in bad ==> FirstBadChunkIndex(Reports(cfg.(q := q), xs, ys)) == Some(k)
  {
    hide Residue, Prime, Triangular, ChunkOf, Reports, FirstBadChunkIndex, DifferingChunks, ChunkBadBases;
    var k := ChunkOf(a, cfg.c);
    var bad := ChunkBadBases(xs, ys, cfg.c, cfg.p, k);
    forall q: nat | 1 <= q < cfg.p
      ensures FirstBadChunkIndex(Reports(cfg.(q := q), xs, ys)) == Some(k) <==> q !in bad
    {
      DifferingChunkComesFirst(cfg.(q := q), xs, ys, a);
    }
    SubsetSize(MisleadingBases(cfg, xs, ys, k), bad);
    ChunkOfDifference(xs, ys, cfg.c, cfg.p, a);
    ChunkBadBound(cfg, xs, ys, k);
  }

  /** Indices of the suspicious reports. */
  ghost function SuspiciousReports(r: seq<VerificationReport>): set<nat> {
    set i | 0 <= i < |r| && r[i].IsSuspicious()
  }

  /** The nonzero bases for which the suspicious reports are not exactly those of the differing chunks. */
  ghost function MisreportingBases(cfg: Config, xs: seq<nat>, ys: seq<nat>): set<int>
    requires cfg.Valid()
  {
    set q: nat | 1 <= q < cfg.p &&
      SuspiciousReports(Reports(cfg.(q := q), xs, ys)) != DifferingChunks(xs, ys, cfg.c, cfg.p)
  }

  /** The nonzero bases that make some chunk of `d` collide. */
  ghost function AnyBadBases(xs: seq<nat>, ys: seq<nat>, c: nat, p: nat, d: set<nat>): set<int>
    requires c > 0 && p > 0
  {
    set i, q | i in d && q in ChunkBadBases(xs, ys, c, p, i) :: q
  }

  /**
   * The suspicious reports are exactly those of the differing chunks unless the base
   * makes a differing chunk collide.
   */
  lemma ReportsMatchIff(cfg: Config, xs: seq<nat>, ys: seq<nat>)
    requires cfg.Valid() && 1 <= cfg.q < cfg.p
    ensures SuspiciousReports(Reports(cfg, xs, ys)) == DifferingChunks(xs, ys, cfg.c, cfg.p)
       <==> cfg.q !in AnyBadBases(xs, ys, cfg.c, cfg.p, DifferingChunks(xs, ys, cfg.c, cfg.p))
  {
    hide Reports, DifferingChunks, ChunkBadBases;
    var r, d := Reports(cfg, xs, ys), DifferingChunks(xs, ys, cfg.c, cfg.p);
    forall i | i in d
      ensures i < |r| && (r[i].IsSuspicious() <==> cfg.q !in ChunkBadBases(xs, ys, cfg.c, cfg.p, i))
    {
      DifferingChunkReport(cfg, xs, ys, i);
    }
    forall i | 0 <= i < |r| && i !in d
      ensures !r[i].IsSuspicious()
    {
      OtherChunkReport(cfg, xs, ys, i);
    }
    if cfg.q in AnyBadBases(xs, ys, cfg.c, cfg.p, d) {
      var i :| i in d && cfg.q in ChunkBadBases(xs, ys, cfg.c, cfg.p, i);
      assert i !in SuspiciousReports(r);
    }
  }

  lemma {:induction false} UnionBound(cfg: Config, xs: seq<nat>, ys: seq<nat>, d: set<nat>)
    requires cfg.Valid() && Prime(cfg.p)
    requires d <= DifferingChunks(xs, ys, cfg.c, cfg.p)
    ensures |AnyBadBases(xs, ys, cfg.c, cfg.p, d)| <= |d| * Triangular(cfg.c - 1)
    decreases |d|
  {
    hide Prime, Triangular, DifferingChunks, ChunkBadBases;
    if d == {} {
      assert AnyBadBases(xs, ys, cfg.c, cfg.p, d) == {};
    } else {
      var i :| i in d;
      var rest, bad := AnyBadBases(xs, ys, cfg.c, cfg.p, d - {i}), ChunkBadBases(xs, ys, cfg.c, cfg.p, i);
      UnionBound(cfg, xs, ys, d - {i});
      ChunkBadBound(cfg, xs, ys, i);
      SubsetSize(AnyBadBases(xs, ys, cfg.c, cfg.p, d), rest + bad);
      OneMore(|d|, Triangular(cfg.c - 1));
    }
  }

  lemma OneMore(n: nat, t: nat)
    requires n > 0
    ensures (n - 1) * t + t == n * t
  {
  }

  /**
   * Tampering of any kind, drops and insertions included: for all but
   * `c (c - 1) / 2` nonzero bases per differing chunk, the suspicious reports are
   * exactly those of the chunks that differ.
   */
  lemma TamperLocalisedExactly(cfg: Config, xs: seq<nat>, ys: seq<nat>)
    requires cfg.Valid() && Prime(cfg.p)
    ensures var d, bad := DifferingChunks(xs, ys, cfg.c, cfg.p), MisreportingBases(cfg, xs, ys);
      && |bad| <= |d| * Triangular(cfg.c - 1)
      && forall q: nat :: 1 <= q < cfg.p && q !in bad ==> SuspiciousReports(Reports(cfg.(q := q), xs, ys)) == d
  {
    hide Prime, Triangular, Reports, DifferingChunks, AnyBadBases, SuspiciousReports;
    var d := DifferingChunks(xs, ys, cfg.c, cfg.p);
    var bad := AnyBadBases(xs, ys, cfg.c, cfg.p, d);
    forall q | q in MisreportingBases(cfg, xs, ys)
      ensures q in bad
    {
      if q !in bad {
        ReportsMatchIff(cfg.(q := q), xs, ys);
      }
    }
    SubsetSize(MisreportingBases(cfg, xs, ys), bad);
    UnionBound(cfg, xs, ys, d);
  }

  // ----- changes of length

  function Min(m: nat, n: nat): nat {
    if m <= n then m else n
  }

  /** Streams of different lengths: only the chunk that the shorter one leaves unfinished can report a length. */
  lemma LengthReports(cfg: Config, xs: seq<nat>, ys: seq<nat>)
    requires cfg.Valid() && |xs| != |ys|
    ensures var r, m := Reports(cfg, xs, ys), Min(|xs|, |ys|);
      && (OffsetIn(m, cfg.c) != 0 ==> ChunkOf(m, cfg.c) < |r|)
      && forall i :: 0 <= i < |r| ==>
           (r[i].status == MetadataMismatch(Length) <==> i == ChunkOf(m, cfg.c) && OffsetIn(m, cfg.c) != 0)
  {
    hide DigestOf, Chunks, ChunkOf, OffsetIn, Reports;
    var r, m, c := Reports(cfg, xs, ys), Min(|xs|, |ys|), cfg.c;
    ReportCount(cfg, xs, ys);
    if OffsetIn(m, c) != 0 {
      PositionParts(m, c);
      ChunkAt(xs, c, ChunkOf(m, c));
      ChunkAt(ys, c, ChunkOf(m, c));
    }
    forall i | 0 <= i < |r|
      ensures r[i].status == MetadataMismatch(Length) <==> i == ChunkOf(m, c) && OffsetIn(m, c) != 0
    {
      ReportAt(cfg, xs, ys, i);
      ChunkSize(xs, c, i);
      ChunkSize(ys, c, i);
      UnfinishedChunk(m, c, i);
    }
  }

  /** Chunk `i` of `m` entries is cut short exactly when it is the one `m` ends in. */
  lemma UnfinishedChunk(m: nat, c: nat, i: nat)
    requires c > 0 && i * c < m
    ensures i * c + c > m <==> i == ChunkOf(m, c) && OffsetIn(m, c) != 0
  {
    hide Chunks, ChunkOf, OffsetIn;
    PositionParts(m, c);
    if i * c + c > m {
      PositionIs(m, c, i, m - i * c);
    }
  }

  /** A stream of full chunks has fewer of them than any longer stream. */
  lemma MoreChunks(xs: seq<nat>, ys: seq<nat>, c: nat)
    requires c > 0 && |xs| < |ys| && OffsetIn(|xs|, c) == 0
    ensures |Chunks(xs, c)| < |Chunks(ys, c)|
  {
    hide Chunks, OffsetIn, ChunkOf;
    ChunkAt(xs, c, ChunkOf(|xs|, c));
    ChunkAt(ys, c, ChunkOf(|xs|, c));
    PositionParts(|xs|, c);
  }

  ghost predicate NoLengthReport(r: seq<VerificationReport>) {
    forall i :: 0 <= i < |r| ==> r[i].status != MetadataMismatch(Length)
  }

  /** Equally many checkpoints and no length report: that is what equally long streams look like, and only they. */
  lemma LengthsAgreeIff(cfg: Config, xs: seq<nat>, ys: seq<nat>)
    requires cfg.Valid()
    ensures |xs| == |ys| <==>
      |Chunks(xs, cfg.c)| == |Chunks(ys, cfg.c)| && NoLengthReport(Reports(cfg, xs, ys))
  {
    hide Digest, Chunks, ChunkOf, OffsetIn, Reports;
    var r := Reports(cfg, xs, ys);
    if |xs| == |ys| {
      SameLengthReports(cfg, xs, ys);
      forall i | 0 <= i < |r|
        ensures r[i].status != MetadataMismatch(Length)
      {
        ReportAt(cfg, xs, ys, i);
      }
    } else {
      LengthReports(cfg, xs, ys);
      var m := Min(|xs|, |ys|);
      if OffsetIn(m, cfg.c) != 0 {
        assert r[ChunkOf(m, cfg.c)].status == MetadataMismatch(Length);
      } else if |xs| < |ys| {
        MoreChunks(xs, ys, cfg.c);
      } else {
        MoreChunks(ys, xs, cfg.c);
      }
    }
  }

  /**
   * A stream cut to its first `m` entries is reported clean throughout exactly
   * when the cut falls on a chunk boundary; otherwise the first bad report is
   * that of the unfinished chunk.
   */
  lemma TruncationReports(cfg: Config, xs: seq<nat>, m: nat)
    requires cfg.Valid() && m < |xs|
    ensures FirstBadChunkIndex(Reports(cfg, xs, xs[..m])) ==
      if OffsetIn(m, cfg.c) == 0 then None else Some(ChunkOf(m, cfg.c))
  {
    hide Residue, DigestOf, Chunks, ChunkOf, OffsetIn, Reports;
    var ys, c := xs[..m], cfg.c;
    var r := Reports(cfg, xs, ys);
    LengthReports(cfg, xs, ys);
    PositionParts(m, c);
    forall i | 0 <= i < |r| && !(i == ChunkOf(m, c) && OffsetIn(m, c) != 0)
      ensures !r[i].IsSuspicious()
    {
      ReportAt(cfg, xs, ys, i);
      ChunkAt(xs, c, i);
      ChunkAt(ys, c, i);
      UnfinishedChunk(m, c, i);
      SlicePrefix(xs, m, i * c, i * c + c);
    }
    if OffsetIn(m, c) != 0 {
      FirstBadIs(r, ChunkOf(m, c));
    }
  }

  lemma SlicePrefix<T>(xs: seq<T>, m: nat, lo: nat, hi: nat)
    requires lo <= hi <= m <= |xs|
    ensures xs[..m][lo..hi] == xs[lo..hi]
  {
  }
}
