/**
 * Chunked checkpoints of a stream, and what comparing the checkpoints of two
 * streams reveals about where they differ.
 */
module Chunker {
  import opened Modular
  import opened Accumulator
  import opened Machine
  import opened KSentry
  import opened Slicing
  import opened Checkpoint
  import opened Verifier

  /** What both sides agree on before chunking. */
  datatype Config = Config(streamId: string, epoch: nat, c: nat, q: nat, p: nat) {
    ghost predicate Valid() {
      c > 0 && p > 1
    }
  }

  ghost function DigestOf(cfg: Config, chunk: seq<nat>): nat
    requires cfg.Valid()
  {
    DigestIsWeighted(Triangular, chunk, cfg.q, cfg.p, 0);
    Digest(Triangular, chunk, cfg.q, cfg.p, 0)
  }

  ghost function CheckpointAt(cfg: Config, xs: seq<nat>, i: nat): TimeFenceCheckpoint
    requires cfg.Valid() && i < |Chunks(xs, cfg.c)|
  {
    var chunk := Chunks(xs, cfg.c)[i];
    TimeFenceCheckpoint.New(cfg.streamId, cfg.epoch, i * cfg.c, |chunk|, DigestOf(cfg, chunk), cfg.q, cfg.p)
  }

  ghost function Checkpoints(cfg: Config, xs: seq<nat>): (r: seq<TimeFenceCheckpoint>)
    requires cfg.Valid()
    ensures |r| == |Chunks(xs, cfg.c)|
    ensures forall i :: 0 <= i < |r| ==> r[i] == CheckpointAt(cfg, xs, i)
  {
    seq(|Chunks(xs, cfg.c)|, i requires 0 <= i < |Chunks(xs, cfg.c)| => CheckpointAt(cfg, xs, i))
  }

  method ChunkStream(streamId: string, epoch: u64, xs: seq<u128>, chunkSize: u64, q: u128, p: u128)
    returns (checkpoints: seq<TimeFenceCheckpoint>)
    requires chunkSize > 0
    requires xs == [] || (p > 1 && q > 0)
    ensures |checkpoints| == |Chunks<nat>(xs, chunkSize)|
    ensures forall i :: 0 <= i < |checkpoints| ==>
      var cp, chunk := checkpoints[i], Chunks<nat>(xs, chunkSize)[i];
      && cp.streamId == streamId && cp.epoch == epoch && cp.q == q && cp.p == p
      && cp.startSeq == i * chunkSize && cp.len == |chunk| && cp.endSeq == i * chunkSize + |chunk|
    ensures forall i :: 0 <= i < |checkpoints| ==>
      p > 0 && i < |Chunks(xs, chunkSize)| && checkpoints[i].digest == Fold(Chunks(xs, chunkSize)[i], q % p, p).acc
    ensures p > 1 && Exact(p) ==> checkpoints == Checkpoints(Config(streamId, epoch, chunkSize, q, p), xs)
  {
    hide Chunks, Fold, Digest, Pow, Triangular;
    checkpoints := [];
    var chunks := Chunks(xs, chunkSize);
    ChunksOfWords(xs, chunkSize);
    for i := 0 to |chunks|
      invariant |checkpoints| == i
      invariant forall k :: 0 <= k < i ==>
        var cp, chunk := checkpoints[k], chunks[k];
        && cp.streamId == streamId && cp.epoch == epoch && cp.q == q && cp.p == p
        && cp.startSeq == k * chunkSize && cp.len == |chunk| && cp.endSeq == k * chunkSize + |chunk|
      invariant forall k :: 0 <= k < i ==> p > 0 && checkpoints[k].digest == Fold(chunks[k], q % p, p).acc
      invariant p > 1 && Exact(p) ==> forall k :: 0 <= k < i ==>
        checkpoints[k] == CheckpointAt(Config(streamId, epoch, chunkSize, q, p), xs, k)
    {
      var st := KSentryFast(chunks[i], q, p);
      checkpoints := checkpoints +
        [TimeFenceCheckpoint.New(streamId, epoch, i * chunkSize, |chunks[i]|, st.acc, q, p)];
    }
  }

  lemma {:induction false} ChunksOfWords(xs: seq<u128>, c: nat)
    requires c > 0
    ensures Chunks<nat>(xs, c) == Chunks<u128>(xs, c)
  {
    if |xs| > c {
      ChunksOfWords(xs[c..], c);
    }
  }

  /** The reports on two streams chunked the same way. */
  ghost function Reports(cfg: Config, xs: seq<nat>, ys: seq<nat>): seq<VerificationReport>
    requires cfg.Valid()
  {
    VerifyMany(Checkpoints(cfg, xs), Checkpoints(cfg, ys))
  }

  // ----- tiling

  /** The checkpoints cover the stream from its first to its last entry with no gap and no overlap. */
  lemma CheckpointsTile(cfg: Config, xs: seq<nat>)
    requires cfg.Valid() && xs != []
    ensures var cs := Checkpoints(cfg, xs);
      && cs != [] && cs[0].startSeq == 0 && cs[|cs| - 1].endSeq == |xs|
      && (forall i :: 0 <= i < |cs| ==> cs[i].ValidRange() && 0 < cs[i].len <= cfg.c)
      && (forall i, j :: 0 <= i && j == i + 1 < |cs| ==> cs[j].startSeq == cs[i].endSeq && cs[i].len == cfg.c)
  {
    hide Chunks, DigestOf;
    var cs := Checkpoints(cfg, xs);
    forall i, j | 0 <= i && j == i + 1 < |cs|
      ensures cs[j].startSeq == cs[i].endSeq && cs[i].len == cfg.c
    {
      NeighbouringChunks(xs, cfg.c, i);
    }
    LastChunk(xs, cfg.c);
  }

  /** Of the checkpoints of a stream, each is adjacent to its successor and to no other: gaps and overlaps show. */
  lemma AdjacentIff(cfg: Config, xs: seq<nat>, i: nat, j: nat)
    requires cfg.Valid() && i < |Checkpoints(cfg, xs)| && j < |Checkpoints(cfg, xs)|
    ensures Checkpoints(cfg, xs)[i].AdjacentTo(Checkpoints(cfg, xs)[j]) <==> j == i + 1
  {
    hide Chunks, DigestOf;
    ChunkSize(xs, cfg.c, i);
    ChunkSize(xs, cfg.c, j);
    if i + 1 < |Checkpoints(cfg, xs)| {
      NeighbouringChunks(xs, cfg.c, i);
      if j != i + 1 { ScaleApart(i + 1, j, cfg.c); }
    } else {
      LastChunk(xs, cfg.c);
    }
  }

  lemma ScaleApart(i: nat, j: nat, c: nat)
    requires i != j && c > 0
    ensures i * c != j * c
  {
    if i < j { MulMono(c, i + 1, j); } else { MulMono(c, j + 1, i); }
  }

  /** Digests of consecutive chunks, each taken at its own position, added up modulo `p`. */
  ghost function ShiftedSum(e: nat -> nat, chunks: seq<seq<nat>>, q: nat, p: nat, s: nat): int
    requires p > 0
    decreases |chunks|
  {
    if chunks == [] then 0
    else (Digest(e, chunks[0], q, p, s) + ShiftedSum(e, chunks[1..], q, p, s + |chunks[0]|)) % p
  }

  /** The digest of a whole stream is the sum of its shifted chunk digests, for every chunking. */
  lemma {:induction false} DigestIsShiftedSum(e: nat -> nat, chunks: seq<seq<nat>>, q: nat, p: nat, s: nat)
    requires p > 0
    ensures Digest(e, Flatten(chunks), q, p, s) == ShiftedSum(e, chunks, q, p, s)
    decreases |chunks|
  {
    if chunks != [] {
      DigestIsShiftedSum(e, chunks[1..], q, p, s + |chunks[0]|);
      Composition(e, chunks[0], Flatten(chunks[1..]), q, p, s);
    }
  }

  lemma StreamIsSumOfChunks(e: nat -> nat, xs: seq<nat>, c: nat, q: nat, p: nat)
    requires c > 0 && p > 0
    ensures Digest(e, xs, q, p, 0) == ShiftedSum(e, Chunks(xs, c), q, p, 0)
  {
    FlattenChunks(xs, c);
    DigestIsShiftedSum(e, Chunks(xs, c), q, p, 0);
  }

  // ----- what one report says

  /** A report speaks of lengths first and of digests only when the lengths agree. */
  lemma ReportAt(cfg: Config, xs: seq<nat>, ys: seq<nat>, i: nat)
    requires cfg.Valid() && i < |Reports(cfg, xs, ys)|
    ensures i < |Chunks(xs, cfg.c)| && i < |Chunks(ys, cfg.c)|
    ensures var x, y := Chunks(xs, cfg.c)[i], Chunks(ys, cfg.c)[i];
      Reports(cfg, xs, ys)[i].status ==
        if |x| != |y| then MetadataMismatch(Length)
        else if DigestOf(cfg, x) != DigestOf(cfg, y) then DigestMismatch
        else Clean
  {
    hide DigestOf, Chunks;
  }

  /** A report points at the positions of its chunk, no more and no fewer, and carries both digests of the chunk. */
  lemma ReportWindow(cfg: Config, xs: seq<nat>, ys: seq<nat>, i: nat)
    requires cfg.Valid() && i < |Reports(cfg, xs, ys)|
    ensures i < |Chunks(xs, cfg.c)| && i < |Chunks(ys, cfg.c)|
    ensures var r := Reports(cfg, xs, ys)[i];
      && r.streamId == cfg.streamId && r.epoch == cfg.epoch
      && r.startSeq < r.endSeq <= |xs| && Chunks(xs, cfg.c)[i] == xs[r.startSeq..r.endSeq]
      && (forall a :: 0 <= a < |xs| ==> (r.startSeq <= a < r.endSeq <==> ChunkOf(a, cfg.c) == i))
      && r.expectedDigest == DigestOf(cfg, Chunks(xs, cfg.c)[i])
      && r.observedDigest == DigestOf(cfg, Chunks(ys, cfg.c)[i])
  {
    hide DigestOf, Chunks, ChunkOf, Reports;
    var r := Reports(cfg, xs, ys)[i];
    ReportFields(cfg, xs, ys, i);
    ChunkAt(xs, cfg.c, i);
    forall a | 0 <= a < |xs|
      ensures r.startSeq <= a < r.endSeq <==> ChunkOf(a, cfg.c) == i
    {
      PositionInChunk(|xs|, cfg.c, i, a);
    }
  }

  /** What a report copies from the two checkpoints. */
  lemma ReportFields(cfg: Config, xs: seq<nat>, ys: seq<nat>, i: nat)
    requires cfg.Valid() && i < |Reports(cfg, xs, ys)|
    ensures i < |Chunks(xs, cfg.c)| && i < |Chunks(ys, cfg.c)|
    ensures var r := Reports(cfg, xs, ys)[i];
      && r.streamId == cfg.streamId && r.epoch == cfg.epoch
      && r.startSeq == i * cfg.c && r.endSeq == i * cfg.c + |Chunks(xs, cfg.c)[i]|
      && r.expectedDigest == DigestOf(cfg, Chunks(xs, cfg.c)[i])
      && r.observedDigest == DigestOf(cfg, Chunks(ys, cfg.c)[i])
  {
    hide DigestOf, Chunks;
  }

  lemma ReportCount(cfg: Config, xs: seq<nat>, ys: seq<nat>)
    requires cfg.Valid()
    ensures var m, n := |Chunks(xs, cfg.c)|, |Chunks(ys, cfg.c)|;
      |Reports(cfg, xs, ys)| == if m <= n then m else n
  {
    hide DigestOf, Chunks;
  }

  /** Streams of one length get one report per chunk, with chunks of matching lengths. */
  lemma SameLengthReports(cfg: Config, xs: seq<nat>, ys: seq<nat>)
    requires cfg.Valid() && |xs| == |ys|
    ensures |Reports(cfg, xs, ys)| == |Chunks(xs, cfg.c)| == |Chunks(ys, cfg.c)|
    ensures forall i :: 0 <= i < |Chunks(xs, cfg.c)| ==> |Chunks(xs, cfg.c)[i]| == |Chunks(ys, cfg.c)[i]|
  {
    SameChunkCount(xs, ys, cfg.c);
    forall i | 0 <= i < |Chunks(xs, cfg.c)|
      ensures |Chunks(xs, cfg.c)[i]| == |Chunks(ys, cfg.c)[i]|
    {
      SameChunkSize(xs, ys, cfg.c, i);
    }
  }

  /** Agreement of two streams on part of a chunk is agreement of the chunks there. */
  lemma ChunkAgrees(xs: seq<nat>, ys: seq<nat>, c: nat, p: nat, i: nat, lo: nat, hi: nat)
    requires c > 0 && p > 0
    requires i < |Chunks(xs, c)| && i < |Chunks(ys, c)|
    requires |Chunks(xs, c)[i]| == |Chunks(ys, c)[i]| && hi <= |Chunks(xs, c)[i]|
    requires forall a :: 0 <= a < |xs| && a < |ys| && ChunkOf(a, c) == i && lo <= OffsetIn(a, c) < hi ==>
      Cong(xs[a], ys[a], p)
    ensures AgreeMod(Chunks(xs, c)[i], Chunks(ys, c)[i], p, lo, hi)
  {
    hide Residue, Chunks, ChunkOf, OffsetIn;
    var x, y := Chunks(xs, c)[i], Chunks(ys, c)[i];
    forall j | lo <= j < hi
      ensures Cong(x[j], y[j], p)
    {
      var a := EntryOfChunk(xs, c, i, j);
      var b := EntryOfChunk(ys, c, i, j);
      PositionUnique(a, b, c);
      assert Cong(xs[a], ys[a], p);
    }
  }

  /** The chunks differ in length or in some entry modulo `p`. */
  ghost predicate ChunksDiffer(x: seq<nat>, y: seq<nat>, p: nat)
    requires p > 0
  {
    |x| != |y| || !AgreeMod(x, y, p, 0, |x|)
  }

  /** A chunk that differs neither in length nor modulo `p` is reported clean. */
  lemma MatchingChunkIsClean(cfg: Config, xs: seq<nat>, ys: seq<nat>, i: nat)
    requires cfg.Valid() && i < |Reports(cfg, xs, ys)|
    requires i < |Chunks(xs, cfg.c)| && i < |Chunks(ys, cfg.c)|
    requires !ChunksDiffer(Chunks(xs, cfg.c)[i], Chunks(ys, cfg.c)[i], cfg.p)
    ensures Reports(cfg, xs, ys)[i].status == Clean
  {
    hide Residue, Digest, Chunks, Reports;
    DigestCong(Triangular, Chunks(xs, cfg.c)[i], Chunks(ys, cfg.c)[i], cfg.q, cfg.q, cfg.p, 0);
    ReportAt(cfg, xs, ys, i);
  }

  /** For streams of one length: a chunk on which they agree modulo `p` is reported clean. */
  lemma AgreeingChunkIsClean(cfg: Config, xs: seq<nat>, ys: seq<nat>, i: nat)
    requires cfg.Valid() && |xs| == |ys| && i < |Reports(cfg, xs, ys)|
    requires forall a :: 0 <= a < |xs| && ChunkOf(a, cfg.c) == i ==> Cong(xs[a], ys[a], cfg.p)
    ensures Reports(cfg, xs, ys)[i].status == Clean
  {
    hide Residue, Chunks, ChunkOf, OffsetIn, Reports;
    SameLengthReports(cfg, xs, ys);
    ChunkAgrees(xs, ys, cfg.c, cfg.p, i, 0, |Chunks(xs, cfg.c)[i]|);
    MatchingChunkIsClean(cfg, xs, ys, i);
  }
}
