/** The batch accumulator with triangular exponents, its weights computed by repeated multiplication. */
module VerifiedSentry {
  import opened Modular
  import opened Accumulator
  import opened Machine
  import opened Metrics

  class TriangularSentry {
    var state: u64
    const q: u64
    const p: u64

    constructor (q: u64, p: u64)
      requires p > 1 && q >= 1
      ensures state == 0 && this.q == q && this.p == p
    {
      state, this.q, this.p := 0, q, p;
    }

    /** The linear loop agrees with square-and-multiply: both give the residue of `q^T(i)`. */
    method CalculateWeight(i: u64) returns (res: u64)
      requires p > 1 && q >= 1 && i < INDEX_LIMIT
      ensures res < p && res == Pow(q, Triangular(i)) % p
    {
      MulMono(i, i + 1, INDEX_LIMIT);
      MulMono(INDEX_LIMIT, i, INDEX_LIMIT - 1);
      var product: u64 := i * (i + 1);
      var targetExp: u64 := product / 2;
      res := 1 % p;
      var curr: u64 := 0;
      while curr < targetExp
        invariant curr <= targetExp && res < p
        invariant res == Pow(q, curr) % p
      {
        CongSelf(Pow(q, curr), p);
        CongScale(res, Pow(q, curr), q, p);
        assert Pow(q, curr + 1) == q * Pow(q, curr) == Pow(q, curr) * q;
        res := MulMod64(res, q, p);
        curr := curr + 1;
      }
    }

    /** Streams of up to `k < 2^32` entries reach exactly the digest the specification gives. */
    method IngestTelemetryK(logs: seq<u64>, k: u64)
      requires |logs| <= k < INDEX_LIMIT
      requires p > 1 && q >= 1 && state == 0
      modifies this
      ensures state == Digest(Triangular, logs, q, p, 0) && state < p
    {
      for i := 0 to |logs|
        invariant state < p && state == Digest(Triangular, logs[..i], q, p, 0)
      {
        hide Digest, Pow, AddMod64, MulMod64;
        var weight := CalculateWeight(i);
        MultiplyAdd64(state, logs[i], weight, p);
        DigestExtend(Triangular, logs, i, q, p, 0);
        assert 0 + i == i;
        var term := MulMod64(logs[i], weight, p);
        state := AddMod64(state, term, p);
      }
      assert logs[..|logs|] == logs;
    }
  }

  /** The executable entry point: a fresh accumulator run over one stream. */
  method RunFromEmptyK(logs: seq<u64>, q: u64, p: u64, k: u64) returns (out: u64)
    requires |logs| <= k < INDEX_LIMIT
    requires p > 1 && q >= 1
    ensures out == Digest(Triangular, logs, q, p, 0) && out < p
  {
    var ks := new TriangularSentry(q, p);
    ks.IngestTelemetryK(logs, k);
    out := ks.state;
  }
}
