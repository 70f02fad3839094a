/** The rolling hash kept for comparison: linear exponents, so one scalar moves a digest. */
module Rolling {
  import opened Modular
  import opened Accumulator
  import opened Machine
  import opened Rebase

  /** The two numbers an update rewrites. */
  datatype State = State(acc: u128, weight: u128)

  /** One update of the two numbers, wrapping included. */
  function Next(st: State, x: u128, q: u128, p: u128): State
    requires p > 0
  {
    State(ModAdd(st.acc, ModMul(x % p, st.weight, p), p), ModMul(st.weight, q, p))
  }

  /** The two numbers after the entries `xs`, for any modulus. */
  function Fold(xs: seq<u128>, q: u128, p: u128): State
    requires p > 0
  {
    if xs == [] then State(0, 1)
    else Next(Fold(xs[..|xs| - 1], q, p), xs[|xs| - 1], q, p)
  }

  class RollingHash {
    const q: u128
    const p: u128
    var n: u64
    var acc: u128
    var weight: u128
    /** Everything ingested so far. */
    ghost var stream: seq<u128>

    ghost predicate Valid()
      reads this
    {
      && 1 < p && q < p && n == |stream| % TWO64
      && State(acc, weight) == Fold(stream, q, p)
    }

    constructor (q0: u128, modulus: u128)
      requires modulus > 1 && q0 > 0
      ensures Valid() && stream == []
      ensures q == q0 % modulus && p == modulus
    {
      q := q0 % modulus;
      p := modulus;
      n := 0;
      acc := 0;
      weight := 1;
      stream := [];
    }

    method Update(x: u128)
      requires Valid()
      modifies this
      ensures Valid() && stream == old(stream) + [x]
    {
      hide ModAdd, ModMul, NextPosition;
      assert (stream + [x])[..|stream|] == stream;
      var x' := x % p;
      acc := ModAdd(acc, ModMul(x', weight, p), p);
      weight := ModMul(weight, q, p);
      n := NextPosition(n, |stream|);
      stream := stream + [x];
    }
  }

  /** The two residues the specification asks for after the entries `xs`. */
  ghost predicate Tracks(xs: seq<u128>, q: u128, p: u128, st: State)
    requires p > 0
  {
    st.acc == Digest(Linear, xs, q, p, 0) && st.weight == Pow(q, |xs|) % p
  }

  lemma StepExact(xs: seq<u128>, x: u128, q: u128, p: u128, st: State)
    requires p > 1 && Exact(p) && Tracks(xs, q, p, st)
    ensures Tracks(xs + [x], q, p, Next(st, x, q, p))
  {
    var n := |xs|;
    var w := Pow(q, n);
    assert (xs + [x])[..n] == xs && 0 + n == n;
    MultiplyAddExact(st.acc, x, st.weight, p);
    CongSelf(w, p);
    CongScale(st.weight, w, q, p);
    assert Pow(q, n + 1) == q * w == w * q;
  }

  /** For exact moduli the fold holds the residues of the specification, after any stream. */
  lemma {:induction false} FoldTracks(xs: seq<u128>, q: u128, p: u128)
    requires p > 1 && Exact(p)
    ensures Tracks(xs, q, p, Fold(xs, q % p, p))
  {
    if xs == [] {
      SmallMod(1, p);
    } else {
      hide Tracks, Next, Exact;
      var i := |xs| - 1;
      FoldTracks(xs[..i], q, p);
      StepExact(xs[..i], xs[i], q, p, Fold(xs[..i], q % p, p));
      ReducedBase(Fold(xs[..i], q % p, p), xs[i], q, p);
      assert xs == xs[..i] + [xs[i]];
    }
  }

  lemma ReducedBase(st: State, x: u128, q: u128, p: u128)
    requires p > 1
    ensures Next(st, x, q % p, p) == Next(st, x, q, p)
  {
    CongSelf(q, p);
  }

  ghost predicate StreamingRight(p: u128)
    requires p > 1
  {
    forall xs: seq<u128>, q: u128 | q > 0 :: Fold(xs, q % p, p).acc == Digest(Linear, xs, q, p, 0)
  }

  /** The streamed rolling digest is right for every stream and base exactly for the exact moduli. */
  lemma StreamingRightIff(p: u128)
    requires p > 1
    ensures StreamingRight(p) <==> Exact(p)
  {
    hide Exact;
    if Exact(p) {
      forall xs: seq<u128>, q: u128 | q > 0
        ensures Fold(xs, q % p, p).acc == Digest(Linear, xs, q, p, 0)
      {
        FoldTracks(xs, q, p);
      }
    } else {
      var q, x := WrongProduct(p);
      var xs: seq<u128> := [0, x];
      StreamedSecondEntry(x, q, p);
      SecondEntryDigest(Linear, x, q, p);
      assert Fold(xs, q % p, p).acc != Digest(Linear, xs, q, p, 0);
    }
  }

  lemma StreamedSecondEntry(x: u128, q: u128, p: u128)
    requires p > 1 && 0 < q < p && x < p
    ensures Fold([0, x], q % p, p).acc == ModMul(x, q, p)
  {
    SmallMod(q, p);
    SmallMod(x, p);
    SmallMod(0, p);
    NeutralOperands(q, p);
    NeutralOperands(0, p);
    NeutralProduct(1, p);
    NeutralOperands(ModMul(x, q, p), p);
    hide ModMul, ModAdd;
    var one: seq<u128> := [0];
    assert one[..0] == [];
    assert Fold(one, q, p) == Next(State(0, 1), 0, q, p);
    assert [0, x][..1] == one;
  }

  method RollingHashOf(xs: seq<u128>, q: u128, p: u128) returns (st: RollingHash)
    requires p > 1 && q > 0
    ensures fresh(st) && st.Valid() && st.stream == xs && st.p == p && st.q == q % p
    ensures State(st.acc, st.weight) == Fold(xs, q % p, p)
    ensures Exact(p) ==> st.acc == Digest(Linear, xs, q, p, 0)
  {
    st := new RollingHash(q, p);
    for i := 0 to |xs|
      invariant fresh(st) && st.Valid() && st.stream == xs[..i]
      invariant st.p == p && st.q == q % p
    {
      st.Update(xs[i]);
      assert xs[..i + 1] == xs[..i] + [xs[i]];
    }
    assert xs[..|xs|] == xs;
    if Exact(p) {
      FoldTracks(xs, q, p);
    }
  }

  method RollingShiftedSpec(xs: seq<u128>, q: u128, p: u128, shift: u64) returns (acc: u128)
    requires xs == [] || p > 1
    requires |xs| <= TWO64
    ensures xs == [] ==> acc == 0
    ensures p > 1 ==> acc == SlowDigest(Linear, xs, q, p, shift)
    ensures p > 1 && Exact(p) ==> acc == Digest(Linear, xs, q, p, shift)
  {
    acc := 0;
    for i := 0 to |xs|
      invariant i == 0 ==> acc == 0
      invariant p > 1 ==> acc == SlowDigest(Linear, xs[..i], q, p, shift)
    {
      hide ModAdd, ModMul, WordPow;
      var w := ModPow(q, i + shift, p);
      assert xs[..i + 1][..i] == xs[..i] && shift + i == i + shift;
      acc := ModAdd(acc, ModMul(xs[i], w, p), p);
    }
    assert xs[..|xs|] == xs;
    if p > 1 && Exact(p) {
      SlowDigestExact(Linear, xs, q, p, shift);
    }
  }

  method RollingRebaseDigest(localDigest: u128, q: u128, p: u128, shift: u64) returns (r: u128)
    requires p > 1
    ensures r < p
    ensures Exact(p) ==> r == (localDigest * Pow(q, shift)) % p
  {
    var scalar := ModPow(q, shift, p);
    r := ModMul(localDigest, scalar, p);
    if Exact(p) {
      ReduceWeight(localDigest, Pow(q, shift), p);
    }
  }

  /** Multiplying the local digest by `q^s` gives the digest at position `s`, for every chunk and base. */
  lemma RollingRebase(xs: seq<nat>, q: int, p: int, s: nat)
    requires p > 0
    ensures (Digest(Linear, xs, q, p, 0) * Pow(q, s)) % p == Digest(Linear, xs, q, p, s)
  {
    LinearAlwaysRebases(|xs|, q, p, s);
    assert Rebases(Pow(q, s), Linear, |xs|, q, p, s);
    assert Digest(Linear, xs, q, p, 0) * Pow(q, s) == Pow(q, s) * Digest(Linear, xs, q, p, 0);
  }

  /** The streamed digest, rebased, always meets the recomputed shifted one. */
  method RebaseMeetsShiftedSpec(chunk: seq<u128>, q: u128, p: u128, shift: u64) returns (same: bool)
    requires p > 1 && q > 0 && |chunk| <= TWO64
    ensures Exact(p) ==> same
  {
    var st := RollingHashOf(chunk, q, p);
    var rebased := RollingRebaseDigest(st.acc, q, p, shift);
    var shifted := RollingShiftedSpec(chunk, q, p, shift);
    RollingRebase(chunk, q, p, shift);
    same := rebased == shifted;
  }
}
