/** The streaming digest with triangular exponents, its slow form, and the shifted form. */
module KSentry {
  import opened Modular
  import opened Accumulator
  import opened Machine

  /** The exponent of a 64-bit position always fits 128 bits. */
  function TriangularExp(i: u64): (t: u128)
    ensures t == Triangular(i)
  {
    ExponentFits(i);
    var product: u128 := i * (i + 1);
    product / 2
  }

  lemma ExponentFits(i: u64)
    ensures 0 <= i * (i + 1) < TWO128
  {
    MulMono(i, i + 1, TWO64);
    MulMono(TWO64, i, TWO64 - 1);
  }

  /** The three numbers an update rewrites. */
  datatype State = State(acc: u128, weight: u128, step: u128)

  /** One update of the three numbers, wrapping included. */
  function Next(st: State, x: u128, q: u128, p: u128): State
    requires p > 0
  {
    State(ModAdd(st.acc, ModMul(x % p, st.weight, p), p), ModMul(st.weight, st.step, p), ModMul(st.step, q, p))
  }

  /** The three numbers after the entries `xs`, for any modulus. */
  function Fold(xs: seq<u128>, q: u128, p: u128): State
    requires p > 0
  {
    if xs == [] then State(0, 1, q)
    else Next(Fold(xs[..|xs| - 1], q, p), xs[|xs| - 1], q, p)
  }

  /** Accumulator updated in constant time per entry. */
  class KSentry {
    const q: u128
    const p: u128
    var n: u64
    var acc: u128
    var weight: u128
    var step: u128
    /** Everything ingested so far. */
    ghost var stream: seq<u128>

    /** For every modulus the fields are the fold of the stream; what that means for exact ones is `FoldTracks`. */
    ghost predicate Valid()
      reads this
    {
      && 1 < p && q < p && n == |stream| % TWO64
      && State(acc, weight, step) == Fold(stream, q, p)
    }

    constructor (q0: u128, modulus: u128)
      requires modulus > 1 && q0 > 0
      ensures Valid() && stream == []
      ensures q == q0 % modulus && p == modulus
    {
      q := q0 % modulus;
      p := modulus;
      n := 0;
      acc := 0;
      weight := 1;
      step := q0 % modulus;
      stream := [];
    }

    method Update(x: u128)
      requires Valid()
      modifies this
      ensures Valid() && stream == old(stream) + [x]
    {
      hide ModAdd, ModMul, NextPosition;
      assert (stream + [x])[..|stream|] == stream;
      var x' := x % p;
      acc := ModAdd(acc, ModMul(x', weight, p), p);
      weight := ModMul(weight, step, p);
      step := ModMul(step, q, p);
      n := NextPosition(n, |stream|);
      stream := stream + [x];
    }
  }

  /** The three residues the specification asks for after the entries `xs`. */
  ghost predicate Tracks(xs: seq<u128>, q: u128, p: u128, st: State)
    requires p > 0
  {
    && st.acc == Digest(Triangular, xs, q, p, 0)
    && st.weight == Pow(q, Triangular(|xs|)) % p
    && st.step == Pow(q, |xs| + 1) % p
  }

  /** One update carries the three residues from a stream to the stream with one more entry. */
  lemma StepExact(xs: seq<u128>, x: u128, q: u128, p: u128, st: State)
    requires p > 1 && Exact(p)
    requires Tracks(xs, q, p, st)
    ensures Tracks(xs + [x], q, p, Next(st, x, q, p))
  {
    var n := |xs|;
    assert (xs + [x])[..n] == xs && 0 + n == n;
    MultiplyAddExact(st.acc, x, st.weight, p);
    TriangularStep(n);
    PowAdd(q, Triangular(n), n + 1);
    ReduceFactors(Pow(q, Triangular(n)), Pow(q, n + 1), p);
    CongSelf(Pow(q, n + 1), p);
    CongScale(st.step, Pow(q, n + 1), q, p);
    assert Pow(q, n + 2) == q * Pow(q, n + 1) == Pow(q, n + 1) * q;
  }

  /** For exact moduli the fold holds the residues of the specification, after any stream. */
  lemma {:induction false} FoldTracks(xs: seq<u128>, q: u128, p: u128)
    requires p > 1 && Exact(p)
    ensures Tracks(xs, q, p, Fold(xs, q % p, p))
  {
    if xs == [] {
      SmallMod(1, p);
      assert Pow(q, 1) == q * Pow(q, 0) == q;
    } else {
      hide Tracks, Next, Exact;
      var i := |xs| - 1;
      FoldTracks(xs[..i], q, p);
      StepExact(xs[..i], xs[i], q, p, Fold(xs[..i], q % p, p));
      ReducedBase(Fold(xs[..i], q % p, p), xs[i], q, p);
      assert xs == xs[..i] + [xs[i]];
    }
  }

  lemma ReducedBase(st: State, x: u128, q: u128, p: u128)
    requires p > 1
    ensures Next(st, x, q % p, p) == Next(st, x, q, p)
  {
    CongSelf(q, p);
  }

  ghost predicate StreamingRight(p: u128)
    requires p > 1
  {
    forall xs: seq<u128>, q: u128 | q > 0 :: Fold(xs, q % p, p).acc == Digest(Triangular, xs, q, p, 0)
  }

  /** The streamed digest is the specification for every stream and base exactly for the exact moduli. */
  lemma StreamingRightIff(p: u128)
    requires p > 1
    ensures StreamingRight(p) <==> Exact(p)
  {
    hide Exact;
    if Exact(p) {
      forall xs: seq<u128>, q: u128 | q > 0
        ensures Fold(xs, q % p, p).acc == Digest(Triangular, xs, q, p, 0)
      {
        FoldTracks(xs, q, p);
      }
    } else {
      var q, x := WrongProduct(p);
      var xs: seq<u128> := [0, x];
      assert Triangular(1) == 1;
      StreamedSecondEntry(x, q, p);
      SecondEntryDigest(Triangular, x, q, p);
      assert Fold(xs, q % p, p).acc != Digest(Triangular, xs, q, p, 0);
    }
  }

  lemma StreamedSecondEntry(x: u128, q: u128, p: u128)
    requires p > 1 && 0 < q < p && x < p
    ensures Fold([0, x], q % p, p).acc == ModMul(x, q, p)
  {
    SmallMod(q, p);
    SmallMod(x, p);
    SmallMod(0, p);
    NeutralOperands(q, p);
    NeutralOperands(0, p);
    NeutralProduct(1, p);
    NeutralOperands(ModMul(x, q, p), p);
    hide ModMul, ModAdd;
    var one: seq<u128> := [0];
    assert one[..0] == [];
    assert Fold(one, q, p) == Next(State(0, 1, q), 0, q, p);
    assert [0, x][..1] == one;
  }

  /** The fast digest of a whole stream. */
  method KSentryFast(xs: seq<u128>, q: u128, p: u128) returns (st: KSentry)
    requires p > 1 && q > 0
    ensures fresh(st) && st.Valid() && st.stream == xs && st.p == p && st.q == q % p
    ensures State(st.acc, st.weight, st.step) == Fold(xs, q % p, p)
    ensures Exact(p) ==> Tracks(xs, q, p, State(st.acc, st.weight, st.step))
  {
    st := new KSentry(q, p);
    for i := 0 to |xs|
      invariant fresh(st) && st.Valid() && st.stream == xs[..i]
      invariant st.p == p && st.q == q % p
    {
      st.Update(xs[i]);
      assert xs[..i + 1] == xs[..i] + [xs[i]];
    }
    assert xs[..|xs|] == xs;
    if Exact(p) {
      FoldTracks(xs, q, p);
    }
  }

  /** The exponents of positions that wrap at 64 bits. */
  function WrappedTriangular(j: nat): nat {
    Triangular(j % TWO64)
  }

  lemma {:induction false} SchedulesAgree(e: nat -> nat, f: nat -> nat, xs: seq<u128>, q: u128, p: u128, s: nat)
    requires p > 1 && forall j: nat :: s <= j < s + |xs| ==> e(j) == f(j)
    ensures SlowDigest(e, xs, q, p, s) == SlowDigest(f, xs, q, p, s)
    decreases |xs|
  {
    if xs != [] {
      hide ModAdd, ModMul, WordPow;
      SchedulesAgree(e, f, xs[..|xs| - 1], q, p, s);
    }
  }

  /** While positions stay within 64 bits, the wrapped schedule is the triangular one. */
  lemma NoWrap(xs: seq<u128>, q: u128, p: u128, s: nat)
    requires p > 1 && |xs| + s <= TWO64
    ensures SlowDigest(WrappedTriangular, xs, q, p, s) == SlowDigest(Triangular, xs, q, p, s)
  {
    forall j: nat | s <= j < s + |xs|
      ensures WrappedTriangular(j) == Triangular(j)
    {
      SmallMod(j, TWO64);
    }
    SchedulesAgree(WrappedTriangular, Triangular, xs, q, p, s);
  }

  /** A stream whose positions pass `2^64` goes on as if it started again at position zero. */
  lemma WrapRestarts(xs: seq<nat>, q: nat, p: nat, s: nat)
    requires p > 0 && s < TWO64 < s + |xs| <= TWO64 + TWO64
    ensures var left := TWO64 - s;
      Digest(WrappedTriangular, xs, q, p, s)
      == (Digest(Triangular, xs[..left], q, p, s) + Digest(Triangular, xs[left..], q, p, 0)) % p
  {
    hide Digest, Triangular, WrappedTriangular;
    var left := TWO64 - s;
    var front, back := xs[..left], xs[left..];
    assert xs == front + back;
    Composition(WrappedTriangular, front, back, q, p, s);
    forall j: nat | j < TWO64
      ensures WrappedTriangular(j) == Triangular(j) && WrappedTriangular(TWO64 + j) == Triangular(j)
    {
      WrapAt(j);
    }
    SameDigest(WrappedTriangular, s, Triangular, s, front, q, p);
    forall j: nat, k: nat | TWO64 <= j < TWO64 + |back| && k == j - TWO64 + 0
      ensures WrappedTriangular(j) == Triangular(k)
    {
      WrapAt(k);
    }
    SameDigest(WrappedTriangular, TWO64, Triangular, 0, back, q, p);
  }

  lemma WrapAt(j: nat)
    requires j < TWO64
    ensures WrappedTriangular(j) == Triangular(j) && WrappedTriangular(TWO64 + j) == Triangular(j)
  {
    SmallMod(j, TWO64);
    DivModUnique(TWO64 + j, 1, j, TWO64);
  }

  /** Schedules that agree where the entries sit give one digest. */
  lemma {:induction false} SameDigest(e: nat -> nat, s: nat, f: nat -> nat, t: nat, xs: seq<nat>, q: nat, p: nat)
    requires p > 0 && forall j: nat, k: nat :: s <= j < s + |xs| && k == j - s + t ==> e(j) == f(k)
    ensures Digest(e, xs, q, p, s) == Digest(f, xs, q, p, t)
    decreases |xs|
  {
    if xs != [] {
      hide Pow;
      var i := |xs| - 1;
      SameDigest(e, s, f, t, xs[..i], q, p);
      assert e(s + i) == f(t + i);
    }
  }

  /** The slow digest at a shift: every weight is computed afresh, at a position that wraps at 64 bits. */
  method KSentryShiftedSpec(xs: seq<u128>, q: u128, p: u128, shift: u64) returns (acc: u128)
    requires xs == [] || p > 1
    ensures xs == [] ==> acc == 0
    ensures p > 1 ==> acc == SlowDigest(WrappedTriangular, xs, q, p, shift)
    ensures p > 1 && Exact(p) ==> acc == Digest(WrappedTriangular, xs, q, p, shift)
    ensures p > 1 && |xs| + shift <= TWO64 ==> acc == SlowDigest(Triangular, xs, q, p, shift)
    ensures p > 1 && |xs| + shift <= TWO64 && Exact(p) ==> acc == Digest(Triangular, xs, q, p, shift)
  {
    acc := 0;
    for i := 0 to |xs|
      invariant i == 0 ==> acc == 0
      invariant p > 1 ==> acc == SlowDigest(WrappedTriangular, xs[..i], q, p, shift)
    {
      hide ModAdd, ModMul, WordPow;
      var position: u64 := (i + shift) % TWO64;
      var t := TriangularExp(position);
      var w := ModPow(q, t, p);
      assert xs[..i + 1][..i] == xs[..i] && shift + i == i + shift;
      acc := ModAdd(acc, ModMul(xs[i], w, p), p);
    }
    assert xs[..|xs|] == xs;
    if p > 1 && Exact(p) {
      SlowDigestExact(WrappedTriangular, xs, q, p, shift);
      SlowDigestExact(Triangular, xs, q, p, shift);
    }
    if p > 1 && |xs| + shift <= TWO64 {
      NoWrap(xs, q, p, shift);
    }
  }

  /** The slow digest used as the reference for the fast one. */
  method KSentrySpec(xs: seq<u128>, q: u128, p: u128) returns (acc: u128)
    requires xs == [] || p > 1
    requires |xs| <= TWO64
    ensures xs == [] ==> acc == 0
    ensures p > 1 ==> acc == SlowDigest(Triangular, xs, q, p, 0)
    ensures p > 1 && Exact(p) ==> acc == Digest(Triangular, xs, q, p, 0)
  {
    acc := 0;
    for i := 0 to |xs|
      invariant i == 0 ==> acc == 0
      invariant p > 1 ==> acc == SlowDigest(Triangular, xs[..i], q, p, 0)
    {
      hide ModAdd, ModMul, WordPow;
      var t := TriangularExp(i);
      var w := ModPow(q, t, p);
      assert xs[..i + 1][..i] == xs[..i] && 0 + i == i;
      acc := ModAdd(acc, ModMul(xs[i], w, p), p);
    }
    assert xs[..|xs|] == xs;
    if p > 1 && Exact(p) {
      SlowDigestExact(Triangular, xs, q, p, 0);
    }
  }

  /** The fast and the slow digest always agree. */
  method FastMatchesSpec(xs: seq<u128>, q: u128, p: u128) returns (same: bool)
    requires p > 1 && q > 0 && |xs| <= TWO64
    ensures Exact(p) ==> same
  {
    var fast := KSentryFast(xs, q, p);
    var slow := KSentrySpec(xs, q, p);
    same := fast.acc == slow;
  }
}
