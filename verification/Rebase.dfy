/** Can one scalar move the digest of a local chunk to a later position? */
module Rebase {
  import opened Modular
  import opened Accumulator

  /** The scalar `c` turns the local digest of every chunk of length `n` into its digest at position `s`. */
  ghost predicate Rebases(c: int, e: nat -> nat, n: nat, q: int, p: int, s: nat)
    requires p > 0
  {
    forall xs: seq<nat> :: |xs| == n ==> Digest(e, xs, q, p, s) == (c * Digest(e, xs, q, p, 0)) % p
  }

  /** The scalar `c` moves each of the first `n` weights. */
  ghost predicate MovesWeights(c: int, e: nat -> nat, n: nat, q: int, p: int, s: nat)
    requires p > 0
  {
    forall i :: 0 <= i < n ==> Cong(Pow(q, e(s + i)), c * Pow(q, e(i)), p)
  }

  lemma {:induction false} WeightedMoves(c: int, e: nat -> nat, xs: seq<int>, q: int, p: int, s: nat)
    requires p > 0 && MovesWeights(c, e, |xs|, q, p, s)
    ensures Cong(Weighted(e, xs, q, s), c * Weighted(e, xs, q, 0), p)
  {
    if xs != [] {
      var i := |xs| - 1;
      WeightedMoves(c, e, xs[..i], q, p, s);
      MoveTerm(c, xs[i], Pow(q, e(s + i)), Pow(q, e(i)), p);
      WeightedLast(e, xs, q, s);
      WeightedLast(e, xs, q, 0);
      assert 0 + i == i;
      hide Residue, Weighted, Pow;
      CongAdd(Weighted(e, xs[..i], q, s), c * Weighted(e, xs[..i], q, 0),
              xs[i] * Pow(q, e(s + i)), c * (xs[i] * Pow(q, e(i))), p);
      Distribute(c, Weighted(e, xs[..i], q, 0), xs[i] * Pow(q, e(i)), Weighted(e, xs, q, 0));
    }
  }

  lemma MoveTerm(c: int, x: int, w: int, w': int, p: int)
    requires p > 0 && Cong(w, c * w', p)
    ensures Cong(x * w, c * (x * w'), p)
  {
    CongScale(w, c * w', x, p);
    assert w * x == x * w && c * w' * x == c * (x * w');
  }

  lemma Distribute(c: int, a: int, b: int, z: int)
    requires z == a + b
    ensures c * a + c * b == c * z
  {
  }

  /** The chunk of length `n` that is one at position `i` and zero elsewhere. */
  ghost function OneHot(n: nat, i: nat): (xs: seq<nat>)
    requires i < n
    ensures |xs| == n
  {
    seq(n, j => if j == i then 1 else 0)
  }

  lemma WeightedOneHot(e: nat -> nat, n: nat, i: nat, q: int, s: nat)
    requires i < n
    ensures Weighted(e, OneHot(n, i), q, s) == Pow(q, e(s + i))
  {
    hide Weighted, Pow;
    var d := OneHot(n, i);
    WeightedSplit(e, d, i, i + 1, q, s);
    ZerosVanish(e, d[..i], q, s);
    ZerosVanish(e, d[i + 1..], q, s + (i + 1));
    assert d[i..i + 1] == [1];
    WeightedSingle(e, 1, q, s + i);
  }

  lemma {:induction false} ZerosVanish(e: nat -> nat, d: seq<int>, q: int, s: nat)
    requires forall i :: 0 <= i < |d| ==> d[i] == 0
    ensures Weighted(e, d, q, s) == 0
  {
    if d != [] {
      ZerosVanish(e, d[..|d| - 1], q, s);
    }
  }

  lemma ScaledDigest(c: int, e: nat -> nat, xs: seq<int>, q: int, p: int)
    requires p > 0
    ensures (c * Digest(e, xs, q, p, 0)) % p == (c * Weighted(e, xs, q, 0)) % p
  {
    var w := Weighted(e, xs, q, 0);
    DigestIsWeighted(e, xs, q, p, 0);
    CongSelf(w, p);
    CongMul(c, c, w % p, w, p);
  }

  /** A scalar rebases all chunks exactly when it moves every weight: one-hot chunks see each weight alone. */
  lemma RebasesIffMovesWeights(c: int, e: nat -> nat, n: nat, q: int, p: int, s: nat)
    requires p > 0
    ensures Rebases(c, e, n, q, p, s) <==> MovesWeights(c, e, n, q, p, s)
  {
    hide Weighted, Digest, Pow;
    if MovesWeights(c, e, n, q, p, s) {
      forall xs: seq<nat> | |xs| == n
        ensures Digest(e, xs, q, p, s) == (c * Digest(e, xs, q, p, 0)) % p
      {
        WeightedMoves(c, e, xs, q, p, s);
        DigestIsWeighted(e, xs, q, p, s);
        ScaledDigest(c, e, xs, q, p);
      }
    }
    if Rebases(c, e, n, q, p, s) {
      forall i | 0 <= i < n
        ensures Cong(Pow(q, e(s + i)), c * Pow(q, e(i)), p)
      {
        var xs := OneHot(n, i);
        assert Digest(e, xs, q, p, s) == (c * Digest(e, xs, q, p, 0)) % p;
        DigestIsWeighted(e, xs, q, p, s);
        ScaledDigest(c, e, xs, q, p);
        WeightedOneHot(e, n, i, q, s);
        WeightedOneHot(e, n, i, q, 0);
      }
    }
  }

  /** A linear schedule is always rebased, by `q^s`. */
  lemma LinearAlwaysRebases(n: nat, q: int, p: int, s: nat)
    requires p > 0
    ensures Rebases(Pow(q, s), Linear, n, q, p, s)
  {
    hide Residue, Pow, Digest, Rebases;
    forall i | 0 <= i < n
      ensures Cong(Pow(q, Linear(s + i)), Pow(q, s) * Pow(q, Linear(i)), p)
    {
      PowAdd(q, s, i);
    }
    RebasesIffMovesWeights(Pow(q, s), Linear, n, q, p, s);
  }

  lemma PowTriangularStep(q: int, i: nat)
    ensures Pow(q, Triangular(i + 1)) == Pow(q, Triangular(i)) * Pow(q, i + 1)
  {
    TriangularStep(i);
    PowAdd(q, Triangular(i), i + 1);
  }

  lemma MoveStep(a: int, b: int, c: int, r: int, g: int, p: int)
    requires p > 0 && Cong(a, b * c, p) && Cong(r, 1, p)
    ensures Cong(a * (r * g), b * (c * g), p)
  {
    CongScale(r, 1, g, p);
    CongMul(a, b * c, r * g, 1 * g, p);
    assert b * c * (1 * g) == b * (c * g);
  }

  /** When `q^s` is one, shifting the triangular schedule by `s` multiplies every weight by the first. */
  lemma {:induction false} TriangularMoves(i: nat, q: int, p: int, s: nat)
    requires p > 0 && Cong(Pow(q, s), 1, p)
    ensures Cong(Pow(q, Triangular(s + i)), Pow(q, Triangular(s)) * Pow(q, Triangular(i)), p)
  {
    if i != 0 {
      hide Residue, Pow, Triangular;
      var j := i - 1;
      TriangularMoves(j, q, p, s);
      PowTriangularStep(q, j);
      PowTriangularStep(q, s + j);
      assert s + j + 1 == s + i;
      PowAdd(q, s, i);
      MoveStep(Pow(q, Triangular(s + j)), Pow(q, Triangular(s)), Pow(q, Triangular(j)), Pow(q, s), Pow(q, i), p);
    }
  }

  /**
   * Anti-rebase: under an invertible base a single scalar rebases all triangular digests of
   * chunks of length `n` by `s` exactly when the chunks have at most one entry or
   * `q^s` is one; in the latter case `q^T(s)` does it for every length.
   */
  lemma TriangularRebaseExact(n: nat, q: int, p: int, s: nat)
    requires p > 0 && Invertible(q, p)
    ensures (exists c :: Rebases(c, Triangular, n, q, p, s)) <==> n < 2 || Cong(Pow(q, s), 1, p)
    ensures Cong(Pow(q, s), 1, p) ==> forall m: nat :: Rebases(Pow(q, Triangular(s)), Triangular, m, q, p, s)
  {
    if Cong(Pow(q, s), 1, p) {
      forall m: nat
        ensures Rebases(Pow(q, Triangular(s)), Triangular, m, q, p, s)
      {
        forall i | 0 <= i < m
          ensures Cong(Pow(q, Triangular(s + i)), Pow(q, Triangular(s)) * Pow(q, Triangular(i)), p)
        {
          TriangularMoves(i, q, p, s);
        }
        RebasesIffMovesWeights(Pow(q, Triangular(s)), Triangular, m, q, p, s);
      }
      assert Rebases(Pow(q, Triangular(s)), Triangular, n, q, p, s);
    } else if n < 2 {
      FirstWeights(q);
      assert s + 0 == s;
      RebasesIffMovesWeights(Pow(q, Triangular(s)), Triangular, n, q, p, s);
    } else if c :| Rebases(c, Triangular, n, q, p, s) {
      RebasesIffMovesWeights(c, Triangular, n, q, p, s);
      ScalarForcesOne(c, n, q, p, s);
    }
  }

  lemma ScalarForcesOne(c: int, n: nat, q: int, p: int, s: nat)
    requires p > 0 && Invertible(q, p) && n >= 2 && MovesWeights(c, Triangular, n, q, p, s)
    ensures Cong(Pow(q, s), 1, p)
  {
    FirstWeights(q);
    hide Residue, Pow, Triangular;
    assert Cong(Pow(q, Triangular(s + 0)), c * Pow(q, Triangular(0)), p);
    assert Cong(Pow(q, Triangular(s + 1)), c * Pow(q, Triangular(1)), p);
    assert s + 0 == s;
    PowTriangularStep(q, s);
    PowAdd(q, s, 1);
    InvertiblePow(q, Triangular(s), p);
    CancelWeights(Pow(q, Triangular(s)), Pow(q, s), q, c, p);
  }

  lemma FirstWeights(q: int)
    ensures Pow(q, Triangular(0)) == 1 && Pow(q, Triangular(1)) == q == Pow(q, 1)
  {
    assert Pow(q, 1) == q * Pow(q, 0);
  }

  lemma CancelWeights(t: int, r: int, q: int, c: int, p: int)
    requires p > 0 && Invertible(t, p) && Invertible(q, p)
    requires Cong(t, c, p) && Cong(t * (r * q), c * q, p)
    ensures Cong(r, 1, p)
  {
    CongScale(t, c, q, p);
    InvertibleMul(t, q, p);
    assert t * (r * q) == (t * q) * r && t * q == (t * q) * 1;
    CancelInvertible(t * q, r, 1, p);
  }

  // ----- without a modulus: only affine exponents can be rebased

  /** The schedule a finite list of exponents describes. */
  function Listed(phi: seq<nat>): nat -> nat {
    (i: nat) => if i < |phi| then phi[i] else 0
  }

  /**
   * Before reduction: the rational scalar `c / d` moves the sum of every chunk
   * that fits behind position `s` from the front of the list to that position.
   */
  ghost predicate RebasesSums(c: int, d: int, phi: seq<nat>, q: int, s: nat)
    requires s <= |phi|
  {
    d > 0 && forall xs: seq<nat> :: |xs| == |phi| - s ==>
      d * Weighted(Listed(phi), xs, q, s) == c * Weighted(Listed(phi), xs, q, 0)
  }

  ghost predicate RebasableAt(phi: seq<nat>, q: int, s: nat)
    requires s <= |phi|
  {
    exists c, d :: RebasesSums(c, d, phi, q, s)
  }

  ghost predicate AffineWith(phi: seq<nat>, a: int, b: int) {
    forall i :: 0 <= i < |phi| ==> phi[i] == a * i + b
  }

  /** Unreduced sums can be rebased to every position of the list exactly when its exponents are affine. */
  lemma RebasableIffAffine(phi: seq<nat>, q: int)
    requires q >= 2 && |phi| >= 2
    ensures (forall s :: 1 <= s < |phi| ==> RebasableAt(phi, q, s)) <==> exists a, b :: AffineWith(phi, a, b)
  {
    if forall s :: 1 <= s < |phi| ==> RebasableAt(phi, q, s) {
      assert RebasableAt(phi, q, 1);
      var c, d :| RebasesSums(c, d, phi, q, 1);
      forall i | 0 <= i < |phi|
        ensures phi[i] == (phi[1] - phi[0]) * i + phi[0]
      {
        EqualGapsAffine(c, d, phi, q, i);
      }
      var slope: int := phi[1] as int - phi[0];
      assert AffineWith(phi, slope, phi[0]);
    }
    if a, b :| AffineWith(phi, a, b) {
      forall s | 1 <= s < |phi|
        ensures RebasableAt(phi, q, s)
      {
        AffineRebases(phi, a, b, q, s);
      }
    }
  }

  lemma {:induction false} EqualGapsAffine(c: int, d: int, phi: seq<nat>, q: int, i: nat)
    requires q >= 2 && i < |phi| && |phi| >= 2 && RebasesSums(c, d, phi, q, 1)
    ensures phi[i] == (phi[1] - phi[0]) * i + phi[0]
  {
    if i != 0 {
      EqualGapsAffine(c, d, phi, q, i - 1);
      EqualGaps(c, d, phi, q, i - 1);
    }
  }

  /** A scalar for position one forces all neighbouring gaps to be the first gap. */
  lemma EqualGaps(c: int, d: int, phi: seq<nat>, q: int, i: nat)
    requires q >= 2 && i + 1 < |phi| && RebasesSums(c, d, phi, q, 1)
    ensures phi[i + 1] + phi[0] == phi[i] + phi[1]
  {
    var e, n := Listed(phi), |phi| - 1;
    assert e(0) == phi[0] && e(1) == phi[1] && e(i) == phi[i] && e(1 + i) == phi[i + 1];
    hide Weighted, Pow, Listed;
    assert d * Weighted(e, OneHot(n, 0), q, 1) == c * Weighted(e, OneHot(n, 0), q, 0);
    assert d * Weighted(e, OneHot(n, i), q, 1) == c * Weighted(e, OneHot(n, i), q, 0);
    WeightedOneHot(e, n, 0, q, 1);
    WeightedOneHot(e, n, 0, q, 0);
    WeightedOneHot(e, n, i, q, 1);
    WeightedOneHot(e, n, i, q, 0);
    PowAdd(q, phi[i + 1], phi[0]);
    PowAdd(q, phi[i], phi[1]);
    PowPositive(q, phi[0]);
    PowPositive(q, phi[1]);
    CrossMultiply(c, d, Pow(q, phi[0]), Pow(q, phi[1]), Pow(q, phi[i]), Pow(q, phi[i + 1]));
    PowInjective(q, phi[i + 1] + phi[0], phi[i] + phi[1]);
  }

  lemma CrossMultiply(c: int, d: int, u0: int, u1: int, v0: int, v1: int)
    requires d > 0 && u1 > 0 && d * u1 == c * u0 && d * v1 == c * v0
    ensures v1 * u0 == v0 * u1
  {
    assert (d * v1) * u0 == (c * v0) * u0 == (c * u0) * v0 == (d * u1) * v0;
    assert d * (v1 * u0) == d * (v0 * u1) by {
      assert d * (v1 * u0) == (d * v1) * u0 && d * (v0 * u1) == (d * u1) * v0;
    }
    CancelPositive(d, v1 * u0, v0 * u1);
  }

  lemma CancelPositive(d: int, x: int, y: int)
    requires d > 0 && d * x == d * y
    ensures x == y
  {
  }

  lemma PowInjective(q: int, x: nat, y: nat)
    requires q >= 2 && Pow(q, x) == Pow(q, y)
    ensures x == y
  {
    if x < y {
      PowStrict(q, x, y);
    } else if y < x {
      PowStrict(q, y, x);
    }
  }

  lemma PowStrict(q: int, x: nat, y: nat)
    requires q >= 2 && x < y
    ensures Pow(q, x) < Pow(q, y)
  {
    PowMono(q, x + 1, y);
    PowPositive(q, x);
    MulMono(Pow(q, x), 2, q);
  }

  /** The scalar for slope `a` is `q^(a s)`, or one over `q^(-a s)` when the exponents fall. */
  lemma AffineRebases(phi: seq<nat>, a: int, b: int, q: int, s: nat)
    requires q >= 2 && 1 <= s < |phi| && AffineWith(phi, a, b)
    ensures RebasableAt(phi, q, s)
  {
    var up: nat, down: nat := if a >= 0 then a else 0, if a < 0 then -a else 0;
    var c, d := Pow(q, up * s), Pow(q, down * s);
    PowPositive(q, down * s);
    forall i | 0 <= i < |phi| - s
      ensures d * Pow(q, Listed(phi)(s + i)) == c * Pow(q, Listed(phi)(i))
    {
      AffineShift(phi, a, b, s, i);
      PowAdd(q, down * s, phi[s + i]);
      PowAdd(q, up * s, phi[i]);
    }
    forall xs: seq<nat> | |xs| == |phi| - s
      ensures d * Weighted(Listed(phi), xs, q, s) == c * Weighted(Listed(phi), xs, q, 0)
    {
      ScaledSum(c, d, Listed(phi), xs, q, s);
    }
    assert RebasesSums(c, d, phi, q, s);
  }

  lemma AffineShift(phi: seq<nat>, a: int, b: int, s: nat, i: nat)
    requires s + i < |phi| && AffineWith(phi, a, b)
    ensures (if a < 0 then -a else 0) * s + phi[s + i] == (if a >= 0 then a else 0) * s + phi[i]
  {
    assert phi[s + i] == a * (s + i) + b && phi[i] == a * i + b;
    assert a * (s + i) == a * s + a * i;
  }

  /** A scalar that moves every weight moves every sum. */
  lemma {:induction false} ScaledSum(c: int, d: int, e: nat -> nat, xs: seq<int>, q: int, s: nat)
    requires forall i :: 0 <= i < |xs| ==> d * Pow(q, e(s + i)) == c * Pow(q, e(i))
    ensures d * Weighted(e, xs, q, s) == c * Weighted(e, xs, q, 0)
  {
    if xs != [] {
      var i := |xs| - 1;
      ScaledSum(c, d, e, xs[..i], q, s);
      WeightedLast(e, xs, q, s);
      WeightedLast(e, xs, q, 0);
      assert 0 + i == i;
      hide Weighted, Pow;
      SwapFactors(xs[i], d, Pow(q, e(s + i)));
      SwapFactors(xs[i], c, Pow(q, e(i)));
      Distribute(d, Weighted(e, xs[..i], q, s), xs[i] * Pow(q, e(s + i)), Weighted(e, xs, q, s));
      Distribute(c, Weighted(e, xs[..i], q, 0), xs[i] * Pow(q, e(i)), Weighted(e, xs, q, 0));
    }
  }

  lemma SwapFactors(x: int, c: int, w: int)
    ensures x * (c * w) == c * (x * w)
  {
  }
}
