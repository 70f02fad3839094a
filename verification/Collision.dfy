/** How many bases make two different traces collide. */
module Collision {
  import opened Modular
  import opened Polynomial
  import opened Accumulator

  /** Number of bases below `k` for which the two traces have the same digest. */
  ghost function CountBad(e: nat -> nat, w: seq<int>, w2: seq<int>, p: int, k: nat): nat
    requires p > 0
  {
    if k == 0 then 0
    else CountBad(e, w, w2, p, k - 1)
         + if Digest(e, w, k - 1, p, 0) == Digest(e, w2, k - 1, p, 0) then 1 else 0
  }

  /** The bases from `lo` to `hi`, `hi` excluded, for which the two chunks at position `s` collide. */
  ghost function BadBases(e: nat -> nat, w: seq<int>, w2: seq<int>, p: int, s: nat, lo: nat, hi: nat): set<int>
    requires p > 0
  {
    set q | lo <= q < hi && Digest(e, w, q, p, s) == Digest(e, w2, q, p, s)
  }

  lemma {:induction false} CountIsCardinality(e: nat -> nat, w: seq<int>, w2: seq<int>, p: int, k: nat)
    requires p > 0
    ensures CountBad(e, w, w2, p, k) == |BadBases(e, w, w2, p, 0, 0, k)|
  {
    hide Digest, BadBases;
    if k == 0 {
      NoBadBases(e, w, w2, p);
    } else {
      CountIsCardinality(e, w, w2, p, k - 1);
      OneMoreBase(e, w, w2, p, k - 1);
    }
  }

  lemma NoBadBases(e: nat -> nat, w: seq<int>, w2: seq<int>, p: int)
    requires p > 0
    ensures BadBases(e, w, w2, p, 0, 0, 0) == {}
  {
    hide Digest;
  }

  lemma OneMoreBase(e: nat -> nat, w: seq<int>, w2: seq<int>, p: int, k: nat)
    requires p > 0
    ensures |BadBases(e, w, w2, p, 0, 0, k + 1)| == |BadBases(e, w, w2, p, 0, 0, k)|
      + if Digest(e, w, k, p, 0) == Digest(e, w2, k, p, 0) then 1 else 0
  {
    hide Digest;
    var b := BadBases(e, w, w2, p, 0, 0, k);
    assert k !in b;
    if Digest(e, w, k, p, 0) == Digest(e, w2, k, p, 0) {
      assert BadBases(e, w, w2, p, 0, 0, k + 1) == b + {k};
    } else {
      assert BadBases(e, w, w2, p, 0, 0, k + 1) == b;
    }
  }

  // ----- from weighted sums to polynomials

  /** Coefficients of the weighted sum divided by its lowest power of the base. */
  ghost function Dense(e: nat -> nat, d: seq<int>, s: nat): (c: seq<int>)
    requires d != [] && StrictlyIncreasing(e)
    ensures |c| == e(s + |d| - 1) - e(s) + 1
    ensures c[0] == d[0] && c[|c| - 1] == d[|d| - 1]
  {
    var n := |d| - 1;
    if n == 0 then [d[0]]
    else
      assert e(s + n - 1) < e(s + n);
      Dense(e, d[..n], s) + Zeros(e(s + n) - e(s + n - 1) - 1) + [d[n]]
  }

  lemma DenseStep(e: nat -> nat, d: seq<int>, q: int, s: nat)
    requires |d| > 1 && StrictlyIncreasing(e)
    ensures var n := |d| - 1;
      e(s) <= e(s + n) && Eval(Dense(e, d, s), q) == Eval(Dense(e, d[..n], s), q) + d[n] * Pow(q, e(s + n) - e(s))
  {
    var n := |d| - 1;
    assert e(s + n - 1) < e(s + n);
    var c, k := Dense(e, d[..n], s), e(s + n) - e(s + n - 1) - 1;
    assert |c| + k == e(s + n) - e(s);
    EvalAppend(c, k, d[n], q);
  }

  lemma {:induction false} WeightedIsEval(e: nat -> nat, d: seq<int>, q: int, s: nat)
    requires d != [] && StrictlyIncreasing(e)
    ensures Weighted(e, d, q, s) == Pow(q, e(s)) * Eval(Dense(e, d, s), q)
  {
    var n := |d| - 1;
    if n == 0 {
      assert d == [d[0]];
      WeightedSingle(e, d[0], q, s);
      EvalSingle(d[0], q);
    } else {
      hide Pow, Eval, Dense, Weighted;
      WeightedLast(e, d, q, s);
      WeightedIsEval(e, d[..n], q, s);
      DenseStep(e, d, q, s);
      PowFactor(q, e(s), e(s + n), Eval(Dense(e, d[..n], s), q), d[n], Eval(Dense(e, d, s), q));
    }
  }

  lemma EvalAppend(c: seq<int>, k: nat, x: int, q: int)
    ensures Eval(c + Zeros(k) + [x], q) == Eval(c, q) + x * Pow(q, |c| + k)
  {
    EvalConcat(c + Zeros(k), [x], q);
    EvalConcat(c, Zeros(k), q);
    EvalZeros(k, q);
    EvalSingle(x, q);
  }

  // ----- the root bound

  lemma PowInvertible(q: int, g: nat, p: int)
    requires Prime(p) && 0 <= q < p && (q != 0 || g == 0)
    ensures !Cong(Pow(q, g), 0, p)
  {
    if g == 0 {
      SmallMod(1, p);
    } else {
      SmallMod(q, p);
      CongZero(q, p);
      PowNonzero(q, g, p);
    }
  }

  /** A nonzero base that makes the traces collide is a root of the polynomial of the differing window. */
  lemma BadBaseIsRoot(e: nat -> nat, w: seq<int>, w2: seq<int>, p: int, s: nat, a: nat, b: nat, q: int)
    requires Prime(p) && StrictlyIncreasing(e) && a <= b < |w| == |w2|
    requires AgreeMod(w, w2, p, 0, a) && AgreeMod(w, w2, p, b + 1, |w|)
    requires q in BadBases(e, w, w2, p, s, 0, p)
    requires e(s + a) == 0 || q != 0
    ensures q in Roots(Dense(e, Diff(w, w2)[a..b + 1], s + a), p)
  {
    hide Residue, Weighted, Digest, Pow, Eval, Dense;
    var d := Diff(w, w2)[a..b + 1];
    DigestDiff(e, w, w2, q, p, s);
    WindowDiff(e, w, w2, a, b + 1, q, p, s);
    WeightedIsEval(e, d, q, s + a);
    PowInvertible(q, e(s + a), p);
    Euclid(Pow(q, e(s + a)), Eval(Dense(e, d, s + a), q), p);
  }

  /**
   * Over a prime, two traces whose differing entries lie between positions `a`
   * and `b` collide for at most `e(b) - e(a)` nonzero bases.
   */
  lemma NonzeroBadBound(e: nat -> nat, w: seq<int>, w2: seq<int>, p: int, s: nat, a: nat, b: nat)
    requires Prime(p) && StrictlyIncreasing(e) && a <= b < |w| == |w2|
    requires AgreeMod(w, w2, p, 0, a) && AgreeMod(w, w2, p, b + 1, |w|)
    requires !Cong(w[b], w2[b], p)
    ensures |BadBases(e, w, w2, p, s, 1, p)| <= e(s + b) - e(s + a)
  {
    hide Residue, Weighted, Digest, Pow;
    var d := Diff(w, w2)[a..b + 1];
    var c := Dense(e, d, s + a);
    assert s + a + |d| - 1 == s + b;
    CongFromDiff(w[b], w2[b], p);
    RootBound(c, p);
    forall q | q in BadBases(e, w, w2, p, s, 1, p)
      ensures q in Roots(c, p)
    {
      BadBaseIsRoot(e, w, w2, p, s, a, b, q);
    }
    SubsetSize(BadBases(e, w, w2, p, s, 1, p), Roots(c, p));
  }

  /** Counting the base zero as well, at most `e(b)` bases are bad when `a` and `b` do differ. */
  lemma BadBound(e: nat -> nat, w: seq<int>, w2: seq<int>, p: int, s: nat, a: nat, b: nat)
    requires Prime(p) && StrictlyIncreasing(e) && a <= b < |w| == |w2|
    requires AgreeMod(w, w2, p, 0, a) && AgreeMod(w, w2, p, b + 1, |w|)
    requires !Cong(w[a], w2[a], p) && !Cong(w[b], w2[b], p)
    ensures |BadBases(e, w, w2, p, s, 0, p)| <= e(s + b)
  {
    hide Residue, Digest, BadBases;
    NonzeroBadBound(e, w, w2, p, s, a, b);
    ZeroBase(e, w, w2, p, s);
    if e(s + a) == 0 {
      ZeroIsGood(e, w, w2, p, s, a, b);
    }
  }

  /** The base zero adds at most itself to the nonzero bad bases. */
  lemma ZeroBase(e: nat -> nat, w: seq<int>, w2: seq<int>, p: int, s: nat)
    requires p > 0
    ensures |BadBases(e, w, w2, p, s, 0, p)|
      == |BadBases(e, w, w2, p, s, 1, p)| + if 0 in BadBases(e, w, w2, p, s, 0, p) then 1 else 0
  {
    hide Digest;
    var all, nonzero := BadBases(e, w, w2, p, s, 0, p), BadBases(e, w, w2, p, s, 1, p);
    assert 0 !in nonzero;
    if 0 in all {
      assert all == nonzero + {0};
    } else {
      assert all == nonzero;
    }
  }

  /** The base zero sees a difference at the position whose exponent is zero. */
  lemma ZeroIsGood(e: nat -> nat, w: seq<int>, w2: seq<int>, p: int, s: nat, a: nat, b: nat)
    requires Prime(p) && StrictlyIncreasing(e) && a <= b < |w| == |w2|
    requires AgreeMod(w, w2, p, 0, a) && AgreeMod(w, w2, p, b + 1, |w|)
    requires !Cong(w[a], w2[a], p) && e(s + a) == 0
    ensures 0 !in BadBases(e, w, w2, p, s, 0, p)
  {
    hide Residue, Digest, BadBases, Eval, Dense;
    if 0 in BadBases(e, w, w2, p, s, 0, p) {
      BadBaseIsRoot(e, w, w2, p, s, a, b, 0);
      EvalAtZero(Dense(e, Diff(w, w2)[a..b + 1], s + a));
      CongFromDiff(w[a], w2[a], p);
    }
  }

  lemma EvalAtZero(c: seq<int>)
    requires c != []
    ensures Eval(c, 0) == c[0]
  {
  }

  /** First and last position at which two traces differ modulo `p`. */
  lemma DifferingEnds(w: seq<int>, w2: seq<int>, p: int) returns (a: nat, b: nat)
    requires p > 0 && |w| == |w2| && !AgreeMod(w, w2, p, 0, |w|)
    ensures a <= b < |w| && AgreeMod(w, w2, p, 0, a) && AgreeMod(w, w2, p, b + 1, |w|)
    ensures !Cong(w[a], w2[a], p) && !Cong(w[b], w2[b], p)
  {
    a := 0;
    while Cong(w[a], w2[a], p)
      invariant a < |w| && AgreeMod(w, w2, p, 0, a)
      decreases |w| - a
    {
      a := a + 1;
    }
    b := |w| - 1;
    while Cong(w[b], w2[b], p)
      invariant a <= b < |w| && AgreeMod(w, w2, p, b + 1, |w|)
      decreases b
    {
      b := b - 1;
    }
  }

  /** Tamper detection: traces that differ modulo a prime collide for at most `e(n - 1)` bases. */
  lemma TamperBound(e: nat -> nat, w: seq<int>, w2: seq<int>, p: int)
    requires Prime(p) && StrictlyIncreasing(e)
    requires |w| == |w2| && !AgreeMod(w, w2, p, 0, |w|)
    ensures |w| > 0 && CountBad(e, w, w2, p, p) <= e(|w| - 1)
  {
    hide Residue, Digest;
    var a, b := DifferingEnds(w, w2, p);
    BadBound(e, w, w2, p, 0, a, b);
    CountIsCardinality(e, w, w2, p, p);
    assert b < |w| - 1 ==> e(b) < e(|w| - 1);
  }

  /** The degree bound for triangular exponents, `n (n - 1) / 2`. */
  function DegreeBound(n: nat): nat {
    if n == 0 then 0 else (n - 1) * n / 2
  }

  lemma TriangularBound(w: seq<int>, w2: seq<int>, p: int)
    requires Prime(p) && |w| == |w2| && !AgreeMod(w, w2, p, 0, |w|)
    ensures CountBad(Triangular, w, w2, p, p) <= DegreeBound(|w|)
  {
    SchedulesIncrease();
    TamperBound(Triangular, w, w2, p);
  }

  lemma SquareBound(w: seq<int>, w2: seq<int>, p: int)
    requires Prime(p) && |w| == |w2| && !AgreeMod(w, w2, p, 0, |w|)
    ensures CountBad(Square, w, w2, p, p) <= (|w| - 1) * (|w| - 1)
  {
    SchedulesIncrease();
    TamperBound(Square, w, w2, p);
  }

  // ----- where the trusted bound fails

  /** Traces that agree modulo `p` collide for every base. */
  lemma {:induction false} AgreeingTracesAlwaysCollide(e: nat -> nat, w: seq<int>, w2: seq<int>, p: int, k: nat)
    requires p > 0 && |w| == |w2| && AgreeMod(w, w2, p, 0, |w|)
    ensures CountBad(e, w, w2, p, k) == k
  {
    if k != 0 {
      AgreeingTracesAlwaysCollide(e, w, w2, p, k - 1);
      DigestCong(e, w, w2, k - 1, k - 1, p, 0);
    }
  }

  /** The bound on bad bases for traces of `n` entries. */
  function Bound(e: nat -> nat, n: nat): nat {
    if n == 0 then 0 else e(n - 1)
  }

  /** For triangular and for square exponents this is the degree bound the source writes. */
  lemma BoundIsDegree(n: nat)
    ensures Bound(Triangular, n) == DegreeBound(n)
    ensures n > 0 ==> Bound(Square, n) == (n - 1) * (n - 1)
  {
    if n > 0 {
      assert Triangular(n - 1) == (n - 1) * n / 2;
    }
  }

  /** The bound as trusted, for distinct traces, fails on a one-entry trace, for every modulus. */
  lemma TrustedBoundFails(e: nat -> nat, p: int)
    requires p > 1 && e(0) == 0
    ensures [p] != [0] && CountBad(e, [p], [0], p, p) == p > Bound(e, |[p]|)
  {
    MultipleIsZero(1, p);
    SmallMod(0, p);
    AgreeingTracesAlwaysCollide(e, [p], [0], p, p);
  }

  /** Over a prime the trusted bound holds exactly when the traces differ modulo `p` or the bound is void. */
  lemma TrustedBoundExact(e: nat -> nat, w: seq<int>, w2: seq<int>, p: int)
    requires Prime(p) && StrictlyIncreasing(e) && |w| == |w2|
    ensures CountBad(e, w, w2, p, p) <= Bound(e, |w|) <==> !AgreeMod(w, w2, p, 0, |w|) || p <= Bound(e, |w|)
  {
    hide Residue;
    if AgreeMod(w, w2, p, 0, |w|) {
      AgreeingTracesAlwaysCollide(e, w, w2, p, p);
    } else {
      TamperBound(e, w, w2, p);
    }
  }

  lemma PairCollides(e: nat -> nat, m: int, q: int, p: int)
    requires p > 0 && e(0) == 0 && e(1) == 1 && (m * q) % p == 0
    ensures Digest(e, [0, m], q, p, 0) == Digest(e, [0, 0], q, p, 0)
  {
    assert Pow(q, 1) == q * Pow(q, 0) == q;
    hide Digest, Weighted, Pow;
    DigestDiff(e, [0, m], [0, 0], q, p, 0);
    assert Diff([0, m], [0, 0]) == [0] + [m];
    WeightedConcat(e, [0], [m], q, 0);
    WeightedSingle(e, 0, q, 0);
    WeightedSingle(e, m, q, 1);
    CongZero(m * q, p);
  }

  /** A composite modulus breaks the bound already at length two. */
  lemma CompositeBreaksBound(e: nat -> nat, p: int, d: int)
    requires 2 <= d < p && p % d == 0 && e(0) == 0 && e(1) == 1
    ensures !AgreeMod([0, p / d], [0, 0], p, 0, 2)
    ensures CountBad(e, [0, p / d], [0, 0], p, p) >= 2
  {
    var m := p / d;
    assert d * m == p;
    CofactorRange(d, m, p);
    var w, w2 := [0, m], [0, 0];
    SmallMod(m, p);
    SmallMod(0, p);
    assert !Cong(w[1], w2[1], p);
    forall q | q == 0 || q == d
      ensures q in BadBases(e, w, w2, p, 0, 0, p)
    {
      MultipleIsZero(1, p);
      assert m * q == if q == 0 then 0 else p;
      PairCollides(e, m, q, p);
    }
    CountIsCardinality(e, w, w2, p, p);
    assert |{0, d}| == 2;
    SubsetSize({0, d}, BadBases(e, w, w2, p, 0, 0, p));
  }

  /** The bound holds for all traces that differ modulo `p` exactly when `p` is prime. */
  lemma BoundIffPrime(e: nat -> nat, p: int)
    requires p > 1 && StrictlyIncreasing(e) && e(0) == 0 && e(1) == 1
    ensures Prime(p) <==> forall w: seq<nat>, w2: seq<nat> ::
        |w| == |w2| && !AgreeMod(w, w2, p, 0, |w|) ==> CountBad(e, w, w2, p, p) <= e(|w| - 1)
  {
    if Prime(p) {
      forall w: seq<nat>, w2: seq<nat> | |w| == |w2| && !AgreeMod(w, w2, p, 0, |w|)
        ensures CountBad(e, w, w2, p, p) <= e(|w| - 1)
      {
        TamperBound(e, w, w2, p);
      }
    } else {
      var d :| 2 <= d < p && p % d == 0;
      CompositeBreaksBound(e, p, d);
      var w: seq<nat>, w2: seq<nat> := [0, p / d], [0, 0];
      assert |w| == |w2| && !AgreeMod(w, w2, p, 0, |w|);
    }
  }
}
