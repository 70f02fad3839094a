/** Which edits of a trace change its digest, exactly. */
module Edits {
  import opened Modular
  import opened Accumulator

  /**
   * One edited position, under an invertible base or with exponent zero: the
   * digests collide exactly when the edit vanishes modulo `p`.
   */
  lemma SingleEdit(e: nat -> nat, w: seq<int>, w2: seq<int>, a: nat, q: int, p: int, s: nat)
    requires p > 0 && a < |w| == |w2| && (e(s + a) == 0 || Invertible(q, p))
    requires AgreeMod(w, w2, p, 0, a) && AgreeMod(w, w2, p, a + 1, |w|)
    ensures Digest(e, w, q, p, s) == Digest(e, w2, q, p, s) <==> Cong(w[a], w2[a], p)
  {
    hide Residue, Weighted, Digest, Pow;
    SinglePosition(e, w, w2, a, q, p, s);
    InvertiblePow(q, e(s + a), p);
    VanishesWith(w[a] - w2[a], Pow(q, e(s + a)), p);
    CongFromDiff(w[a], w2[a], p);
  }

  /** For any base, one edited position collides exactly when its weighted difference vanishes. */
  lemma SinglePosition(e: nat -> nat, w: seq<int>, w2: seq<int>, a: nat, q: int, p: int, s: nat)
    requires p > 0 && a < |w| == |w2|
    requires AgreeMod(w, w2, p, 0, a) && AgreeMod(w, w2, p, a + 1, |w|)
    ensures Digest(e, w, q, p, s) == Digest(e, w2, q, p, s)
       <==> Cong((w[a] - w2[a]) * Pow(q, e(s + a)), 0, p)
  {
    hide Residue, Weighted, Digest, Pow;
    WindowDiff(e, w, w2, a, a + 1, q, p, s);
    var d := w[a] - w2[a];
    assert Diff(w, w2)[a..a + 1] == [d];
    WeightedSingle(e, d, q, s + a);
    DigestDiff(e, w, w2, q, p, s);
  }

  /** At most position `a` differs modulo `p`. */
  ghost predicate SingleChange(w: seq<int>, w2: seq<int>, a: nat, p: int)
    requires p > 0
  {
    a < |w| == |w2| && AgreeMod(w, w2, p, 0, a) && AgreeMod(w, w2, p, a + 1, |w|)
  }

  /** No two traces of one length that differ modulo `p` at one position only have the same digest. */
  ghost predicate SeesSingleEdits(e: nat -> nat, q: int, p: int)
    requires p > 0
  {
    forall w: seq<nat>, w2: seq<nat>, a: nat | SingleChange(w, w2, a, p) ::
      Digest(e, w, q, p, 0) == Digest(e, w2, q, p, 0) ==> Cong(w[a], w2[a], p)
  }

  /** Single edits are all seen exactly when the base is invertible modulo `p`. */
  lemma SingleEditsSeenIff(e: nat -> nat, q: nat, p: nat)
    requires p > 1 && e(1) > 0
    ensures SeesSingleEdits(e, q, p) <==> Invertible(q, p)
  {
    hide Residue, Digest;
    if Invertible(q, p) {
      forall w: seq<nat>, w2: seq<nat>, a: nat | SingleChange(w, w2, a, p)
        ensures Digest(e, w, q, p, 0) == Digest(e, w2, q, p, 0) ==> Cong(w[a], w2[a], p)
      {
        SingleEdit(e, w, w2, a, q, p, 0);
      }
    } else {
      var d := AnnihilatorOrInverse(q, p);
      var w: seq<nat>, w2: seq<nat> := [0, d], [0, 0];
      SinglePosition(e, w, w2, 1, q, p, 0);
      assert 0 + 1 == 1 && Pow(q, e(1)) == q * Pow(q, e(1) - 1);
      CongScale(d * q, 0, Pow(q, e(1) - 1), p);
      MulAssoc(d, q, Pow(q, e(1) - 1));
      SmallResidue(d, p);
      assert SingleChange(w, w2, 1, p) && !Cong(w[1], w2[1], p);
    }
  }

  lemma SmallResidue(d: nat, p: nat)
    requires 0 < d < p
    ensures !Cong(d, 0, p)
  {
    SmallMod(d, p);
    CongZero(d, p);
  }

  /** Everything but positions `a` and `b` agrees modulo `p`. */
  ghost predicate AgreeExcept(w: seq<int>, w2: seq<int>, p: int, a: nat, b: nat)
    requires p > 0 && a < b < |w| == |w2|
  {
    AgreeMod(w, w2, p, 0, a) && AgreeMod(w, w2, p, a + 1, b) && AgreeMod(w, w2, p, b + 1, |w|)
  }

  lemma TwoEnds(e: nat -> nat, d: seq<int>, a: nat, b: nat, q: int, s: nat)
    requires a < b < |d|
    ensures Weighted(e, d[a..b + 1], q, s + a)
         == d[a] * Pow(q, e(s + a)) + Weighted(e, d[a + 1..b], q, s + (a + 1)) + d[b] * Pow(q, e(s + b))
  {
    hide Weighted, Pow;
    var m := d[a..b + 1];
    WeightedSplit(e, m, 1, b - a, q, s + a);
    assert m[..1] == [d[a]] && m[b - a..] == [d[b]];
    SubSlice(d, a, b + 1, 1, b - a);
    WeightedSingle(e, d[a], q, s + a);
    assert s + a + (b - a) == s + b && s + a + 1 == s + (a + 1);
    WeightedSingle(e, d[b], q, s + b);
  }

  lemma TwoPositions(e: nat -> nat, w: seq<int>, w2: seq<int>, a: nat, b: nat, q: int, p: int, s: nat)
    requires p > 0 && a < b < |w| == |w2| && AgreeExcept(w, w2, p, a, b)
    ensures Cong(Weighted(e, Diff(w, w2), q, s),
                 (w[a] - w2[a]) * Pow(q, e(s + a)) + (w[b] - w2[b]) * Pow(q, e(s + b)), p)
  {
    hide Residue, Weighted, Digest, Pow;
    WindowDiff(e, w, w2, a, b + 1, q, p, s);
    TwoEnds(e, Diff(w, w2), a, b, q, s);
    AgreeingPartVanishes(e, w, w2, a + 1, b, q, p, s + (a + 1));
    var x, y := (w[a] - w2[a]) * Pow(q, e(s + a)), (w[b] - w2[b]) * Pow(q, e(s + b));
    CongDropZeros(Weighted(e, Diff(w, w2)[a + 1..b], q, s + (a + 1)), x + y, 0, p);
  }

  /**
   * Two edited positions under an invertible base: a collision exactly when the
   * edits cancel across the exponent gap.
   */
  lemma TwoEdits(e: nat -> nat, w: seq<int>, w2: seq<int>, a: nat, b: nat, q: int, p: int, s: nat)
    requires p > 0 && Invertible(q, p) && StrictlyIncreasing(e)
    requires a < b < |w| == |w2| && AgreeExcept(w, w2, p, a, b)
    ensures e(s + a) < e(s + b)
    ensures Digest(e, w, q, p, s) == Digest(e, w2, q, p, s)
       <==> Cong((w[a] - w2[a]) + (w[b] - w2[b]) * Pow(q, e(s + b) - e(s + a)), 0, p)
  {
    hide Residue, Weighted, Digest, Pow;
    assert e(s + a) < e(s + b);
    TwoPositions(e, w, w2, a, b, q, p, s);
    DigestDiff(e, w, w2, q, p, s);
    var x, y := w[a] - w2[a], w[b] - w2[b];
    var v := x + y * Pow(q, e(s + b) - e(s + a));
    PowFactor(q, e(s + a), e(s + b), x, y, v);
    InvertiblePow(q, e(s + a), p);
    VanishesWith(v, Pow(q, e(s + a)), p);
    assert Pow(q, e(s + a)) * v == v * Pow(q, e(s + a));
  }

  function SwapAt(w: seq<int>, a: nat, b: nat): seq<int>
    requires a < b < |w|
  {
    w[a := w[b]][b := w[a]]
  }

  lemma SwapTerms(x: int, y: int, g: int)
    requires y == -x
    ensures x + y * g == x * (1 - g)
  {
  }

  /**
   * Under an invertible base, for any modulus, a swap goes unnoticed exactly when
   * the difference of the entries annihilates one minus the gap power of the base.
   */
  lemma Swap(e: nat -> nat, w: seq<int>, a: nat, b: nat, q: int, p: int, s: nat)
    requires p > 0 && Invertible(q, p) && StrictlyIncreasing(e) && a < b < |w|
    ensures e(s + a) < e(s + b)
    ensures Digest(e, w, q, p, s) == Digest(e, SwapAt(w, a, b), q, p, s)
       <==> Cong((w[a] - w[b]) * (1 - Pow(q, e(s + b) - e(s + a))), 0, p)
  {
    hide Residue, Digest, Pow;
    var w2 := SwapAt(w, a, b);
    TwoEdits(e, w, w2, a, b, q, p, s);
    SwapTerms(w[a] - w[b], w[b] - w2[b], Pow(q, e(s + b) - e(s + a)));
  }

  /** Over a prime that is: the entries agree or the gap power of the base is one. */
  lemma SwapOverPrime(e: nat -> nat, w: seq<int>, a: nat, b: nat, q: int, p: int, s: nat)
    requires Prime(p) && !Cong(q, 0, p) && StrictlyIncreasing(e) && a < b < |w|
    ensures e(s + a) < e(s + b)
    ensures Digest(e, w, q, p, s) == Digest(e, SwapAt(w, a, b), q, p, s)
       <==> Cong(w[a], w[b], p) || Cong(Pow(q, e(s + b) - e(s + a)), 1, p)
  {
    hide Residue, Digest, Pow;
    PrimeInvertible(q, p);
    Swap(e, w, a, b, q, p, s);
    FactorsVanish(w[a], w[b], Pow(q, e(s + b) - e(s + a)), p);
  }

  lemma FactorsVanish(x: int, y: int, g: int, p: int)
    requires Prime(p)
    ensures Cong((x - y) * (1 - g), 0, p) <==> Cong(x, y, p) || Cong(g, 1, p)
  {
    Euclid(x - y, 1 - g, p);
    CongFromDiff(x, y, p);
    CongFromDiff(1, g, p);
  }

  /** For triangular exponents the gap between neighbours is the position of the second one. */
  lemma AdjacentSwap(w: seq<int>, i: nat, q: int, p: int, s: nat)
    requires p > 0 && Invertible(q, p) && i + 1 < |w|
    ensures Digest(Triangular, w, q, p, s) == Digest(Triangular, SwapAt(w, i, i + 1), q, p, s)
       <==> Cong((w[i] - w[i + 1]) * (1 - Pow(q, s + i + 1)), 0, p)
  {
    hide Residue, Weighted, Digest, Pow;
    SchedulesIncrease();
    TriangularStep(s + i);
    assert s + (i + 1) == s + i + 1;
    Swap(Triangular, w, i, i + 1, q, p, s);
  }

  /** Over a prime that is: the entries agree or `q` to the position of the second one is one. */
  lemma AdjacentSwapOverPrime(w: seq<int>, i: nat, q: int, p: int, s: nat)
    requires Prime(p) && !Cong(q, 0, p) && i + 1 < |w|
    ensures Digest(Triangular, w, q, p, s) == Digest(Triangular, SwapAt(w, i, i + 1), q, p, s)
       <==> Cong(w[i], w[i + 1], p) || Cong(Pow(q, s + i + 1), 1, p)
  {
    hide Residue, Digest, Pow;
    PrimeInvertible(q, p);
    AdjacentSwap(w, i, q, p, s);
    FactorsVanish(w[i], w[i + 1], Pow(q, s + i + 1), p);
  }
}
