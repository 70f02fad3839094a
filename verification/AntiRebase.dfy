/** The demonstration that one scalar does not rebase the triangular digest by one position. */
module AntiRebase {
  import opened Modular
  import opened Accumulator
  import opened Machine
  import opened KSentry

  method FakeScalarRebase(localDigest: u128, q: u128, p: u128, scalarExp: u64) returns (r: u128)
    requires p > 1
    ensures r < p
    ensures Exact(p) ==> r == (localDigest * Pow(q, scalarExp)) % p
  {
    var scalar := ModPow(q, scalarExp, p);
    r := ModMul(localDigest, scalar, p);
    if Exact(p) {
      ReduceWeight(localDigest, Pow(q, scalarExp), p);
    }
  }

  /**
   * The demonstration succeeds exactly when `q^2` and `q^3` differ; over a prime
   * that is for every base other than zero and one.
   */
  method DemoNotOneScalarRebase(q: u128, p: u128) returns (r: bool)
    requires p > 1 && q > 0
    ensures Exact(p) ==> (r <==> !Cong(Pow(q, 2), Pow(q, 3), p))
    ensures Exact(p) && Prime(p) ==> (r <==> !Cong(q, 0, p) && !Cong(q, 1, p))
  {
    var a: seq<u128>, b: seq<u128> := [1, 0], [0, 1];
    var localA := KSentryFast(a, q, p);
    var localB := KSentryFast(b, q, p);
    var shiftedA := KSentryShiftedSpec(a, q, p, 1);
    var shiftedB := KSentryShiftedSpec(b, q, p, 1);
    var fakeA := FakeScalarRebase(localA.acc, q, p, 1);
    var fakeB := FakeScalarRebase(localB.acc, q, p, 1);
    r := fakeA == shiftedA && fakeB != shiftedB;
    if Exact(p) {
      DemoValues(q, p, localA.acc, localB.acc, shiftedA, shiftedB);
      if Prime(p) {
        SquareIsCube(q, p);
      }
    }
  }

  lemma PairSum(x: int, y: int, q: int, s: nat)
    ensures Weighted(Triangular, [x, y], q, s) == x * Pow(q, Triangular(s)) + y * Pow(q, Triangular(s + 1))
  {
    assert [x, y] == [x] + [y];
    WeightedConcat(Triangular, [x], [y], q, s);
    WeightedSingle(Triangular, x, q, s);
    WeightedSingle(Triangular, y, q, s + 1);
  }

  /** The residues the demonstration compares. */
  lemma DemoValues(q: int, p: int, localA: int, localB: int, shiftedA: int, shiftedB: int)
    requires p > 1
    requires localA == Digest(Triangular, [1, 0], q, p, 0) && localB == Digest(Triangular, [0, 1], q, p, 0)
    requires shiftedA == Digest(Triangular, [1, 0], q, p, 1) && shiftedB == Digest(Triangular, [0, 1], q, p, 1)
    ensures (localA * Pow(q, 1)) % p == shiftedA
    ensures (localB * Pow(q, 1)) % p == Pow(q, 2) % p && shiftedB == Pow(q, 3) % p
  {
    assert Triangular(0) == 0 && Triangular(1) == 1 && Triangular(2) == 3;
    LowPowers(q);
    hide Pow, Triangular, Digest, Weighted;
    DigestIsWeighted(Triangular, [1, 0], q, p, 0);
    DigestIsWeighted(Triangular, [0, 1], q, p, 0);
    DigestIsWeighted(Triangular, [1, 0], q, p, 1);
    DigestIsWeighted(Triangular, [0, 1], q, p, 1);
    PairSum(1, 0, q, 0);
    PairSum(0, 1, q, 0);
    PairSum(1, 0, q, 1);
    PairSum(0, 1, q, 1);
    SmallMod(1, p);
    CongSelf(q, p);
    CongScale(q % p, q, q, p);
  }

  lemma LowPowers(q: int)
    ensures Pow(q, 0) == 1 && Pow(q, 1) == q && Pow(q, 2) == q * q && Pow(q, 3) == q * q * q
  {
    assert Pow(q, 1) == q * Pow(q, 0) && Pow(q, 2) == q * Pow(q, 1) && Pow(q, 3) == q * Pow(q, 2);
  }

  lemma SquareIsCube(q: int, p: int)
    requires Prime(p)
    ensures Cong(Pow(q, 2), Pow(q, 3), p) <==> Cong(q, 0, p) || Cong(q, 1, p)
  {
    LowPowers(q);
    hide Pow;
    CongFromDiff(q * q, q * q * q, p);
    assert q * q - q * q * q == (q * q) * (1 - q);
    Euclid(q * q, 1 - q, p);
    Euclid(q, q, p);
    CongFromDiff(1, q, p);
  }
}
