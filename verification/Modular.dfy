/** Integers modulo `p`: congruence, powers, primality by divisors and Euclid's lemma. */
module Modular {

  function Pow(b: int, e: nat): int {
    if e == 0 then 1 else b * Pow(b, e - 1)
  }

  /** `a` and `b` have the same residue modulo `p`. */
  ghost predicate Cong(a: int, b: int, p: int)
    requires p > 0
  {
    Residue(a, p) == Residue(b, p)
  }

  /** The remainder of `a` on division by `p`, never negative. */
  ghost function Residue(a: int, p: int): int
    requires p > 0
  {
    a % p
  }

  ghost predicate Prime(p: int) {
    2 <= p && forall d :: 2 <= d < p ==> p % d != 0
  }

  /** Nonzero residues multiply to a nonzero residue. */
  ghost predicate IsDomainMod(p: int) {
    p > 1 && forall x, y :: 0 < x < p && 0 < y < p ==> (x * y) % p != 0
  }

  // ----- division with remainder

  lemma DivModUnique(a: int, k: int, r: int, p: int)
    requires 0 <= r < p
    requires a == k * p + r
    ensures a / p == k && a % p == r
  {
    var t := a / p - k;
    assert p * t == p * (a / p) - p * k == r - a % p;
    if t >= 1 {
      MulMono(p, 1, t);
    } else if t <= -1 {
      MulMono(p, t, -1);
    }
  }

  /** Scaling by a factor that is not negative keeps the order. */
  lemma MulMono(factor: int, lo: int, hi: int)
    requires factor >= 0 && hi >= lo
    ensures factor * hi >= factor * lo
  {
  }

  lemma AddMultiple(a: int, k: int, p: int)
    requires p > 0
    ensures (a + k * p) % p == a % p
  {
    assert a + k * p == (a / p + k) * p + a % p;
    DivModUnique(a + k * p, a / p + k, a % p, p);
  }

  lemma MultipleIsZero(k: int, p: int)
    requires p > 0
    ensures (k * p) % p == 0 && (p * k) % p == 0
  {
    AddMultiple(0, k, p);
  }

  lemma SmallMod(a: int, p: int)
    requires 0 <= a < p
    ensures a % p == a
  {
    DivModUnique(a, 0, a, p);
  }

  /** Two integers are congruent exactly when their difference is a multiple. */
  lemma CongWitness(a: int, b: int, p: int) returns (k: int)
    requires p > 0 && Cong(a, b, p)
    ensures a == b + k * p
  {
    k := a / p - b / p;
    assert a == p * (a / p) + a % p && b == p * (b / p) + b % p;
  }

  lemma CongZero(a: int, p: int)
    requires p > 0
    ensures Cong(a, 0, p) <==> a % p == 0
  {
    SmallMod(0, p);
  }

  lemma CongFromDiff(a: int, b: int, p: int)
    requires p > 0
    ensures Cong(a, b, p) <==> Cong(a - b, 0, p)
  {
    CongZero(a - b, p);
    if Cong(a, b, p) {
      var k := CongWitness(a, b, p);
      MultipleIsZero(k, p);
    }
    if (a - b) % p == 0 {
      var k := (a - b) / p;
      assert a == b + k * p;
      AddMultiple(b, k, p);
    }
  }

  lemma CongSelf(a: int, p: int)
    requires p > 0
    ensures Cong(a % p, a, p)
  {
    SmallMod(a % p, p);
  }

  lemma CongAdd(a: int, a': int, b: int, b': int, p: int)
    requires p > 0 && Cong(a, a', p) && Cong(b, b', p)
    ensures Cong(a + b, a' + b', p) && Cong(a - b, a' - b', p)
  {
    hide Cong;
    var k := CongWitness(a, a', p);
    var l := CongWitness(b, b', p);
    Collect(k, l, p);
    CongShifted(a + b, a' + b', k + l, p);
    CongShifted(a - b, a' - b', k - l, p);
  }

  lemma Collect(k: int, l: int, p: int)
    ensures k * p + l * p == (k + l) * p && k * p - l * p == (k - l) * p
  {
  }

  lemma CongShifted(a: int, b: int, k: int, p: int)
    requires p > 0 && a == b + k * p
    ensures Cong(a, b, p)
  {
    AddMultiple(b, k, p);
  }

  lemma CongScale(a: int, a': int, b: int, p: int)
    requires p > 0 && Cong(a, a', p)
    ensures Cong(a * b, a' * b, p)
  {
    var k := CongWitness(a, a', p);
    assert a * b == a' * b + (k * b) * p;
    AddMultiple(a' * b, k * b, p);
  }

  lemma CongMul(a: int, a': int, b: int, b': int, p: int)
    requires p > 0 && Cong(a, a', p) && Cong(b, b', p)
    ensures Cong(a * b, a' * b', p)
  {
    CongScale(a, a', b, p);
    CongScale(b, b', a', p);
    assert a' * b == b * a' && a' * b' == b' * a';
  }

  lemma CongPow(a: int, a': int, e: nat, p: int)
    requires p > 0 && Cong(a, a', p)
    ensures Cong(Pow(a, e), Pow(a', e), p)
  {
    if e != 0 {
      CongPow(a, a', e - 1, p);
      CongMul(a, a', Pow(a, e - 1), Pow(a', e - 1), p);
    }
  }

  /** Reducing the accumulator and the weight before a multiply-add changes nothing modulo `p`. */
  lemma CongMultiplyAdd(a: int, x: int, w: int, p: int)
    requires p > 0
    ensures (a % p + x * (w % p)) % p == (a + x * w) % p
  {
    CongSelf(w, p);
    CongScale(w % p, w, x, p);
    CongSelf(a, p);
    CongAdd(a % p, a, (w % p) * x, w * x, p);
  }

  lemma ReduceWeight(x: int, w: int, p: int)
    requires p > 0
    ensures (x * (w % p)) % p == (x * w) % p
  {
    CongSelf(w, p);
    CongScale(w % p, w, x, p);
    assert w % p * x == x * (w % p) && w * x == x * w;
  }

  lemma CongDropZeros(a: int, m: int, b: int, p: int)
    requires p > 0 && Cong(a, 0, p) && Cong(b, 0, p)
    ensures Cong(a + m + b, m, p)
  {
    CongAdd(a, 0, m, m, p);
    CongAdd(a + m, m, b, 0, p);
  }

  lemma MulSub(d: int, x: int, y: int, z: int)
    requires d == x - y
    ensures d * z == x * z - y * z
  {
  }

  // ----- powers

  lemma PowAdd(b: int, x: nat, y: nat)
    ensures Pow(b, x + y) == Pow(b, x) * Pow(b, y)
  {
    if x != 0 {
      PowAdd(b, x - 1, y);
      MulAssoc(b, Pow(b, x - 1), Pow(b, y));
    }
  }

  lemma MulAssoc(a: int, b: int, c: int)
    ensures a * (b * c) == (a * b) * c
  {
  }

  lemma {:induction false} PowSquare(b: int, k: nat)
    ensures Pow(b * b, k) == Pow(b, 2 * k)
  {
    if k != 0 {
      PowSquare(b, k - 1);
      MulAssoc(b, b, Pow(b, 2 * k - 2));
      assert Pow(b, 2 * k) == b * Pow(b, 2 * k - 1) == b * (b * Pow(b, 2 * k - 2));
    }
  }

  /** Pulling the lower power out of a two-term sum `v * q^g`. */
  lemma PowFactor(q: int, g: nat, h: nat, u: int, x: int, v: int)
    requires g <= h && v == u + x * Pow(q, h - g)
    ensures u * Pow(q, g) + x * Pow(q, h) == Pow(q, g) * v
  {
    PowAdd(q, g, h - g);
    var a, b := Pow(q, g), Pow(q, h - g);
    assert x * (a * b) == a * (x * b);
  }

  lemma PowPositive(b: int, e: nat)
    requires b > 0
    ensures Pow(b, e) > 0
  {
    if e != 0 {
      PowPositive(b, e - 1);
    }
  }

  lemma PowMono(b: int, x: nat, y: nat)
    requires b > 0 && x <= y
    ensures Pow(b, x) <= Pow(b, y)
  {
    PowAdd(b, x, y - x);
    PowPositive(b, x);
    PowPositive(b, y - x);
    MulMono(Pow(b, x), 1, Pow(b, y - x));
  }

  /** Squaring the base halves the exponent: the step of square-and-multiply. */
  lemma PowHalve(b: int, e: nat)
    ensures Pow(b * b, e / 2) * (if e % 2 == 1 then b else 1) == Pow(b, e)
  {
    PowSquare(b, e / 2);
    assert e == 2 * (e / 2) + e % 2;
    PowAdd(b, 2 * (e / 2), e % 2);
  }

  // ----- primes

  /**
   * Euclid's lemma for a first factor already reduced: replacing `a` by the
   * remainder of `p` on division by `a` keeps the product a multiple of `p`.
   */
  lemma {:induction false} EuclidReduced(a: int, b: int, p: int)
    requires Prime(p) && 0 < a < p && (a * b) % p == 0
    ensures b % p == 0
    decreases a
  {
    if a != 1 {
      var k, r := p / a, p % a;
      var m := (a * b) / p;
      assert a * b == p * m;
      assert p == a * k + r;
      assert r * b == p * b - k * (a * b) == p * b - k * (p * m) by {
        assert (a * k) * b == k * (a * b);
      }
      assert r * b == (b - k * m) * p;
      MultipleIsZero(b - k * m, p);
      EuclidReduced(r, b, p);
    }
  }

  /** Over a prime modulus a product vanishes exactly when one factor does. */
  lemma Euclid(a: int, b: int, p: int)
    requires Prime(p)
    ensures Cong(a * b, 0, p) <==> Cong(a, 0, p) || Cong(b, 0, p)
  {
    CongZero(a, p);
    CongZero(b, p);
    CongZero(a * b, p);
    CongSelf(a, p);
    CongScale(a % p, a, b, p);
    if (a * b) % p == 0 && a % p != 0 {
      EuclidReduced(a % p, b, p);
    }
    if a % p == 0 {
      MultipleIsZero(a / p * b, p);
      assert a * b == (a / p * b) * p;
    }
    if b % p == 0 {
      MultipleIsZero(b / p * a, p);
      assert a * b == (b / p * a) * p;
    }
  }

  lemma {:induction false} PowNonzero(q: int, e: nat, p: int)
    requires Prime(p) && !Cong(q, 0, p)
    ensures !Cong(Pow(q, e), 0, p)
  {
    if e == 0 {
      CongZero(1, p);
      SmallMod(1, p);
    } else {
      PowNonzero(q, e - 1, p);
      Euclid(q, Pow(q, e - 1), p);
    }
  }

  /** The field assumption made of the modulus says neither more nor less than primality. */
  lemma DomainIffPrime(p: int)
    ensures IsDomainMod(p) <==> Prime(p)
  {
    if Prime(p) {
      forall x, y | 0 < x < p && 0 < y < p
        ensures (x * y) % p != 0
      {
        SmallMod(x, p);
        SmallMod(y, p);
        CongZero(x, p);
        CongZero(y, p);
        CongZero(x * y, p);
        Euclid(x, y, p);
      }
    }
    if IsDomainMod(p) {
      forall d | 2 <= d < p
        ensures p % d != 0
      {
        if p % d == 0 {
          var m := p / d;
          assert d * m == p;
          MultipleIsZero(1, p);
          CofactorRange(d, m, p);
        }
      }
    }
  }

  lemma CofactorRange(d: int, m: int, p: int)
    requires 2 <= d < p && d * m == p
    ensures 2 <= m < p
  {
    if m <= 1 {
      MulMono(d, m, 1);
    } else {
      MulMono(m, 2, d);
    }
  }

  // ----- invertible residues

  ghost predicate InverseOf(u: int, q: int, p: int)
    requires p > 0
  {
    Cong(q * u, 1, p)
  }

  /** `q` has a multiplicative inverse modulo `p`. */
  ghost predicate Invertible(q: int, p: int)
    requires p > 0
  {
    exists u :: InverseOf(u, q, p)
  }

  lemma InvertibleMul(a: int, b: int, p: int)
    requires p > 0 && Invertible(a, p) && Invertible(b, p)
    ensures Invertible(a * b, p)
  {
    hide Residue;
    var u :| InverseOf(u, a, p);
    var v :| InverseOf(v, b, p);
    CongMul(a * u, 1, b * v, 1, p);
    Regroup(a, u, b, v);
    assert InverseOf(u * v, a * b, p);
  }

  lemma Regroup(a: int, u: int, b: int, v: int)
    ensures (a * u) * (b * v) == (a * b) * (u * v)
  {
  }

  lemma {:induction false} InvertiblePow(q: int, e: nat, p: int)
    requires p > 0 && (e == 0 || Invertible(q, p))
    ensures Invertible(Pow(q, e), p)
  {
    if e == 0 {
      assert InverseOf(1, 1, p);
    } else if e == 1 {
      assert Pow(q, 1) == q * Pow(q, 0) == q;
    } else {
      InvertiblePow(q, e - 1, p);
      InvertibleMul(q, Pow(q, e - 1), p);
    }
  }

  /** An invertible factor cancels from a congruence, whatever the modulus. */
  lemma CancelInvertible(c: int, a: int, b: int, p: int)
    requires p > 0 && Invertible(c, p)
    ensures Cong(c * a, c * b, p) <==> Cong(a, b, p)
  {
    hide Residue;
    var u :| InverseOf(u, c, p);
    if Cong(c * a, c * b, p) {
      CongScale(c * a, c * b, u, p);
      CongScale(c * u, 1, a, p);
      CongScale(c * u, 1, b, p);
      assert c * a * u == c * u * a && c * b * u == c * u * b;
    }
    if Cong(a, b, p) {
      CongScale(a, b, c, p);
      assert a * c == c * a && b * c == c * b;
    }
  }

  /** A product with an invertible factor vanishes only when the other factor does. */
  lemma VanishesWith(x: int, c: int, p: int)
    requires p > 0 && Invertible(c, p)
    ensures Cong(x * c, 0, p) <==> Cong(x, 0, p)
  {
    CancelInvertible(c, x, 0, p);
    assert c * x == x * c && c * 0 == 0;
  }

  /** A common divisor of `a` and `b` that is a combination of them. */
  lemma {:induction false} Bezout(a: nat, b: nat) returns (g: nat, x: int, y: int)
    ensures g == a * x + b * y
    ensures a > 0 || b > 0 ==> g > 0 && a % g == 0 && b % g == 0
    decreases b
  {
    if b == 0 {
      g, x, y := a, 1, 0;
      if a > 0 {
        MultipleIsZero(1, a);
        SmallMod(0, a);
      }
    } else {
      var k, r := a / b, a % b;
      var u, v;
      g, u, v := Bezout(b, r);
      x, y := v, u - k * v;
      assert a == k * b + r;
      BezoutStep(a, b, k, r, u, v);
      DividesCombination(b, r, k, g);
    }
  }

  lemma BezoutStep(a: int, b: int, k: int, r: int, u: int, v: int)
    requires a == k * b + r
    ensures a * v + b * (u - k * v) == b * u + r * v
  {
  }

  lemma DividesCombination(b: int, r: int, k: int, g: int)
    requires g > 0 && b % g == 0 && r % g == 0
    ensures (k * b + r) % g == 0
  {
    var s, t := b / g, r / g;
    assert k * b + r == (k * s + t) * g;
    MultipleIsZero(k * s + t, g);
  }

  /** What a caller can check: `q` is invertible exactly when no divisor of `p` above one divides `q`. */
  lemma InvertibleIffCoprime(q: nat, p: nat)
    requires p > 0
    ensures Invertible(q, p) <==> forall d: nat :: d > 1 && p % d == 0 ==> q % d != 0
  {
    if Invertible(q, p) {
      var u :| InverseOf(u, q, p);
      var k := CongWitness(q * u, 1, p);
      forall d: nat | d > 1 && p % d == 0
        ensures q % d != 0
      {
        if q % d == 0 {
          OneIsNoMultiple(q, u, p, k, d);
        }
      }
    } else {
      var g, x, y := Bezout(q, p);
      if g == 1 { CombinationInverse(q, p, x, y); }
    }
  }

  lemma CombinationInverse(q: int, p: int, x: int, y: int)
    requires p > 0 && q * x + p * y == 1
    ensures Invertible(q, p)
  {
    assert q * x == 1 + (-y) * p;
    AddMultiple(1, -y, p);
    assert InverseOf(x, q, p);
  }

  lemma OneIsNoMultiple(q: int, u: int, p: int, k: int, d: nat)
    requires d > 1 && p % d == 0
    requires q * u == 1 + k * p
    ensures q % d != 0
  {
    if q % d == 0 {
      var s, t := q / d, p / d;
      assert q * u == (s * u) * d && k * p == (k * t) * d by {
        assert q == s * d && p == t * d;
      }
      MulSub(s * u - k * t, s * u, k * t, d);
      MultipleIsZero(s * u - k * t, d);
      SmallMod(1, d);
    }
  }

  /** A residue without an inverse is annihilated by some nonzero residue. */
  lemma AnnihilatorOrInverse(q: nat, p: nat) returns (d: nat)
    requires p > 1
    ensures Invertible(q, p) || (0 < d < p && Cong(d * q, 0, p))
  {
    d := 0;
    var g, x, y := Bezout(q, p);
    if g == 1 {
      CombinationInverse(q, p, x, y);
    } else {
      d := p / g;
      var m := q / g;
      assert d * g == p && m * g == q;
      CofactorBelow(d, g, p);
      assert d * q == m * p by { Regroup(d, 1, m, g); }
      MultipleIsZero(m, p);
      CongZero(d * q, p);
    }
  }

  lemma CofactorBelow(d: nat, g: nat, p: nat)
    requires g > 1 && p > 0 && d * g == p
    ensures 0 < d < p
  {
  }

  /** Modulo a prime everything but the multiples of the prime is invertible. */
  lemma PrimeInvertible(q: int, p: int)
    requires Prime(p) && !Cong(q, 0, p)
    ensures Invertible(q, p)
  {
    var r: nat := q % p;
    CongSelf(q, p);
    var d := AnnihilatorOrInverse(r, p);
    if Invertible(r, p) {
      var u :| InverseOf(u, r, p);
      CongScale(r, q, u, p);
      assert InverseOf(u, q, p);
    } else {
      Euclid(d, r, p);
      SmallMod(d, p);
      CongZero(d, p);
    }
  }
}
