/**
 * Machine words and the modular arithmetic done on them. Products and sums wrap
 * at the width of the word, so each operation is exact only for some moduli.
 */
module Machine {
  import opened Accumulator
  import opened Modular

  const TWO64 := 0x1_0000_0000_0000_0000
  const TWO127 := 0x8000_0000_0000_0000_0000_0000_0000_0000
  const TWO128 := 0x1_0000_0000_0000_0000_0000_0000_0000_0000

  type u64 = x: int | 0 <= x < 0x1_0000_0000_0000_0000
  type u128 = x: int | 0 <= x < 0x1_0000_0000_0000_0000_0000_0000_0000_0000

  /** Product modulo `p` of 128-bit words, the intermediate product wrapping at 128 bits. */
  function ModMul(a: u128, b: u128, p: u128): (r: u128)
    requires p > 0
    ensures r < p
    ensures Exact(p) ==> r == (a * b) % p
  {
    var r := ((a % p) * (b % p)) % TWO128 % p;
    assert Exact(p) ==> r == (a * b) % p by {
      if Exact(p) {
        WrappedProduct(a % p, b % p, p, TWO64);
        ReduceFactors(a, b, p);
      }
    }
    r
  }

  /** Sum modulo `p` of 128-bit words, the intermediate sum wrapping at 128 bits. */
  function ModAdd(a: u128, b: u128, p: u128): (r: u128)
    requires p > 0
    ensures r < p
    ensures p <= TWO127 ==> r == (a + b) % p
  {
    var r := (a % p + b % p) % TWO128 % p;
    assert p <= TWO127 ==> r == (a + b) % p by {
      if p <= TWO127 {
        SmallMod(a % p + b % p, TWO128);
        CongSelf(a, p);
        CongSelf(b, p);
        CongAdd(a % p, a, b % p, b, p);
      }
    }
    r
  }

  /** The moduli for which wrapping never shows. */
  predicate Exact(p: u128)
    requires p > 0
  {
    p <= TWO64 || TWO128 % p == 0
  }

  lemma ExactFitsSums(p: u128)
    requires p > 0 && Exact(p)
    ensures p <= TWO127
  {
    if p > TWO127 {
      DivModUnique(TWO128, 1, TWO128 - p, p);
    }
  }

  /** The update of an accumulator by a weighted entry, as both streaming digests do it. */
  lemma MultiplyAddExact(acc: u128, x: u128, w: u128, p: u128)
    requires p > 0 && Exact(p)
    ensures ModAdd(acc, ModMul(x % p, w, p), p) == (acc + x * w) % p == ModAdd(acc, ModMul(x, w, p), p)
  {
    ExactFitsSums(p);
    CongSelf(x, p);
    CongScale(x % p, x, w, p);
    CongSelf(x * w, p);
    CongAdd(acc, acc, (x * w) % p, x * w, p);
  }

  /** The 64-bit position counter after one more entry. */
  function NextPosition(n: u64, ghost count: nat): (r: u64)
    requires n == count % TWO64
    ensures r == (count + 1) % TWO64
  {
    assert (n + 1) % TWO64 == (count + 1) % TWO64 by {
      CongSelf(count, TWO64);
      CongAdd(n, count, 1, 1, TWO64);
    }
    (n + 1) % TWO64
  }

  lemma ReduceFactors(a: int, b: int, p: int)
    requires p > 0
    ensures ((a % p) * (b % p)) % p == (a * b) % p
  {
    CongSelf(a, p);
    CongSelf(b, p);
    CongMul(a % p, a, b % p, b, p);
  }

  /** Reducing by a multiple of the modulus first changes nothing. */
  lemma ReduceTwice(x: int, m: int, p: int)
    requires m > 0 && p > 0 && m % p == 0
    ensures x % m % p == x % p
  {
    var k, l := x / m, m / p;
    assert m == l * p && x == m * k + x % m;
    assert m * k == (l * k) * p;
    AddMultiple(x % m, l * k, p);
  }

  lemma WrappedProduct(a: int, b: int, p: int, h: int)
    requires 0 <= a < p && 0 <= b < p && h > 0
    requires p <= h || (h * h) % p == 0
    ensures (a * b) % (h * h) % p == (a * b) % p
  {
    if p <= h {
      MulMono(a, b, h - 1);
      MulMono(h - 1, a, h - 1);
      assert 0 <= a * b < h * h;
      SmallMod(a * b, h * h);
    } else {
      ReduceTwice(a * b, h * h, p);
    }
  }

  /** A modulus above `h` that does not divide `h * h` has reduced operands whose product wraps once, and shows it. */
  lemma ProductWrapsBadly(p: int, h: int) returns (a: int, b: int)
    requires 0 < h < p < h * h && (h * h) % p != 0
    ensures 0 <= a < p && 0 <= b < p
    ensures (a * b) % (h * h) % p != (a * b) % p
  {
    var m := h * h;
    a := p - 1;
    b := (m + a - 1) / a;
    var r := (m + a - 1) % a;
    assert a * b == m + a - 1 - r by {
      assert m + a - 1 == a * b + r;
    }
    assert m <= a * b < m + a;
    assert b <= h by {
      if b >= h + 1 {
        MulMono(a, h + 1, b);
        MulMono(h, h, a);
      }
    }
    assert b >= 0 by {
      if b <= -1 {
        MulMono(a, b, -1);
      }
    }
    DivModUnique(a * b, 1, a * b - m, m);
    CongFromDiff(a * b - m, a * b, p);
    CongFromDiff(0, m, p);
    CongZero(m, p);
    assert a * b - m - a * b == 0 - m;
  }

  /** The 128-bit product is exact for all operands for exactly these moduli. */
  lemma ModMulExactIff(p: u128)
    requires p > 1
    ensures (forall a: u128, b: u128 :: ModMul(a, b, p) == (a * b) % p) <==> p <= TWO64 || TWO128 % p == 0
  {
    if !(p <= TWO64 || TWO128 % p == 0) {
      assert TWO64 * TWO64 == TWO128;
      var a, b := ProductWrapsBadly(p, TWO64);
      SmallMod(a, p);
      SmallMod(b, p);
      assert ModMul(a, b, p) != (a * b) % p;
    }
  }

  /** The 128-bit sum is exact for all operands for exactly these moduli. */
  lemma ModAddExactIff(p: u128)
    requires p > 1
    ensures (forall a: u128, b: u128 :: ModAdd(a, b, p) == (a + b) % p) <==> p <= TWO127
  {
    if p > TWO127 {
      var a: u128 := p - 1;
      SmallMod(a, p);
      DivModUnique(a + a, 1, p - 2, p);
      DivModUnique(a + a, 1, a + a - TWO128, TWO128);
      SmallMod(a + a - TWO128, p);
      assert ModAdd(a, a, p) != (a + a) % p;
    }
  }

  /** No intermediate product leaves 128 bits exactly when the modulus is at most `2^64`. */
  lemma ProductFitsIff(p: u128)
    requires p > 1
    ensures (forall a: u128, b: u128 :: (a % p) * (b % p) < TWO128) <==> p <= TWO64
  {
    if p <= TWO64 {
      forall a: u128, b: u128
        ensures (a % p) * (b % p) < TWO128
      {
        MulMono(a % p, b % p, TWO64 - 1);
      }
    } else {
      var a: u128 := p - 1;
      SmallMod(a, p);
      MulMono(a, TWO64, a);
      assert (a % p) * (a % p) >= TWO128;
    }
  }

  /** What square-and-multiply makes of `r` and the powers of `b`, wrapping included. */
  function WordPow(r: u128, b: u128, e: nat, p: u128): u128
    requires p > 0
    decreases e
  {
    if e == 0 then r
    else WordPow(if e % 2 == 1 then ModMul(r, b, p) else r, ModMul(b, b, p), e / 2, p)
  }

  lemma {:induction false} WordPowExact(r: u128, b: u128, e: nat, p: u128)
    requires p > 0 && r < p && Exact(p)
    ensures WordPow(r, b, e, p) == (r * Pow(b, e)) % p
    decreases e
  {
    if e == 0 {
      assert r * Pow(b, 0) == r;
      SmallMod(r, p);
    } else {
      hide Exact, ModMul, Pow;
      var r', b' := if e % 2 == 1 then ModMul(r, b, p) else r, ModMul(b, b, p);
      PowStep(r, b, e, p, r', b');
      WordPowExact(r', b', e / 2, p);
    }
  }

  /** Square-and-multiply on 128-bit words. */
  method ModPow(base: u128, exp: u128, p: u128) returns (r: u128)
    requires p > 1
    ensures r < p && r == WordPow(1, base % p, exp, p)
    ensures Exact(p) ==> r == Pow(base, exp) % p
  {
    var b: u128 := base % p;
    var e := exp;
    r := 1;
    while e > 0
      invariant r < p && WordPow(r, b, e, p) == WordPow(1, base % p, exp, p)
    {
      if e % 2 == 1 {
        r := ModMul(r, b, p);
      }
      b := ModMul(b, b, p);
      e := e / 2;
    }
    if Exact(p) {
      WeightExact(base, exp, p);
    }
  }

  /** One round of square-and-multiply keeps the residue of `r * b^e`. */
  lemma PowStep(r: int, b: int, e: nat, p: int, r': int, b': int)
    requires p > 0 && e > 0
    requires b' == (b * b) % p
    requires r' == if e % 2 == 1 then (r * b) % p else r
    ensures Cong(r' * Pow(b', e / 2), r * Pow(b, e), p)
  {
    hide Pow;
    var h := Pow(b * b, e / 2);
    var f := if e % 2 == 1 then b else 1;
    CongSelf(b * b, p);
    CongPow(b', b * b, e / 2, p);
    CongSelf(r * b, p);
    assert r * 1 == r;
    CongMul(r', r * f, Pow(b', e / 2), h, p);
    PowHalve(b, e);
    assert r * f * h == r * (h * f);
  }

  // ----- digests as the words compute them

  /** The digest with every weight computed afresh, wrapping included. */
  function SlowDigest(e: nat -> nat, xs: seq<u128>, q: u128, p: u128, s: nat): u128
    requires p > 1
  {
    if xs == [] then 0
    else
      var i := |xs| - 1;
      ModAdd(SlowDigest(e, xs[..i], q, p, s), ModMul(xs[i], WordPow(1, q % p, e(s + i), p), p), p)
  }

  lemma SlowDigestLast(e: nat -> nat, xs: seq<u128>, q: u128, p: u128, s: nat)
    requires p > 1 && xs != []
    ensures var i := |xs| - 1;
      SlowDigest(e, xs, q, p, s)
        == ModAdd(SlowDigest(e, xs[..i], q, p, s), ModMul(xs[i], WordPow(1, q % p, e(s + i), p), p), p)
  {
    hide ModAdd, ModMul, WordPow;
  }

  lemma {:induction false} SlowDigestExact(e: nat -> nat, xs: seq<u128>, q: u128, p: u128, s: nat)
    requires p > 1 && Exact(p)
    ensures SlowDigest(e, xs, q, p, s) == Digest(e, xs, q, p, s)
    decreases |xs|
  {
    if xs != [] {
      hide Exact, Pow, ModAdd, ModMul, WordPow, SlowDigest, Digest;
      var i := |xs| - 1;
      var w := Pow(q, e(s + i)) % p;
      SlowDigestExact(e, xs[..i], q, p, s);
      SlowDigestLast(e, xs, q, p, s);
      DigestExtend(e, xs, i, q, p, s);
      assert xs[..i + 1] == xs;
      WeightExact(q, e(s + i), p);
      MultiplyAddExact(SlowDigest(e, xs[..i], q, p, s), xs[i], w, p);
    }
  }

  lemma WeightExact(q: u128, e: nat, p: u128)
    requires p > 1 && Exact(p)
    ensures WordPow(1, q % p, e, p) == Pow(q, e) % p
  {
    hide Pow, WordPow, Exact;
    WordPowExact(1, q % p, e, p);
    CongSelf(q, p);
    CongPow(q % p, q, e, p);
  }

  /** For a modulus that is not exact: a base and an entry at position one whose weighted entry comes out wrong. */
  lemma WrongProduct(p: u128) returns (q: u128, x: u128)
    requires p > 1 && !Exact(p)
    ensures 0 < q < p && x < p && ModMul(x, q, p) != (x * q) % p
  {
    assert TWO64 * TWO64 == TWO128;
    q, x := ProductWrapsBadly(p, TWO64);
    SmallMod(q, p);
    SmallMod(x, p);
    if q == 0 {
      SmallMod(0, TWO128);
    }
    assert q * x == x * q;
  }

  /** The digest of a zero entry and one more is the second entry times the base, in exact arithmetic. */
  lemma SecondEntryDigest(e: nat -> nat, x: int, q: int, p: int)
    requires p > 0 && e(1) == 1
    ensures Digest(e, [0, x], q, p, 0) == (x * q) % p
  {
    assert [0, x] == [0] + [x];
    WeightedConcat(e, [0], [x], q, 0);
    WeightedSingle(e, 0, q, 0);
    WeightedSingle(e, x, q, 1);
    assert Pow(q, 1) == q * Pow(q, 0) == q;
    hide Digest, Weighted, Pow;
    DigestIsWeighted(e, [0, x], q, p, 0);
  }

  /** Multiplying by one and adding to zero leave residues as they are, for every modulus. */
  lemma NeutralOperands(m: u128, p: u128)
    requires m < p && p > 1
    ensures ModMul(1, m, p) == m && ModAdd(0, m, p) == m && ModMul(0, m, p) == 0 && ModMul(m, 0, p) == 0
  {
    SmallMod(m, p);
    SmallMod(m, TWO128);
    SmallMod(1, p);
    SmallMod(0, p);
    SmallMod(0, TWO128);
  }

  ghost predicate SlowDigestRight(e: nat -> nat, p: u128)
    requires p > 1
  {
    forall xs: seq<u128>, q: u128 :: SlowDigest(e, xs, q, p, 0) == Digest(e, xs, q, p, 0)
  }

  /** The slow digest is right for every stream and base exactly for the exact moduli. */
  lemma SlowDigestRightIff(e: nat -> nat, p: u128)
    requires p > 1 && e(1) == 1
    ensures SlowDigestRight(e, p) <==> Exact(p)
  {
    if Exact(p) {
      forall xs: seq<u128>, q: u128
        ensures SlowDigest(e, xs, q, p, 0) == Digest(e, xs, q, p, 0)
      {
        SlowDigestExact(e, xs, q, p, 0);
      }
    } else {
      var q, x := WrongProduct(p);
      var xs: seq<u128> := [0, x];
      SlowSecondEntry(e, x, q, p);
      SecondEntryDigest(e, x, q, p);
      assert SlowDigest(e, xs, q, p, 0) != Digest(e, xs, q, p, 0);
    }
  }

  lemma SlowSecondEntry(e: nat -> nat, x: u128, q: u128, p: u128)
    requires p > 1 && 0 < q < p && e(1) == 1
    ensures SlowDigest(e, [0, x], q, p, 0) == ModMul(x, q, p)
  {
    var w0, w1 := WordPow(1, q % p, e(0), p), WordPow(1, q % p, e(1), p);
    assert w1 == q by {
      SmallMod(q, p);
      NeutralOperands(q, p);
      assert w1 == WordPow(ModMul(1, q, p), ModMul(q, q, p), 0, p);
    }
    hide WordPow;
    assert SlowDigest(e, [0], q, p, 0) == 0 by {
      NeutralProduct(w0, p);
      NeutralOperands(0, p);
      hide ModMul, ModAdd;
      SlowDigestLast(e, [0], q, p, 0);
      assert [0][..0] == [];
    }
    NeutralOperands(ModMul(x, q, p), p);
    hide ModMul, ModAdd, SlowDigest;
    SlowDigestLast(e, [0, x], q, p, 0);
    assert [0, x][..1] == [0];
  }

  lemma NeutralProduct(w: u128, p: u128)
    requires p > 0
    ensures ModMul(0, w, p) == 0
  {
    SmallMod(0, p);
    SmallMod(0, TWO128);
  }
}
