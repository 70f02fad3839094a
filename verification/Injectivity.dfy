/** Small entries make the digest a positional numeral: no two traces collide at all. */
module Injectivity {
  import opened Modular
  import opened Polynomial
  import opened Accumulator

  /** Every entry is a digit in base `q`. */
  ghost predicate Digits(w: seq<int>, q: int) {
    forall i :: 0 <= i < |w| ==> 0 <= w[i] < q
  }

  /** A numeral stays below the next power of its base. */
  lemma {:induction false} NumeralBound(e: nat -> nat, w: seq<int>, q: int, k: nat)
    requires StrictlyIncreasing(e) && q > 0 && Digits(w, q) && |w| <= k
    ensures 0 <= Weighted(e, w, q, 0) < Pow(q, e(k))
  {
    PowPositive(q, e(k));
    if w != [] {
      var i := |w| - 1;
      NumeralBound(e, w[..i], q, i);
      PowPositive(q, e(i));
      TopDigit(Weighted(e, w[..i], q, 0), w[i], Pow(q, e(i)), q);
      assert e(i) < e(k);
      assert Pow(q, e(i) + 1) == q * Pow(q, e(i));
      PowMono(q, e(i) + 1, e(k));
    }
  }

  lemma TopDigit(u: int, x: int, b: int, q: int)
    requires 0 <= u < b && 0 <= x < q
    ensures 0 <= u + x * b < q * b
  {
    MulMono(b, x, q - 1);
    assert q * b == (q - 1) * b + b;
  }

  /** Two numerals of the same length with the same value have the same digits. */
  lemma {:induction false} NumeralUnique(e: nat -> nat, w: seq<int>, w2: seq<int>, q: int)
    requires StrictlyIncreasing(e) && q > 0 && |w| == |w2| && Digits(w, q) && Digits(w2, q)
    requires Weighted(e, w, q, 0) == Weighted(e, w2, q, 0)
    ensures w == w2
  {
    if w != [] {
      var i := |w| - 1;
      NumeralBound(e, w[..i], q, i);
      NumeralBound(e, w2[..i], q, i);
      DivModUnique(Weighted(e, w, q, 0), w[i], Weighted(e, w[..i], q, 0), Pow(q, e(i)));
      DivModUnique(Weighted(e, w2, q, 0), w2[i], Weighted(e, w2[..i], q, 0), Pow(q, e(i)));
      NumeralUnique(e, w[..i], w2[..i], q);
      assert w == w[..i] + [w[i]] && w2 == w2[..i] + [w2[i]];
    }
  }

  lemma {:induction false} WeightedZeros(e: nat -> nat, n: nat, q: int, s: nat)
    ensures Weighted(e, Zeros(n), q, s) == 0
  {
    if n != 0 {
      WeightedZeros(e, n - 1, q, s);
      assert Zeros(n)[..n - 1] == Zeros(n - 1);
    }
  }

  /**
   * Traces whose numerals fit below the modulus collide exactly when the longer
   * one is the shorter one followed by zeros.
   */
  lemma CollideIffZeroPadded(e: nat -> nat, u: seq<int>, v: seq<int>, q: int, p: int)
    requires StrictlyIncreasing(e) && q > 0 && p > 0 && |u| <= |v|
    requires Digits(u, q) && Digits(v, q)
    requires Weighted(e, u, q, 0) < p && Weighted(e, v, q, 0) < p
    ensures Digest(e, u, q, p, 0) == Digest(e, v, q, p, 0) <==> v == u + Zeros(|v| - |u|)
  {
    hide Weighted, Digest;
    var pad := u + Zeros(|v| - |u|);
    WeightedConcat(e, u, Zeros(|v| - |u|), q, 0);
    WeightedZeros(e, |v| - |u|, q, |u|);
    NumeralBound(e, u, q, |u|);
    NumeralBound(e, v, q, |v|);
    DigestIsWeighted(e, u, q, p, 0);
    DigestIsWeighted(e, v, q, p, 0);
    SmallMod(Weighted(e, u, q, 0), p);
    SmallMod(Weighted(e, v, q, 0), p);
    if Weighted(e, u, q, 0) == Weighted(e, v, q, 0) {
      NumeralUnique(e, pad, v, q);
    }
  }

  /** Value of the trace of `n` entries that are all `b`, the largest with entries up to `b`. */
  ghost function Capacity(e: nat -> nat, b: nat, n: nat, q: int): int {
    Weighted(e, seq(n, _ => b), q, 0)
  }

  lemma CapacityStep(e: nat -> nat, b: nat, n: nat, q: int)
    requires n > 0
    ensures Capacity(e, b, n, q) == Capacity(e, b, n - 1, q) + b * Pow(q, e(n - 1))
  {
    var full := seq(n, _ => b);
    assert full[..n - 1] == seq(n - 1, _ => b) && 0 + (n - 1) == n - 1;
    WeightedLast(e, full, q, 0);
  }

  lemma {:induction false} CapacityBounds(e: nat -> nat, w: seq<int>, b: nat, n: nat, q: int)
    requires q > 0 && |w| <= n && forall i :: 0 <= i < |w| ==> 0 <= w[i] <= b
    ensures Weighted(e, w, q, 0) <= Capacity(e, b, n, q)
    decreases n
  {
    if n != 0 {
      CapacityStep(e, b, n, q);
      PowPositive(q, e(n - 1));
      if |w| == n {
        WeightedLast(e, w, q, 0);
        assert 0 + (n - 1) == n - 1;
      }
      hide Weighted, Pow, Capacity;
      var shorter := if |w| == n then w[..n - 1] else w;
      CapacityBounds(e, shorter, b, n - 1, q);
      TermBound(Weighted(e, shorter, q, 0), Capacity(e, b, n - 1, q),
                if |w| == n then w[n - 1] else 0, b, Pow(q, e(n - 1)));
    }
  }

  lemma TermBound(u: int, v: int, x: int, b: int, m: int)
    requires u <= v && 0 <= x <= b && m >= 0
    ensures u + x * m <= v + b * m
  {
  }

  /**
   * Entries up to `b < q` and a modulus above the largest numeral: equal digests
   * mean equal traces, for every length.
   */
  lemma BoundedCollisionFree(e: nat -> nat, u: seq<int>, v: seq<int>, b: nat, n: nat, q: int, p: int)
    requires StrictlyIncreasing(e) && b < q && Capacity(e, b, n, q) < p
    requires |u| == |v| <= n
    requires forall i :: 0 <= i < |u| ==> 0 <= u[i] <= b && 0 <= v[i] <= b
    ensures p > 0
    ensures Digest(e, u, q, p, 0) == Digest(e, v, q, p, 0) <==> u == v
  {
    CapacityBounds(e, u, b, n, q);
    CapacityBounds(e, v, b, n, q);
    NumeralBound(e, u, q, |u|);
    CollideIffZeroPadded(e, u, v, q, p);
    assert u + Zeros(0) == u;
  }

  /** For triangular exponents the numerals of two and three entries are the ones the short-length theorems name. */
  lemma ShortNumerals(a: int, b: int, c: int, bound: nat, q: int)
    ensures Weighted(Triangular, [a, b], q, 0) == a + b * q
    ensures Weighted(Triangular, [a, b, c], q, 0) == a + b * q + c * (q * q * q)
    ensures Capacity(Triangular, bound, 2, q) == bound + bound * q
    ensures Capacity(Triangular, bound, 3, q) == bound + bound * q + bound * (q * q * q)
  {
    NumeralOfTwo(a, b, q);
    NumeralOfThree(a, b, c, q);
    NumeralOfTwo(bound, bound, q);
    NumeralOfThree(bound, bound, bound, q);
    assert seq(2, _ => bound) == [bound, bound] && seq(3, _ => bound) == [bound, bound, bound];
  }

  lemma NumeralOfTwo(a: int, b: int, q: int)
    ensures Weighted(Triangular, [a, b], q, 0) == a + b * q
  {
    assert Triangular(0) == 0 && Triangular(1) == 1;
    assert Pow(q, 0) == 1 && Pow(q, 1) == q * Pow(q, 0);
    WeightedLast(Triangular, [a, b], q, 0);
    assert [a, b][..1] == [a];
    WeightedSingle(Triangular, a, q, 0);
  }

  lemma NumeralOfThree(a: int, b: int, c: int, q: int)
    ensures Weighted(Triangular, [a, b, c], q, 0) == a + b * q + c * (q * q * q)
  {
    NumeralOfTwo(a, b, q);
    assert Triangular(2) == 3;
    assert Pow(q, 1) == q * Pow(q, 0) && Pow(q, 2) == q * Pow(q, 1) && Pow(q, 3) == q * Pow(q, 2);
    WeightedLast(Triangular, [a, b, c], q, 0);
    assert [a, b, c][..2] == [a, b];
  }

  // ----- edits that change the length

  lemma {:induction false} DigitsNonnegative(e: nat -> nat, w: seq<int>, q: int, s: nat)
    requires q > 0 && Digits(w, q)
    ensures Weighted(e, w, q, s) >= 0
  {
    if w != [] {
      var i := |w| - 1;
      DigitsNonnegative(e, w[..i], q, s);
      PowPositive(q, e(s + i));
      MulMono(Pow(q, e(s + i)), 0, w[i]);
    }
  }

  /** Cutting a tail changes the digest exactly when the tail holds a nonzero entry. */
  lemma TruncationDetected(e: nat -> nat, v: seq<int>, m: nat, q: int, p: int)
    requires StrictlyIncreasing(e) && q > 0 && m <= |v|
    requires Digits(v, q) && Weighted(e, v, q, 0) < p
    ensures p > 0
    ensures Digest(e, v[..m], q, p, 0) == Digest(e, v, q, p, 0) <==> forall i :: m <= i < |v| ==> v[i] == 0
  {
    assert v == v[..m] + v[m..];
    hide Weighted, Digest;
    WeightedConcat(e, v[..m], v[m..], q, 0);
    DigitsNonnegative(e, v[m..], q, m);
    NumeralBound(e, v, q, |v|);
    CollideIffZeroPadded(e, v[..m], v, q, p);
    if forall i :: m <= i < |v| ==> v[i] == 0 {
      assert v == v[..m] + Zeros(|v| - m);
    }
  }

  function Deleted(v: seq<int>, k: nat): seq<int>
    requires k < |v|
  {
    v[..k] + v[k + 1..]
  }

  function Inserted(v: seq<int>, k: nat, x: int): seq<int>
    requires k <= |v|
  {
    v[..k] + [x] + v[k..]
  }

  /** Moving nonnegative entries one position down does not raise their sum. */
  lemma {:induction false} ShiftDown(e: nat -> nat, w: seq<int>, q: int, s: nat)
    requires StrictlyIncreasing(e) && q > 0 && Digits(w, q)
    ensures Weighted(e, w, q, s) <= Weighted(e, w, q, s + 1)
  {
    if w != [] {
      var i := |w| - 1;
      ShiftDown(e, w[..i], q, s);
      WeightedLast(e, w, q, s);
      WeightedLast(e, w, q, s + 1);
      hide Weighted, Pow;
      assert e(s + i) < e(s + 1 + i);
      PowMono(q, e(s + i), e(s + 1 + i));
      MulMono(w[i], Pow(q, e(s + i)), Pow(q, e(s + 1 + i)));
    }
  }

  lemma DeletionLowers(e: nat -> nat, v: seq<int>, k: nat, q: int)
    requires StrictlyIncreasing(e) && q > 0 && k < |v| && Digits(v, q)
    ensures Weighted(e, Deleted(v, k), q, 0) <= Weighted(e, v, q, 0)
  {
    hide Weighted;
    WeightedSplit(e, v, k, k + 1, q, 0);
    WeightedConcat(e, v[..k], v[k + 1..], q, 0);
    DigitsNonnegative(e, v[k..k + 1], q, k);
    ShiftDown(e, v[k + 1..], q, k);
    assert 0 + k == k && 0 + (k + 1) == k + 1;
  }

  /** Shifting the entries after `k` down and padding with zero gives the same trace only when they are all zero. */
  lemma {:induction false} DeletedEqualsPadded(v: seq<int>, k: nat, i: nat)
    requires k < |v| && v == Deleted(v, k) + Zeros(1) && k <= i < |v|
    ensures v[i] == 0
    decreases |v| - i
  {
    var pad := Deleted(v, k) + Zeros(1);
    if i == |v| - 1 {
      assert pad[i] == 0;
    } else {
      assert pad[i] == v[i + 1];
      DeletedEqualsPadded(v, k, i + 1);
    }
  }

  /** Deleting entry `k` goes unseen exactly when it and everything after it is zero. */
  lemma DeletionDetected(e: nat -> nat, v: seq<int>, k: nat, q: int, p: int)
    requires StrictlyIncreasing(e) && q > 0 && k < |v|
    requires Digits(v, q) && Weighted(e, v, q, 0) < p
    ensures p > 0
    ensures Digest(e, Deleted(v, k), q, p, 0) == Digest(e, v, q, p, 0) <==> forall i :: k <= i < |v| ==> v[i] == 0
  {
    hide Weighted, Digest;
    DeletionLowers(e, v, k, q);
    NumeralBound(e, v, q, |v|);
    var u := Deleted(v, k);
    CollideIffZeroPadded(e, u, v, q, p);
    if v == u + Zeros(1) {
      forall i | k <= i < |v|
        ensures v[i] == 0
      {
        DeletedEqualsPadded(v, k, i);
      }
    }
    if forall i :: k <= i < |v| ==> v[i] == 0 {
      assert v == u + Zeros(1);
    }
  }

  /** Inserting `x` at `k` goes unseen exactly when `x` and everything from `k` on is zero. */
  lemma InsertionDetected(e: nat -> nat, v: seq<int>, k: nat, x: int, q: int, p: int)
    requires StrictlyIncreasing(e) && q > 0 && k <= |v|
    requires Digits(Inserted(v, k, x), q) && Weighted(e, Inserted(v, k, x), q, 0) < p
    ensures p > 0
    ensures Digest(e, Inserted(v, k, x), q, p, 0) == Digest(e, v, q, p, 0)
       <==> x == 0 && forall i :: k <= i < |v| ==> v[i] == 0
  {
    hide Weighted, Digest;
    var w := Inserted(v, k, x);
    assert Deleted(w, k) == v;
    DeletionDetected(e, w, k, q, p);
    assert w[k] == x && forall i :: k <= i < |v| ==> v[i] == w[k..][1..][i - k];
    if forall i :: k <= i < |w| ==> w[i] == 0 {
      forall i | k <= i < |v|
        ensures v[i] == 0
      {
        assert w[i + 1] == v[i];
      }
    }
  }
}
