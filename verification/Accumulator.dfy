/**
 * The position-weighted digest, for any exponent schedule: entry `i` of a chunk
 * that starts at position `s` is weighted by `q` to the power `e(s + i)`.
 */
module Accumulator {
  import opened Modular

  // ----- exponent schedules

  function Triangular(i: nat): nat {
    i * (i + 1) / 2
  }

  function Square(i: nat): nat {
    i * i
  }

  function Linear(i: nat): nat {
    i
  }

  ghost predicate StrictlyIncreasing(e: nat -> nat) {
    forall i, j :: i < j ==> e(i) < e(j)
  }

  lemma {:induction false} TriangularStep(i: nat)
    ensures Triangular(i + 1) == Triangular(i) + i + 1
  {
    assert (i + 1) * (i + 2) == i * (i + 1) + 2 * (i + 1);
  }

  lemma {:induction false} TriangularOrder(i: nat, j: nat)
    requires i < j
    ensures Triangular(i) < Triangular(j)
    decreases j
  {
    TriangularStep(j - 1);
    if i < j - 1 {
      TriangularOrder(i, j - 1);
    }
  }

  lemma SquareOrder(i: nat, j: nat)
    requires i < j
    ensures i * i < j * j
  {
    assert j * j == i * i + (j - i) * (j + i);
  }

  lemma SchedulesIncrease()
    ensures StrictlyIncreasing(Triangular) && StrictlyIncreasing(Square) && StrictlyIncreasing(Linear)
  {
    forall i: nat, j: nat | i < j
      ensures Triangular(i) < Triangular(j) && Square(i) < Square(j)
    {
      TriangularOrder(i, j);
      SquareOrder(i, j);
    }
  }

  // ----- the digest and the sum it reduces

  /** The digest reduced after every entry, as the recursive specification does. */
  function Digest(e: nat -> nat, xs: seq<int>, q: int, p: int, s: nat): int
    requires p > 0
  {
    if xs == [] then 0
    else
      var i := |xs| - 1;
      (Digest(e, xs[..i], q, p, s) + xs[i] * (Pow(q, e(s + i)) % p)) % p
  }

  /** The sum of weighted entries, never reduced. */
  function Weighted(e: nat -> nat, xs: seq<int>, q: int, s: nat): int {
    if xs == [] then 0
    else
      var i := |xs| - 1;
      Weighted(e, xs[..i], q, s) + xs[i] * Pow(q, e(s + i))
  }

  lemma DigestExtend(e: nat -> nat, xs: seq<int>, i: nat, q: int, p: int, s: nat)
    requires p > 0 && i < |xs|
    ensures Digest(e, xs[..i + 1], q, p, s) == (Digest(e, xs[..i], q, p, s) + xs[i] * (Pow(q, e(s + i)) % p)) % p
  {
    assert xs[..i + 1][..i] == xs[..i];
  }

  lemma {:induction false} DigestIsWeighted(e: nat -> nat, xs: seq<int>, q: int, p: int, s: nat)
    requires p > 0
    ensures Digest(e, xs, q, p, s) == Weighted(e, xs, q, s) % p
  {
    if xs == [] {
      SmallMod(0, p);
    } else {
      var i := |xs| - 1;
      DigestIsWeighted(e, xs[..i], q, p, s);
      CongMultiplyAdd(Weighted(e, xs[..i], q, s), xs[i], Pow(q, e(s + i)), p);
    }
  }

  lemma {:induction false} WeightedConcat(e: nat -> nat, a: seq<int>, b: seq<int>, q: int, s: nat)
    ensures Weighted(e, a + b, q, s) == Weighted(e, a, q, s) + Weighted(e, b, q, s + |a|)
  {
    if b == [] {
      assert a + b == a;
    } else {
      var i := |b| - 1;
      WeightedConcat(e, a, b[..i], q, s);
      assert (a + b)[..|a| + i] == a + b[..i];
      assert s + (|a| + i) == (s + |a|) + i;
    }
  }

  lemma WeightedLast(e: nat -> nat, xs: seq<int>, q: int, s: nat)
    requires xs != []
    ensures var i := |xs| - 1;
      Weighted(e, xs, q, s) == Weighted(e, xs[..i], q, s) + xs[i] * Pow(q, e(s + i))
  {
  }

  lemma WeightedSingle(e: nat -> nat, x: int, q: int, s: nat)
    ensures Weighted(e, [x], q, s) == x * Pow(q, e(s))
  {
    assert [x][..0] == [];
    assert Weighted(e, [], q, s) == 0;
  }

  /** The digest of a concatenation is the sum of the first digest and the second one shifted. */
  lemma Composition(e: nat -> nat, a: seq<int>, b: seq<int>, q: int, p: int, s: nat)
    requires p > 0
    ensures Digest(e, a + b, q, p, s) == (Digest(e, a, q, p, s) + Digest(e, b, q, p, s + |a|)) % p
  {
    WeightedConcat(e, a, b, q, s);
    DigestIsWeighted(e, a + b, q, p, s);
    DigestIsWeighted(e, a, q, p, s);
    DigestIsWeighted(e, b, q, p, s + |a|);
    CongSelf(Weighted(e, a, q, s), p);
    CongSelf(Weighted(e, b, q, s + |a|), p);
    CongAdd(Digest(e, a, q, p, s), Weighted(e, a, q, s), Digest(e, b, q, p, s + |a|), Weighted(e, b, q, s + |a|), p);
  }

  /** Only the residues of the base and of the entries matter. */
  lemma {:induction false} WeightedCong(e: nat -> nat, xs: seq<int>, ys: seq<int>, q: int, q': int, p: int, s: nat)
    requires p > 0 && |xs| == |ys| && Cong(q, q', p)
    requires forall i :: 0 <= i < |xs| ==> Cong(xs[i], ys[i], p)
    ensures Cong(Weighted(e, xs, q, s), Weighted(e, ys, q', s), p)
  {
    if xs != [] {
      var i := |xs| - 1;
      WeightedCong(e, xs[..i], ys[..i], q, q', p, s);
      CongPow(q, q', e(s + i), p);
      CongMul(xs[i], ys[i], Pow(q, e(s + i)), Pow(q', e(s + i)), p);
      CongAdd(Weighted(e, xs[..i], q, s), Weighted(e, ys[..i], q', s),
              xs[i] * Pow(q, e(s + i)), ys[i] * Pow(q', e(s + i)), p);
    }
  }

  lemma DigestCong(e: nat -> nat, xs: seq<int>, ys: seq<int>, q: int, q': int, p: int, s: nat)
    requires p > 0 && |xs| == |ys| && Cong(q, q', p)
    requires forall i :: 0 <= i < |xs| ==> Cong(xs[i], ys[i], p)
    ensures Digest(e, xs, q, p, s) == Digest(e, ys, q', p, s)
  {
    WeightedCong(e, xs, ys, q, q', p, s);
    DigestIsWeighted(e, xs, q, p, s);
    DigestIsWeighted(e, ys, q', p, s);
  }

  // ----- the difference of two traces

  function Diff(w: seq<int>, w2: seq<int>): (d: seq<int>)
    requires |w| == |w2|
    ensures |d| == |w| && forall i :: 0 <= i < |w| ==> d[i] == w[i] - w2[i]
  {
    seq(|w|, i requires 0 <= i < |w| => w[i] - w2[i])
  }

  /** The entries at positions `lo` to `hi`, `hi` excluded, agree modulo `p`. */
  ghost predicate AgreeMod(w: seq<int>, w2: seq<int>, p: int, lo: nat, hi: nat)
    requires p > 0 && hi <= |w| == |w2|
  {
    forall i :: lo <= i < hi ==> Cong(w[i], w2[i], p)
  }

  lemma {:induction false} WeightedDiff(e: nat -> nat, w: seq<int>, w2: seq<int>, q: int, s: nat)
    requires |w| == |w2|
    ensures Weighted(e, Diff(w, w2), q, s) == Weighted(e, w, q, s) - Weighted(e, w2, q, s)
  {
    if w != [] {
      hide Weighted, Pow;
      var i := |w| - 1;
      WeightedDiff(e, w[..i], w2[..i], q, s);
      assert Diff(w, w2)[..i] == Diff(w[..i], w2[..i]);
      WeightedLast(e, w, q, s);
      WeightedLast(e, w2, q, s);
      WeightedLast(e, Diff(w, w2), q, s);
      MulSub(Diff(w, w2)[i], w[i], w2[i], Pow(q, e(s + i)));
    }
  }

  lemma DigestDiff(e: nat -> nat, w: seq<int>, w2: seq<int>, q: int, p: int, s: nat)
    requires p > 0 && |w| == |w2|
    ensures Cong(Digest(e, w, q, p, s) - Digest(e, w2, q, p, s), Weighted(e, Diff(w, w2), q, s), p)
    ensures Digest(e, w, q, p, s) == Digest(e, w2, q, p, s) <==> Cong(Weighted(e, Diff(w, w2), q, s), 0, p)
  {
    hide Weighted, Digest;
    WeightedDiff(e, w, w2, q, s);
    DigestIsWeighted(e, w, q, p, s);
    DigestIsWeighted(e, w2, q, p, s);
    ResidueDifference(Weighted(e, w, q, s), Weighted(e, w2, q, s), p);
  }

  lemma ResidueDifference(a: int, b: int, p: int)
    requires p > 0
    ensures Cong(a % p - b % p, a - b, p) && (a % p == b % p <==> Cong(a - b, 0, p))
  {
    CongFromDiff(a, b, p);
    CongSelf(a, p);
    CongSelf(b, p);
    CongAdd(a % p, a, b % p, b, p);
  }

  /** The explicit difference polynomial, reduced after each of its first `k` terms. */
  function DiffPolySum(e: nat -> nat, w: seq<int>, w2: seq<int>, q: int, p: int, k: nat): int
    requires p > 0 && k <= |w| == |w2|
  {
    if k == 0 then 0
    else
      var i := k - 1;
      (DiffPolySum(e, w, w2, q, p, i) + (w[i] - w2[i]) * (Pow(q, e(i)) % p)) % p
  }

  lemma {:induction false} DiffPolyIsDigest(e: nat -> nat, w: seq<int>, w2: seq<int>, q: int, p: int, k: nat)
    requires p > 0 && k <= |w| == |w2|
    ensures DiffPolySum(e, w, w2, q, p, k) == Digest(e, Diff(w, w2)[..k], q, p, 0)
  {
    if k != 0 {
      DiffPolyIsDigest(e, w, w2, q, p, k - 1);
      assert Diff(w, w2)[..k][..k - 1] == Diff(w, w2)[..k - 1];
    }
  }

  /** The residue of the difference of two digests is the value of the difference polynomial. */
  lemma DiffPolyIsDigestDifference(e: nat -> nat, w: seq<int>, w2: seq<int>, q: int, p: int)
    requires p > 0 && |w| == |w2|
    ensures (Digest(e, w, q, p, 0) - Digest(e, w2, q, p, 0)) % p == DiffPolySum(e, w, w2, q, p, |w|)
  {
    hide Weighted, Digest, DiffPolySum;
    DiffPolyIsDigest(e, w, w2, q, p, |w|);
    assert Diff(w, w2)[..|w|] == Diff(w, w2);
    DigestIsWeighted(e, Diff(w, w2), q, p, 0);
    DigestDiff(e, w, w2, q, p, 0);
  }

  lemma {:induction false} WeightedVanishes(e: nat -> nat, d: seq<int>, q: int, p: int, s: nat)
    requires p > 0 && forall i :: 0 <= i < |d| ==> Cong(d[i], 0, p)
    ensures Cong(Weighted(e, d, q, s), 0, p)
  {
    if d != [] {
      var i := |d| - 1;
      WeightedVanishes(e, d[..i], q, p, s);
      CongScale(d[i], 0, Pow(q, e(s + i)), p);
      CongAdd(Weighted(e, d[..i], q, s), 0, d[i] * Pow(q, e(s + i)), 0, p);
    }
  }

  lemma SubSlice<T>(d: seq<T>, lo: nat, hi: nat, i: nat, j: nat)
    requires i <= j && lo + j <= hi <= |d|
    ensures d[lo..hi][i..j] == d[lo + i..lo + j]
  {
    var u, v := d[lo..hi][i..j], d[lo + i..lo + j];
    forall t | 0 <= t < |u|
      ensures u[t] == v[t]
    {
      assert u[t] == d[lo..hi][i + t];
    }
    assert u == v;
  }

  lemma WeightedSplit(e: nat -> nat, d: seq<int>, lo: nat, hi: nat, q: int, s: nat)
    requires lo <= hi <= |d|
    ensures Weighted(e, d, q, s)
         == Weighted(e, d[..lo], q, s) + Weighted(e, d[lo..hi], q, s + lo) + Weighted(e, d[hi..], q, s + hi)
  {
    hide Weighted;
    assert d == d[..hi] + d[hi..] && d[..hi] == d[..lo] + d[lo..hi];
    WeightedConcat(e, d[..hi], d[hi..], q, s);
    WeightedConcat(e, d[..lo], d[lo..hi], q, s);
  }

  lemma AgreeingPartVanishes(e: nat -> nat, w: seq<int>, w2: seq<int>, lo: nat, hi: nat, q: int, p: int, s: nat)
    requires p > 0 && lo <= hi <= |w| == |w2| && AgreeMod(w, w2, p, lo, hi)
    ensures Cong(Weighted(e, Diff(w, w2)[lo..hi], q, s), 0, p)
  {
    hide Residue, Weighted;
    var d := Diff(w, w2)[lo..hi];
    forall i | 0 <= i < |d|
      ensures Cong(d[i], 0, p)
    {
      assert Cong(w[lo + i], w2[lo + i], p);
      CongFromDiff(w[lo + i], w2[lo + i], p);
    }
    WeightedVanishes(e, d, q, p, s);
  }

  /** Traces that agree outside a window: only the window, kept at its position, moves the digest. */
  lemma WindowDiff(e: nat -> nat, w: seq<int>, w2: seq<int>, lo: nat, hi: nat, q: int, p: int, s: nat)
    requires p > 0 && lo <= hi <= |w| == |w2|
    requires AgreeMod(w, w2, p, 0, lo) && AgreeMod(w, w2, p, hi, |w|)
    ensures Cong(Weighted(e, Diff(w, w2), q, s), Weighted(e, Diff(w, w2)[lo..hi], q, s + lo), p)
  {
    hide Residue, Weighted, Digest;
    var d := Diff(w, w2);
    WeightedSplit(e, d, lo, hi, q, s);
    AgreeingPartVanishes(e, w, w2, 0, lo, q, p, s);
    AgreeingPartVanishes(e, w, w2, hi, |w|, q, p, s + hi);
    assert d[0..lo] == d[..lo] && d[hi..|w|] == d[hi..];
    CongDropZeros(Weighted(e, d[..lo], q, s), Weighted(e, d[lo..hi], q, s + lo), Weighted(e, d[hi..], q, s + hi), p);
  }

  /**
   * Window localisation: whole traces that agree modulo `p` outside `lo..hi`
   * differ in digest by exactly what their shifted windows differ by.
   */
  lemma WindowSufficient(e: nat -> nat, w: seq<int>, w2: seq<int>, lo: nat, hi: nat, q: int, p: int, s: nat)
    requires p > 0 && lo <= hi <= |w| == |w2|
    requires AgreeMod(w, w2, p, 0, lo) && AgreeMod(w, w2, p, hi, |w|)
    ensures Cong(Digest(e, w, q, p, s) - Digest(e, w2, q, p, s),
                 Digest(e, w[lo..hi], q, p, s + lo) - Digest(e, w2[lo..hi], q, p, s + lo), p)
    ensures Digest(e, w, q, p, s) == Digest(e, w2, q, p, s)
       <==> Digest(e, w[lo..hi], q, p, s + lo) == Digest(e, w2[lo..hi], q, p, s + lo)
  {
    hide Residue, Weighted, Digest;
    WindowDiff(e, w, w2, lo, hi, q, p, s);
    assert Diff(w, w2)[lo..hi] == Diff(w[lo..hi], w2[lo..hi]);
    DigestDiff(e, w, w2, q, p, s);
    DigestDiff(e, w[lo..hi], w2[lo..hi], q, p, s + lo);
  }
}
