/**
 * Polynomials with integer coefficients, lowest degree first, read modulo a
 * prime: the factor theorem and the bound on the number of roots.
 */
module Polynomial {
  import opened Modular

  function Eval(c: seq<int>, x: int): int {
    if c == [] then 0 else c[0] + x * Eval(c[1..], x)
  }

  /** Quotient of `c` on division by `X - r`. */
  function Quotient(c: seq<int>, r: int): (d: seq<int>)
    requires c != []
    ensures |d| == |c| - 1
  {
    if |c| == 1 then [] else [Eval(c[1..], r)] + Quotient(c[1..], r)
  }

  lemma {:induction false} QuotientLeading(c: seq<int>, r: int)
    requires |c| >= 2
    ensures Quotient(c, r)[|c| - 2] == c[|c| - 1]
  {
    if |c| == 2 {
      assert c[1..] == [c[1]];
      EvalSingle(c[1], r);
    } else {
      QuotientLeading(c[1..], r);
    }
  }

  /** Factor theorem: dividing by `X - r` leaves the value at `r` as remainder. */
  lemma {:induction false} FactorTheorem(c: seq<int>, r: int, x: int)
    requires c != []
    ensures Eval(c, x) == Eval(c, r) + (x - r) * Eval(Quotient(c, r), x)
  {
    if |c| == 1 {
      assert c[1..] == [];
      assert Eval(c, x) == c[0] && Eval(c, r) == c[0];
    } else {
      var t := c[1..];
      FactorTheorem(t, r, x);
      var u, v := Eval(t, r), Eval(Quotient(t, r), x);
      assert Quotient(c, r)[1..] == Quotient(t, r);
      assert Eval(Quotient(c, r), x) == u + x * v;
      assert Eval(c, x) == c[0] + x * (u + (x - r) * v);
      Rearrange(x, r, u, v);
    }
  }

  lemma Rearrange(x: int, r: int, u: int, v: int)
    ensures x * (u + (x - r) * v) == r * u + (x - r) * (u + x * v)
  {
  }

  /** Residues that are roots of `c` modulo `p`. */
  ghost function Roots(c: seq<int>, p: int): set<int>
    requires p > 0
  {
    set x | 0 <= x < p && Cong(Eval(c, x), 0, p)
  }

  /** Over a prime, a root of `c` other than `r` is a root of the quotient by `X - r`. */
  lemma OtherRoot(c: seq<int>, r: int, x: int, p: int)
    requires Prime(p) && c != []
    requires r in Roots(c, p) && x in Roots(c, p) && x != r
    ensures x in Roots(Quotient(c, r), p)
  {
    FactorTheorem(c, r, x);
    var v := Eval(Quotient(c, r), x);
    CongAdd(Eval(c, x), 0, Eval(c, r), 0, p);
    assert (x - r) * v == Eval(c, x) - Eval(c, r);
    Euclid(x - r, v, p);
    CongFromDiff(x, r, p);
    SmallMod(x, p);
    SmallMod(r, p);
  }

  /** A polynomial whose leading coefficient survives modulo a prime has no more roots than its degree. */
  lemma {:induction false} RootBound(c: seq<int>, p: int)
    requires Prime(p) && c != [] && !Cong(c[|c| - 1], 0, p)
    ensures |Roots(c, p)| <= |c| - 1
    decreases |c|
  {
    if |c| == 1 {
      assert c == [c[0]];
      forall x: int
        ensures Eval(c, x) == c[0]
      {
        EvalSingle(c[0], x);
      }
      assert Roots(c, p) == {};
    } else if r :| r in Roots(c, p) {
      var d := Quotient(c, r);
      QuotientLeading(c, r);
      RootBound(d, p);
      forall x | x in Roots(c, p)
        ensures x in {r} + Roots(d, p)
      {
        if x != r { OtherRoot(c, r, x, p); }
      }
      SubsetSize(Roots(c, p), {r} + Roots(d, p));
    }
  }

  lemma {:induction false} SubsetSize<T>(a: set<T>, b: set<T>)
    requires a <= b
    ensures |a| <= |b|
  {
    if a != {} {
      var x :| x in a;
      SubsetSize(a - {x}, b - {x});
    }
  }

  // ----- building blocks of sparse polynomials

  function Zeros(n: nat): (z: seq<int>)
    ensures |z| == n && forall i :: 0 <= i < n ==> z[i] == 0
  {
    seq(n, _ => 0)
  }

  lemma {:induction false} EvalZeros(n: nat, x: int)
    ensures Eval(Zeros(n), x) == 0
  {
    if n != 0 {
      assert Zeros(n)[1..] == Zeros(n - 1);
      EvalZeros(n - 1, x);
    }
  }

  lemma {:induction false} EvalConcat(a: seq<int>, b: seq<int>, x: int)
    ensures Eval(a + b, x) == Eval(a, x) + Pow(x, |a|) * Eval(b, x)
  {
    if a == [] {
      assert a + b == b;
    } else {
      assert (a + b)[1..] == a[1..] + b;
      EvalConcat(a[1..], b, x);
      var u, w, v := Eval(a[1..], x), Pow(x, |a| - 1), Eval(b, x);
      assert x * (u + w * v) == x * u + (x * w) * v by { MulAssoc(x, w, v); }
    }
  }

  lemma EvalSingle(d: int, x: int)
    ensures Eval([d], x) == d
  {
    assert [d][1..] == [];
    assert Eval([], x) == 0;
  }
}
