/** The arithmetic behind mpz_gcdext: divisibility, greatest common divisors, the linear
    invariants of the binary algorithm and the removal of its accumulated power of two. */
module Gcd {
  import opened Limbs

  predicate Multiple(x: int, d: int) {
    if d == 0 then x == 0 else x % d == 0
  }

  /** g is the non-negative greatest common divisor of u and v in the divisibility order. */
  ghost predicate IsGcd(g: int, u: int, v: int) {
    g >= 0 && Multiple(u, g) && Multiple(v, g)
    && forall d: int {:trigger Multiple(g, d)} :: Multiple(u, d) && Multiple(v, d) ==> Multiple(g, d)
  }

  lemma MultipleOf(x: int, d: int, k: int)
    requires x == k * d
    ensures Multiple(x, d)
  {
    if d > 0 {
      DivModUnique(x, d, k, 0);
    } else if d < 0 {
      NegativeModulus(x, d);
      assert x == (0 - k) * (0 - d);
      DivModUnique(x, 0 - d, 0 - k, 0);
    }
  }

  lemma NegativeModulus(x: int, d: int)
    requires d < 0
    ensures x % d == x % (0 - d)
  {
    var q, r := x / d, x % d;
    assert x == d * q + r;
    assert x == (0 - q) * (0 - d) + r;
    DivModUnique(x, 0 - d, 0 - q, r);
  }

  lemma Factor(x: int, d: int) returns (k: int)
    requires Multiple(x, d)
    ensures x == k * d
  {
    if d == 0 {
      k := 0;
    } else {
      k := x / d;
      assert x == d * k + x % d;
    }
  }

  /** A common divisor divides every integer combination. */
  lemma CombinationDivides(d: int, u: int, v: int, s: int, t: int)
    requires Multiple(u, d) && Multiple(v, d)
    ensures Multiple(s * u + t * v, d)
  {
    var a := Factor(u, d);
    var b := Factor(v, d);
    assert s * (a * d) + t * (b * d) == (s * a + t * b) * d;
    MultipleOf(s * u + t * v, d, s * a + t * b);
  }

  /** A common divisor that is an integer combination is the greatest one. */
  lemma BezoutGcd(g: int, u: int, v: int, s: int, t: int)
    requires g >= 0 && Multiple(u, g) && Multiple(v, g) && g == s * u + t * v
    ensures IsGcd(g, u, v)
  {
    forall d: int | Multiple(u, d) && Multiple(v, d)
      ensures Multiple(g, d)
    {
      CombinationDivides(d, u, v, s, t);
    }
  }

  lemma GcdUnique(g: int, h: int, u: int, v: int)
    requires IsGcd(g, u, v) && IsGcd(h, u, v)
    ensures g == h
  {
    assert Multiple(g, h) && Multiple(h, g);
    var a := Factor(g, h);
    var b := Factor(h, g);
    if g < h {
      if a >= 1 { MulMono(1, a, h); } else { MulMono(a, 0, h); }
    } else if h < g {
      if b >= 1 { MulMono(1, b, g); } else { MulMono(b, 0, g); }
    }
  }

  lemma GcdSymmetric(g: int, u: int, v: int)
    requires IsGcd(g, u, v)
    ensures IsGcd(g, v, u)
  {
  }

  lemma AbsMultiple(x: int, d: int)
    ensures Multiple(Abs(x), d) <==> Multiple(x, d)
  {
    if Multiple(x, d) {
      var k := Factor(x, d);
      MultipleOf(0 - x, d, 0 - k);
    }
    if Multiple(0 - x, d) {
      var k := Factor(0 - x, d);
      MultipleOf(x, d, 0 - k);
    }
  }

  lemma GcdOfAbs(g: int, u: int, v: int)
    requires IsGcd(g, Abs(u), Abs(v))
    ensures IsGcd(g, u, v)
  {
    AbsMultiple(u, g);
    AbsMultiple(v, g);
    forall d: int | Multiple(u, d) && Multiple(v, d)
      ensures Multiple(g, d)
    {
      AbsMultiple(u, d);
      AbsMultiple(v, d);
    }
  }

  // ------------------------------------------------------------- the linear invariants

  /** u and v are the given combinations of a and b, with a determinant that is a power of two. */
  predicate Combines(u: int, v: int, a: int, b: int, ta: int, tb: int, sa: int, sb: int, det: int) {
    && u == ta * a + tb * b && v == sa * a + sb * b
    && ta >= 0 && tb >= 0 && sa >= 0 && sb >= 0
    && ta * sb - tb * sa == det
  }

  /** a := a - b keeps the combinations when the coefficients of b grow. */
  lemma CombinesSub(u: int, v: int, a: int, b: int, ta: int, tb: int, sa: int, sb: int, det: int)
    requires Combines(u, v, a, b, ta, tb, sa, sb, det)
    ensures Combines(u, v, a - b, b, ta, ta + tb, sa, sa + sb, det)
  {
    assert ta * (a - b) + (ta + tb) * b == ta * a + tb * b;
    assert sa * (a - b) + (sa + sb) * b == sa * a + sb * b;
    assert ta * (sa + sb) - (ta + tb) * sa == ta * sb - tb * sa;
  }

  /** Moving a factor from a to its coefficients multiplies the determinant. */
  lemma CombinesScale(u: int, v: int, a: int, b: int, ta: int, tb: int, sa: int, sb: int, det: int, p: nat, a': int)
    requires Combines(u, v, a, b, ta, tb, sa, sb, det) && a == a' * p
    ensures Combines(u, v, a', b, ta * p, tb, sa * p, sb, det * p)
  {
    assert ta * (a' * p) == (ta * p) * a' && sa * (a' * p) == (sa * p) * a';
    assert (ta * p) * sb - tb * (sa * p) == (ta * sb - tb * sa) * p;
    MulNonNeg(ta, p);
    MulNonNeg(sa, p);
  }

  /** When a is 0 or b, b divides both numbers and its multiple by det is a combination of them. */
  lemma CombinesEnd(u: int, v: int, a: int, b: int, ta: int, tb: int, sa: int, sb: int, det: int)
    requires Combines(u, v, a, b, ta, tb, sa, sb, det) && (a == 0 || a == b)
    ensures u == (tb + (if a == 0 then 0 else ta)) * b
    ensures v == (sb + (if a == 0 then 0 else sa)) * b
    ensures det * b == (0 - sa) * u + ta * v
  {
    Determinant(ta, tb, sa, sb, a, b);
    if a == b {
      assert ta * b + tb * b == (tb + ta) * b;
      assert sa * b + sb * b == (sb + sa) * b;
    }
  }

  lemma Determinant(ta: int, tb: int, sa: int, sb: int, a: int, b: int)
    ensures (0 - sa) * (ta * a + tb * b) + ta * (sa * a + sb * b) == (ta * sb - tb * sa) * b
  {
    Expand2(sa, ta, a, tb, b);
    Expand2(ta, sa, a, sb, b);
    assert (ta * sb - tb * sa) * b == (ta * sb) * b - (tb * sa) * b;
  }

  lemma Expand2(k: int, x: int, a: int, y: int, b: int)
    ensures k * (x * a + y * b) == (k * x) * a + (k * y) * b
  {
  }

  // -------------------------------------------------------------- eliminating the power

  /** One halving of the cofactors: both become even because U and V are not both even. */
  lemma HalveEven(U: int, V: int, s: int, t: int, p: int)
    requires U % 2 == 1 || V % 2 == 1
    requires s * U + t * V == 2 * p
    ensures var odd := s % 2 == 1 || t % 2 == 1;
      var s', t' := if odd then s - V else s, if odd then t + U else t;
      s' % 2 == 0 && t' % 2 == 0 && (s' / 2) * U + (t' / 2) * V == p
  {
    var odd := s % 2 == 1 || t % 2 == 1;
    var s', t' := if odd then s - V else s, if odd then t + U else t;
    ShiftedCombination(s, t, U, V);
    CofactorParity(U, V, s, t, p);
    HalfProducts(s' / 2, U, t' / 2, V);
  }

  lemma ShiftedCombination(s: int, t: int, U: int, V: int)
    ensures (s - V) * U + (t + U) * V == s * U + t * V
  {
  }

  lemma CofactorParity(U: int, V: int, s: int, t: int, p: int)
    requires U % 2 == 1 || V % 2 == 1
    requires s * U + t * V == 2 * p
    ensures s % 2 == 1 || t % 2 == 1 ==> (s - V) % 2 == 0 && (t + U) % 2 == 0
  {
    ProductParity(s, U);
    ProductParity(t, V);
    SumParity(s * U, t * V, p);
    ParityTable(s, t, U, V);
  }

  lemma ParityTable(s: int, t: int, U: int, V: int)
    requires U % 2 == 1 || V % 2 == 1
    requires (s % 2 == 1 && U % 2 == 1) <==> (t % 2 == 1 && V % 2 == 1)
    ensures s % 2 == 1 || t % 2 == 1 ==> (s - V) % 2 == 0 && (t + U) % 2 == 0
  {
  }

  lemma HalfProducts(s: int, U: int, t: int, V: int)
    ensures (2 * s) * U + (2 * t) * V == 2 * (s * U + t * V)
  {
  }

  lemma SumParity(x: int, y: int, p: int)
    requires x + y == 2 * p
    ensures x % 2 == y % 2
  {
  }

  lemma ProductParity(x: int, y: int)
    ensures (x * y) % 2 == if x % 2 == 1 && y % 2 == 1 then 1 else 0
  {
    var a, b := x / 2, y / 2;
    if x % 2 == 0 {
      assert x * y == 2 * (a * y);
    } else if y % 2 == 0 {
      assert x * y == 2 * (x * b);
    } else {
      assert x * y == 2 * (2 * (a * b) + a + b) + 1 by {
        assert (2 * a + 1) * (2 * b + 1) == 4 * (a * b) + 2 * a + 2 * b + 1;
      }
    }
  }

  // --------------------------------------------------------------- common divisors

  /** The pairs have the same common divisors. */
  ghost predicate SameDivisors(u: int, v: int, x: int, y: int) {
    forall d: int {:trigger Multiple(u, d)} {:trigger Multiple(x, d)} ::
      Multiple(u, d) && Multiple(v, d) <==> Multiple(x, d) && Multiple(y, d)
  }

  lemma SameTrans(u: int, v: int, x: int, y: int, a: int, b: int)
    requires SameDivisors(u, v, x, y) && SameDivisors(x, y, a, b)
    ensures SameDivisors(u, v, a, b)
  {
    forall d: int
      ensures Multiple(u, d) && Multiple(v, d) <==> Multiple(a, d) && Multiple(b, d)
    {
      assert Multiple(x, d) || !Multiple(x, d);
    }
  }

  lemma SameFlip(u: int, v: int, x: int, y: int)
    requires SameDivisors(u, v, x, y)
    ensures SameDivisors(u, v, y, x) && SameDivisors(v, u, x, y) && SameDivisors(x, y, u, v)
  {
    hide Multiple;
  }

  /** Adding a multiple of v to u changes no common divisor. */
  lemma SameSub(u: int, v: int, k: int)
    ensures SameDivisors(u, v, u - k * v, v)
  {
    forall d: int
      ensures Multiple(u, d) && Multiple(v, d) <==> Multiple(u - k * v, d) && Multiple(v, d)
    {
      if Multiple(v, d) {
        if Multiple(u, d) { CombinationDivides(d, u, v, 1, 0 - k); }
        if Multiple(u - k * v, d) { CombinationDivides(d, u - k * v, v, 1, k); }
        assert 1 * u + (0 - k) * v == u - k * v;
      }
    }
  }

  /** Next to an odd number, a factor of two is no common divisor. */
  lemma SameHalf(u: int, v: int)
    requires v % 2 == 1
    ensures SameDivisors(2 * u, v, u, v)
  {
    forall d: int
      ensures Multiple(2 * u, d) && Multiple(v, d) <==> Multiple(u, d) && Multiple(v, d)
    {
      if Multiple(v, d) {
        if Multiple(u, d) { CombinationDivides(d, u, 0, 2, 0) by { MultipleOf(0, d, 0); } }
        if Multiple(2 * u, d) { HalfMultiple(u, v, d); }
      }
    }
  }

  lemma HalfMultiple(u: int, v: int, d: int)
    requires v % 2 == 1 && Multiple(v, d) && Multiple(2 * u, d)
    ensures Multiple(u, d)
  {
    var a := Factor(v, d);
    var b := Factor(2 * u, d);
    ProductParity(a, d);
    ProductParity(b, d);
    var h := b / 2;
    assert 2 * (h * d) == (2 * h) * d;
    MultipleOf(u, d, h);
  }

  lemma {:induction false} SamePower(u: int, v: int, k: nat)
    requires v % 2 == 1
    ensures SameDivisors(u * Pow2(k), v, u, v)
  {
    if k > 0 {
      SamePower(u, v, k - 1);
      SameHalf(u * Pow2(k - 1), v);
      assert 2 * (u * Pow2(k - 1)) == u * Pow2(k);
      SameTrans(u * Pow2(k), v, u * Pow2(k - 1), v, u, v);
    } else {
      assert u * 1 == u;
    }
  }

  lemma GcdSame(g: int, u: int, v: int, x: int, y: int)
    requires SameDivisors(u, v, x, y) && IsGcd(g, x, y)
    ensures IsGcd(g, u, v)
  {
    assert Multiple(x, g) && Multiple(y, g);
  }

  lemma GcdSelf(g: int)
    requires g >= 0
    ensures IsGcd(g, g, g) && IsGcd(g, 0, g) && IsGcd(g, g, 0)
  {
    MultipleOf(g, g, 1);
    MultipleOf(0, g, 0);
  }

  lemma GcdTwice(g: int, u: int, v: int)
    requires IsGcd(g, u, v)
    ensures IsGcd(2 * g, 2 * u, 2 * v)
  {
    DoubleMultiple(u, g);
    DoubleMultiple(v, g);
    forall d: int | Multiple(2 * u, d) && Multiple(2 * v, d)
      ensures Multiple(2 * g, d)
    {
      if d % 2 == 1 {
        HalfMultiple(u, d, d) by { MultipleOf(d, d, 1); }
        HalfMultiple(v, d, d) by { MultipleOf(d, d, 1); }
        CombinationDivides(d, g, g, 1, 1);
      } else {
        var e := d / 2;
        UndoubleMultiple(u, e);
        UndoubleMultiple(v, e);
        DoubleMultiple(g, e);
      }
    }
  }

  lemma DoubleMultiple(x: int, d: int)
    requires Multiple(x, d)
    ensures Multiple(2 * x, 2 * d)
  {
    var k := Factor(x, d);
    assert 2 * (k * d) == k * (2 * d);
    MultipleOf(2 * x, 2 * d, k);
  }

  lemma UndoubleMultiple(x: int, e: int)
    requires Multiple(2 * x, 2 * e)
    ensures Multiple(x, e)
  {
    var k := Factor(2 * x, 2 * e);
    assert k * (2 * e) == 2 * (k * e);
    MultipleOf(x, e, k);
  }

  lemma {:induction false} GcdTimesPower(g: int, u: int, v: int, k: nat)
    requires IsGcd(g, u, v)
    ensures IsGcd(g * Pow2(k), u * Pow2(k), v * Pow2(k))
  {
    hide IsGcd;
    if k > 0 {
      GcdTimesPower(g, u, v, k - 1);
      GcdTwice(g * Pow2(k - 1), u * Pow2(k - 1), v * Pow2(k - 1));
      assert forall x: int {:trigger x * Pow2(k)} :: 2 * (x * Pow2(k - 1)) == x * Pow2(k);
    } else {
      assert forall x: int {:trigger x * Pow2(k)} :: x * Pow2(k) == x;
    }
  }
}
