/** Division of two limbs by one and of three by two, with a precomputed inverse
    (mini-gmp.c: gmp_udiv_qrnnd_preinv, gmp_udiv_qr_3by2, mpn_invert_3by2). */
module Invert {
  import opened Limbs
  import opened Bits
  import opened Mpn

  // ------------------------------------------- the quotient estimate, in any base

  /** w = v + b where v is the inverse of the two-digit divisor d in base b:
      w == floor((b^3 - 1) / d). */
  predicate IsInverse(b: nat, d: nat, w: nat) {
    1 <= b * (b * b) - w * d <= d
  }

  /** b times the candidate remainder n - (q1 + 1)*d, where q1*b + q0 == w*u2 + u1. */
  lemma CandidateRemainder(b: int, d: int, w: int, u2: int, u1: int, u0: int, q1: int, q0: int)
    requires q1 * b + q0 == w * u2 + u1
    ensures var r := u2 * (b * b) + u1 * b + u0 - (q1 + 1) * d;
      b * r == u2 * (b * (b * b) - w * d) + u1 * (b * b - d) + u0 * b + q0 * d - b * d
  {
    var bb := b * b;
    var n := u2 * bb + u1 * b + u0;
    assert b * n == u2 * (b * bb) + u1 * bb + u0 * b by {
      Mul3(b, u2, bb);
      Mul3(b, u1, b);
    }
    assert b * ((q1 + 1) * d) == (q1 * b) * d + b * d by {
      assert (q1 + 1) * d == q1 * d + d;
      Mul3(b, q1, d);
    }
    assert (q1 * b) * d == (w * u2) * d + u1 * d - q0 * d by {
      assert (w * u2 + u1 - q0) * d == (w * u2) * d + u1 * d - q0 * d;
    }
    assert (w * u2) * d == u2 * (w * d) by { Mul3(w, u2, d); }
    assert u2 * (b * bb - w * d) == u2 * (b * bb) - u2 * (w * d);
    assert u1 * (bb - d) == u1 * bb - u1 * d;
    assert b * (n - (q1 + 1) * d) == b * n - b * ((q1 + 1) * d);
  }

  lemma Mul3(x: int, y: int, z: int)
    ensures x * (y * z) == y * (x * z) == (x * y) * z == (y * x) * z
  {
  }

  lemma DivLessEq(b: nat, x: int, y: int)
    requires b > 0 && b * x <= b * y
    ensures x <= y
  {
    if x > y {
      MulStrict(y, x, b);
    }
  }

  /** e*e + c*d is at most max(e, c) * (e + d). */
  lemma ConvexBound(e: nat, c: nat, d: nat, m: nat)
    requires e <= m && c <= m
    ensures e * e + c * d <= m * (e + d)
  {
    MulMono(e, m, e);
    MulMono(c, m, d);
    assert m * (e + d) == m * e + m * d;
  }

  lemma WideStepA(b: nat, d: nat, k: nat, e: nat, u2: nat, u1: nat, u0: nat, q0: nat, r: int)
    requires k <= d && u0 < b
    requires b * r == u2 * k + u1 * e + u0 * b + q0 * d - b * d
    ensures b * r <= u2 * d + u1 * e + (b * b - b) + q0 * d - b * d
  {
    MulMono(k, d, u2);
    MulMono(u0, b - 1, b);
  }

  lemma WideStepB(b: nat, d: nat, e: nat, u2: nat, u1: nat, q0: nat, r: int)
    requires b * r <= u2 * d + u1 * e + (b * b - b) + q0 * d - b * d
    ensures b * b * r <= (u2 * b + u1) * d + u1 * (b * e - d) + b * (b * b) - b * b + b * q0 * d - b * b * d
  {
    var s := u2 * d + u1 * e + (b * b - b) + q0 * d - b * d;
    MulMono(b * r, s, b);
    Mul3(b, b, r);
    WideIdentityB(b, d, e, u2, u1, q0);
  }

  lemma WideIdentityB(b: int, d: int, e: int, u2: int, u1: int, q0: int)
    ensures b * (u2 * d + u1 * e + (b * b - b) + q0 * d - b * d)
      == (u2 * b + u1) * d + u1 * (b * e - d) + b * (b * b) - b * b + b * q0 * d - b * b * d
  {
  }

  lemma WideIdentityD(b: int, e: int)
    ensures var d := b * b - e;
      (d - 1) * d + (b - 1) * (b * e - d) + b * (b * b) - b * b - b * b * d == e * e - b * b
  {
  }

  /** Upper bound when b*(b^2 - d) >= d. */
  lemma UpperWide(b: nat, d: nat, k: nat, u2: nat, u1: nat, u0: nat, q0: nat, r: int)
    requires b >= 2 && 0 < d < b * b && k <= d && u1 < b && u0 < b
    requires u2 * b + u1 < d && b * (b * b - d) >= d
    requires b * r == u2 * k + u1 * (b * b - d) + u0 * b + q0 * d - b * d
    ensures b * b * r <= (b * b - d) * (b * b - d) + b * q0 * d - b * b
  {
    var e := b * b - d;
    var x := u2 * b + u1;
    WideStepA(b, d, k, e, u2, u1, u0, q0, r);
    WideStepB(b, d, e, u2, u1, q0, r);
    MulMono(x, d - 1, d);
    MulMono(u1, b - 1, b * e - d);
    WideIdentityD(b, e);
  }

  lemma NarrowInverse(b: nat, d: nat, w: nat, e: nat)
    requires b >= 2 && d + e == b * b && 0 < e && b * e < d && IsInverse(b, d, w)
    ensures w == b && e < b && b * d == b * (b * b) - b * e
  {
    assert b * d == b * (b * b) - b * e by {
      assert b * (d + e) == b * d + b * e;
    }
    assert (b + 1) * d == b * d + d && (b - 1) * d == b * d - d;
    MulStrict(0, e, b);
    if w > b {
      MulMono(b + 1, w, d);
    } else if w < b {
      MulMono(w, b - 1, d);
    }
    if e >= b { MulMono(b, e, b); }
  }

  lemma NarrowStep(b: nat, d: nat, e: nat, x: nat, u0: nat, q0: nat, r: int)
    requires d + e == b * b && e < b && x < d && u0 < b
    requires b * r == x * e + u0 * b + q0 * d - b * d
    ensures b * r <= q0 * d - b
  {
    MulMono(x, d - 1, e);
    MulMono(u0, b - 1, b);
    assert (b - 1) * b == b * b - b;
    assert (d - 1) * e == d * e - e;
    assert d * e - b * d + d == d * (e - b + 1);
    MulMono(e - b + 1, 0, d);
  }

  /** Upper bound when b*(b^2 - d) < d: then the inverse is 0 and the error is small. */
  lemma UpperNarrow(b: nat, d: nat, e: nat, u2: nat, u1: nat, u0: nat, q0: nat, r: int)
    requires b >= 2 && 0 < e < b && d + e == b * b && u0 < b && u2 * b + u1 < d
    requires b * r == u2 * (b * e) + u1 * e + u0 * b + q0 * d - b * d
    ensures r <= q0 * b - 1
  {
    RegroupE(b, e, u2, u1);
    NarrowStep(b, d, e, u2 * b + u1, u0, q0, r);
    NarrowEnd(b, d, q0, r);
  }

  lemma RegroupE(b: int, e: int, u2: int, u1: int)
    ensures u2 * (b * e) + u1 * e == (u2 * b + u1) * e
  {
  }

  lemma NarrowEnd(b: nat, d: nat, q0: nat, r: int)
    requires b > 0 && d < b * b && b * r <= q0 * d - b
    ensures r <= q0 * b - 1
  {
    MulMono(d, b * b, q0);
    Mul3(q0, b, b);
    assert b * (q0 * b - 1) == b * (q0 * b) - b;
    DivLessEq(b, r, q0 * b - 1);
  }

  lemma WideQuotient(bb: nat, m: nat, r: int)
    requires bb > 0 && bb * r <= m * bb - bb
    ensures r <= m - 1
  {
    assert bb * (m - 1) == m * bb - bb;
    DivLessEq(bb, r, m - 1);
  }

  lemma WideEnd(b: nat, d: nat, e: nat, q0: nat, r: int)
    requires b >= 2 && d + e == b * b
    requires b * b * r <= e * e + b * q0 * d - b * b
    ensures r < e || r < q0 * b
  {
    var c := b * q0;
    var m := if e >= c then e else c;
    ConvexBound(e, c, d, m);
    WideQuotient(b * b, m, r);
  }

  /** The estimated quotient digit fits in one digit. */
  lemma QuotientDigit(b: nat, d: int, u2: nat, u1: nat, u0: nat, q1: nat)
    requires b > 0 && d > 0 && u0 < b && u2 * b + u1 < d
    requires u2 * (b * b) + u1 * b + u0 - (q1 + 1) * d >= -d
    ensures q1 < b
  {
    var x := u2 * b + u1;
    assert u2 * (b * b) + u1 * b == x * b by { Mul3(u2, b, b); }
    MulMono(x, d - 1, b);
    assert (d - 1) * b == d * b - b;
    assert (q1 + 1) * d == q1 * d + d;
    if q1 >= b { MulMono(b, q1, d); }
  }

  lemma LowerBounds(b: nat, d: int, q0: nat, r: int)
    requires b >= 2 && 0 < d < b * b && q0 < b
    requires b * r >= q0 * d - b * d
    ensures -d <= r && q0 * b - b * b < r
  {
    MulNonNeg(q0, d);
    assert b * (-d) == -(b * d);
    DivLessEq(b, -d, r);
    var g := b - q0;
    assert q0 * d - b * d == -(g * d);
    MulStrict(d, b * b, g);
    assert b * (q0 * b - b * b) == -(g * (b * b)) by {
      assert q0 * b - b * b == -(g * b);
      Mul3(b, g, b);
    }
    if r <= q0 * b - b * b {
      MulMono(r, q0 * b - b * b, b);
    }
  }

  /** The candidate quotient q1 + 1 is at most one too large; the low digit q0 bounds the
      candidate remainder tightly enough to tell from its residue whether it is negative. */
  lemma CandidateBounds(b: nat, d: int, w: nat, u2: nat, u1: nat, u0: nat, q1: nat, q0: nat, r: int)
    requires b >= 2 && b * b <= 2 * d && 0 < d < b * b && IsInverse(b, d, w)
    requires u1 < b && u0 < b && u2 * b + u1 < d
    requires q1 * b + q0 == w * u2 + u1 && q0 < b
    requires r == u2 * (b * b) + u1 * b + u0 - (q1 + 1) * d
    ensures -d <= r && q0 * b - b * b < r
    ensures r < b * b - d || r < q0 * b
    ensures q1 < b
  {
    var e, k := b * b - d, b * (b * b) - w * d;
    CandidateRemainder(b, d, w, u2, u1, u0, q1, q0);
    MulNonNeg(u2, k);
    MulNonNeg(u1, e);
    MulNonNeg(u0, b);
    LowerBounds(b, d, q0, r);
    QuotientDigit(b, d, u2, u1, u0, q1);
    if b * e >= d {
      UpperWide(b, d, k, u2, u1, u0, q0, r);
      WideEnd(b, d, e, q0, r);
    } else {
      NarrowInverse(b, d, w, e);
      assert k == b * e;
      UpperNarrow(b, d, e, u2, u1, u0, q0, r);
    }
  }

  // -------------------------------------------------- two-limb sums and differences

  const BB := 0x1_0000_0000_0000_0000

  /** gmp_add_ssaaaa */
  method AddSsaaaa(ah: Limb, al: Limb, bh: Limb, bl: Limb) returns (sh: Limb, sl: Limb)
    ensures var s := ah * B + al + bh * B + bl; sh * B + sl == if s >= BB then s - BB else s
  {
    var x := (al + bl) % B;
    sh := (ah + bh + Bool(x < al)) % B;
    sl := x;
  }

  /** gmp_sub_ddmmss */
  method SubDdmmss(ah: Limb, al: Limb, bh: Limb, bl: Limb) returns (sh: Limb, sl: Limb)
    ensures var s := ah * B + al - (bh * B + bl); sh * B + sl == if s < 0 then s + BB else s
  {
    var x := (al - bl) % B;
    sh := (ah - bh - Bool(al < bl)) % B;
    sl := x;
  }

  // ------------------------------------------------------- three limbs by two limbs

  /** What the limb arithmetic of gmp_udiv_qr_3by2 leaves in (r1, r0): the candidate
      remainder modulo B^2. */
  lemma CandidateResidue(n2: int, n1: int, n0: int, d1: int, d0: int, q: int, ra: int, rb: int, r: int)
    requires ra == (n1 - d1 * q) % B
    requires rb == (ra * B + n0 - (d1 * B + d0)) || rb == (ra * B + n0 - (d1 * B + d0)) + BB
    requires r == rb - d0 * q || r == rb - d0 * q + BB
    requires 0 <= r < BB
    ensures r == (n2 * BB + n1 * B + n0 - (q + 1) * (d1 * B + d0)) % BB
  {
    var t1 := (n1 - d1 * q) / B;
    var t2 := if rb == (ra * B + n0 - (d1 * B + d0)) then 0 else -1;
    var t3 := if r == rb - d0 * q then 0 else -1;
    var c := n2 * BB + n1 * B + n0 - (q + 1) * (d1 * B + d0);
    assert (q + 1) * (d1 * B + d0) == (d1 * q) * B + d0 * q + (d1 * B + d0);
    assert c == (n2 + t1 + t2 + t3) * BB + r;
    DivModUnique(c, BB, n2 + t1 + t2 + t3, r);
  }

  lemma ResidueOf(c: int, m: int, r: int)
    requires m > 0 && -m <= c < m && r == c % m
    ensures r == if c >= 0 then c else c + m
  {
    if c >= 0 {
      DivModUnique(c, m, 0, c);
    } else {
      DivModUnique(c, m, -1, c + m);
    }
  }

  predicate IsInverse3by2(d1: Limb, d0: Limb, di: Limb) {
    d1 >= HIGHBIT && IsInverse(B, d1 * B + d0, di + B)
  }

  /** gmp_udiv_qr_3by2: exact quotient limb and two-limb remainder of three limbs by two. */
  method UdivQr3by2(n2: Limb, n1: Limb, n0: Limb, d1: Limb, d0: Limb, dinv: Limb)
    returns (q: Limb, r1: Limb, r0: Limb)
    requires IsInverse3by2(d1, d0, dinv)
    requires n2 * B + n1 < d1 * B + d0
    ensures n2 * BB + n1 * B + n0 == q * (d1 * B + d0) + (r1 * B + r0)
    ensures r1 * B + r0 < d1 * B + d0
  {
    ghost var D := d1 * B + d0;
    var q0, t1, t0;
    q, q0 := UmulPpmm(n2, dinv);
    q, q0 := AddSsaaaa(q, q0, n2, n1);
    ghost var cand := n2 * BB + n1 * B + n0 - (q + 1) * D;
    EstimateDigits(n2, n1, n0, D, dinv, q, q0);
    r1 := (n1 - d1 * q) % B;
    ghost var ra := r1;
    r1, r0 := SubDdmmss(r1, n0, d1, d0);
    ghost var rb := r1 * B + r0;
    t1, t0 := UmulPpmm(d0, q);
    r1, r0 := SubDdmmss(r1, r0, t1, t0);
    CandidateResidue(n2, n1, n0, d1, d0, q, ra, rb, r1 * B + r0);
    ResidueOf(cand, BB, r1 * B + r0);
    ghost var qe, delta := q, 0;
    q, r1, r0, delta := Adjust3by2(q, r1, r0, q0, d1, d0, cand);
    AdjustedQuotient(n2 * BB + n1 * B + n0, D, qe, delta, q, r1 * B + r0);
  }

  lemma AdjustedQuotient(n: nat, D: int, qe: Limb, delta: int, q: Limb, r: int)
    requires 0 <= r < D && n < B * D && q == (qe + 1 + delta) % B && -1 <= delta <= 1
    requires r == n - (qe + 1) * D - (if delta == 0 then 0 else if delta == 1 then D else -D)
    ensures n == q * D + r
  {
    var Q := qe + 1 + delta;
    assert n == Q * D + r by {
      assert (qe + 1 + 1) * D == (qe + 1) * D + D && (qe + 1 - 1) * D == (qe + 1) * D - D;
    }
    QuotientRange(n, D, B, Q, r);
  }

  /** The end of gmp_udiv_qr_3by2: the candidate quotient q + 1 is corrected by delta, one of -1, 0, 1. */
  method Adjust3by2(qe: Limb, re1: Limb, re0: Limb, q0: Limb, d1: Limb, d0: Limb, ghost r: int)
    returns (q: Limb, r1: Limb, r0: Limb, ghost delta: int)
    requires d1 >= HIGHBIT
    requires var D := d1 * B + d0;
      && -D <= r && q0 * B - BB < r && (r < BB - D || r < q0 * B)
      && re1 * B + re0 == if r >= 0 then r else r + BB
    ensures -1 <= delta <= 1 && q == (qe + 1 + delta) % B
    ensures r1 * B + r0 == r - (if delta == 0 then 0 else if delta == 1 then d1 * B + d0 else -(d1 * B + d0))
    ensures r1 * B + r0 < d1 * B + d0
  {
    ghost var D := d1 * B + d0;
    delta := 0;
    r1, r0 := re1, re0;
    q := (qe + 1) % B;
    var below := r1 >= q0;
    QuotientMoves(qe + 1, q);
    q := (q + (if below then B - 1 else 0)) % B;
    r1, r0 := AddSsaaaa(r1, r0, if below then d1 else 0, if below then d0 else 0);
    if below {
      delta := -1;
      assert r1 * B + r0 == r + D;
    }
    if r1 >= d1 {
      if r1 > d1 || r0 >= d0 {
        QuotientMoves(qe + 1 + delta, q);
        q := (q + 1) % B;
        r1, r0 := SubDdmmss(r1, r0, d1, d0);
        delta := delta + 1;
      }
    }
  }

  lemma QuotientMoves(x: int, q: Limb)
    requires q == x % B
    ensures (q + 0) % B == x % B && (q + 1) % B == (x + 1) % B && (q + (B - 1)) % B == (x - 1) % B
  {
  }

  /** The two-limb sum dinv*n2 + (n2, n1) does not overflow, and its digits satisfy CandidateBounds. */
  lemma EstimateDigits(n2: Limb, n1: Limb, n0: Limb, D: int, dinv: Limb, q: Limb, q0: Limb)
    requires HIGHBIT * B <= D < BB && IsInverse(B, D, dinv + B)
    requires n2 * B + n1 < D
    requires var s := n2 * dinv + n2 * B + n1; q * B + q0 == if s >= BB then s - BB else s
    ensures var r := n2 * BB + n1 * B + n0 - (q + 1) * D;
      -D <= r && q0 * B - BB < r && (r < BB - D || r < q0 * B)
  {
    hide IsInverse;
    var w := dinv + B;
    var t := w * n2 + n1;
    assert w * n2 == n2 * dinv + n2 * B;
    MulNonNeg(w, n2);
    Estimate(D, w, n2, n1, n0);
    DigitsFit(t, q, q0);
    assert q == t / B && q0 == t % B;
  }

  lemma Estimate(D: int, w: nat, n2: Limb, n1: Limb, n0: Limb)
    requires HIGHBIT * B <= D < BB && IsInverse(B, D, w) && n2 * B + n1 < D
    ensures var t := w * n2 + n1;
      var r := n2 * BB + n1 * B + n0 - (t / B + 1) * D;
      -D <= r && t % B * B - BB < r && (r < BB - D || r < t % B * B) && 0 <= t / B < B
  {
    MulNonNeg(w, n2);
    var t: nat := w * n2 + n1;
    var q1, q0 := t / B, t % B;
    CandidateBounds(B, D, w, n2, n1, n0, q1, q0, n2 * BB + n1 * B + n0 - (q1 + 1) * D);
  }

  lemma DigitsFit(t: nat, q: Limb, q0: Limb)
    requires t / B < B && q * B + q0 == if t >= BB then t - BB else t
    ensures q == t / B && q0 == t % B
  {
    assert t < BB;
  }

  // --------------------------------------------------------- two limbs by one limb

  /** di + B == floor((B^2 - 1) / d) for a normalised d. */
  predicate IsInverse2by1(d: Limb, di: Limb) {
    d >= HIGHBIT && 1 <= BB - (di + B) * d <= d
  }

  lemma OneLimbCandidate(d: int, w: int, u1: int, u0: int, q1: int, q0: int)
    requires q1 * B + q0 == w * u1 + u0
    ensures var r := u1 * B + u0 - (q1 + 1) * d;
      B * r == u1 * (BB - w * d) + u0 * (B - d) + q0 * d - B * d
  {
    assert B * ((q1 + 1) * d) == (q1 * B) * d + B * d;
    assert (w * u1 + u0 - q0) * d == (w * u1) * d + u0 * d - q0 * d;
    Mul3(w, u1, d);
    assert u1 * (BB - w * d) == u1 * BB - u1 * (w * d);
    assert u0 * (B - d) == u0 * B - u0 * d;
  }

  lemma OneLimbUpper(d: nat, k: nat, u1: nat, u0: nat, q0: nat, r: int)
    requires 0 < d < B && k <= d && u1 < d && u0 < B
    requires B * r == u1 * k + u0 * (B - d) + q0 * d - B * d
    ensures r < B - d || r < q0
  {
    var e := B - d;
    MulMono(k, d, u1);
    MulMono(u1, d - 1, d);
    MulMono(u0, B - 1, e);
    assert (d - 1) * d + (B - 1) * e - B * d == e * e - B by {
      assert d * d == d * (B - e);
      assert e * e == (B - d) * e;
    }
    var m := if e >= q0 then e else q0;
    ConvexBound(e, q0, d, m);
  }

  /** For a quotient of two limbs by one: the analogue of CandidateBounds. */
  lemma OneLimbBounds(d: int, w: nat, u1: nat, u0: nat, q1: nat, q0: nat, r: int)
    requires HIGHBIT <= d < B && 1 <= BB - w * d <= d && u1 < d && u0 < B
    requires q1 * B + q0 == w * u1 + u0 && q0 < B
    requires r == u1 * B + u0 - (q1 + 1) * d
    ensures -d <= r && q0 - B < r && (r < B - d || r < q0)
    ensures q1 < B
  {
    OneLimbCandidate(d, w, u1, u0, q1, q0);
    MulNonNeg(u1, BB - w * d);
    MulNonNeg(u0, B - d);
    MulNonNeg(q0, d);
    OneLimbUpper(d, BB - w * d, u1, u0, q0, r);
    assert q0 * d - B * d == -((B - q0) * d);
    MulStrict(d, B, B - q0);
    assert (q1 + 1) * d == q1 * d + d;
    if q1 >= B { MulMono(B, q1, d); }
  }

  lemma OneLimbEstimate(nh: Limb, nl: Limb, d: Limb, di: Limb)
    requires IsInverse2by1(d, di) && nh < d
    ensures var t := nh * di + nh * B + nl;
      var r := nh * B + nl - (t / B + 1) * d;
      0 <= t / B < B && 0 <= r + d && t % B - B < r && (r < B - d || r < t % B)
  {
    var w := di + B;
    MulNonNeg(nh, di);
    var t: nat := nh * di + nh * B + nl;
    assert t == w * nh + nl;
    OneLimbBounds(d, w, nh, nl, t / B, t % B, nh * B + nl - (t / B + 1) * d);
  }

  lemma OneLimbResidue(nh: int, nl: int, d: int, qh: int, q1: int)
    requires qh == (q1 + 1) % B
    ensures (nl - qh * d) % B == (nh * B + nl - (q1 + 1) * d) % B
  {
    var m := (q1 + 1) / B;
    assert (q1 + 1) * d == qh * d + (m * d) * B;
    var x := nl - qh * d;
    DivModUnique(nh * B + nl - (q1 + 1) * d, B, x / B + nh - m * d, x % B);
  }

  lemma OneLimbDigits(t: nat, qh: Limb, ql: Limb)
    requires t / B < B && qh * B + ql == if t + B >= BB then t + B - BB else t + B
    ensures ql == t % B && qh == (t / B + 1) % B
  {
  }

  lemma OneLimbAdjusted(n: nat, d: Limb, q1: int, c: int, qh: Limb, delta: int, q: Limb, r: int)
    requires 0 <= r < d && n < B * d && qh == (q1 + 1) % B && q == (qh + delta) % B && -1 <= delta <= 1
    requires c == n - (q1 + 1) * d && r == c - (if delta == 0 then 0 else if delta == 1 then d else 0 - d)
    ensures n == q * d + r
  {
    var Q := q1 + 1 + delta;
    assert n == Q * d + r by {
      assert (q1 + 1 + 1) * d == (q1 + 1) * d + d && (q1 + 1 - 1) * d == (q1 + 1) * d - d;
    }
    WrapTwice(q1 + 1, delta, qh);
    QuotientRange(n, d, B, Q, r);
  }

  lemma WrapTwice(x: int, delta: int, y: Limb)
    requires y == x % B
    ensures (y + delta) % B == (x + delta) % B
  {
  }

  /** gmp_udiv_qrnnd_preinv: exact quotient and remainder of two limbs by one. */
  method UdivQrnndPreinv(nh: Limb, nl: Limb, d: Limb, di: Limb) returns (q: Limb, r: Limb)
    requires IsInverse2by1(d, di) && nh < d
    ensures nh * B + nl == q * d + r && r < d
  {
    hide IsInverse2by1;
    ghost var q1, c;
    var qh, ql;
    qh, ql, r, q1, c := QuotientCandidate(nh, nl, d, di);
    ghost var delta;
    q, r, delta := AdjustOneLimb(qh, ql, r, d, c);
    OneLimbAdjusted(nh * B + nl, d, q1, c, qh, delta, q, r);
  }

  /** Its start: the candidate quotient qh and the remainder modulo B that belongs to it. */
  method QuotientCandidate(nh: Limb, nl: Limb, d: Limb, di: Limb)
    returns (qh: Limb, ql: Limb, r: Limb, ghost q1: int, ghost c: int)
    requires IsInverse2by1(d, di) && nh < d
    ensures q1 == (nh * di + nh * B + nl) / B && ql == (nh * di + nh * B + nl) % B
    ensures HIGHBIT <= d && qh == (q1 + 1) % B && c == nh * B + nl - (q1 + 1) * d && r == c % B
    ensures 0 <= c + d && ql - B < c && (c < B - d || c < ql) && 0 <= nh * B + nl < B * d
  {
    assert d >= HIGHBIT;
    hide IsInverse2by1;
    qh, ql := UmulPpmm(nh, di);
    qh, ql := AddSsaaaa(qh, ql, nh + 1, nl);
    ghost var t := nh * di + nh * B + nl;
    OneLimbEstimate(nh, nl, d, di);
    MulNonNeg(nh, di);
    OneLimbDigits(t, qh, ql);
    q1 := t / B;
    c := nh * B + nl - (q1 + 1) * d;
    OneLimbResidue(nh, nl, d, qh, q1);
    r := (nl - qh * d) % B;
    NumeratorBound(nh, nl, d);
  }

  lemma NumeratorBound(nh: Limb, nl: Limb, d: Limb)
    requires nh < d
    ensures 0 <= nh * B + nl < B * d
  {
  }

  /** The end of gmp_udiv_qrnnd_preinv: the candidate quotient is corrected by delta. */
  method AdjustOneLimb(qe: Limb, ql: Limb, re: Limb, d: Limb, ghost c: int)
    returns (q: Limb, r: Limb, ghost delta: int)
    requires HIGHBIT <= d && re == c % B
    requires 0 <= c + d && ql - B < c && (c < B - d || c < ql)
    ensures -1 <= delta <= 1 && q == (qe + delta) % B
    ensures r == c - (if delta == 0 then 0 else if delta == 1 then d else 0 - d)
    ensures r < d
  {
    ResidueOf(c, B, re);
    q, r, delta := qe, re, 0;
    var mask := r > ql;
    q := (q + (if mask then B - 1 else 0)) % B;
    r := (r + (if mask then d else 0)) % B;
    if mask {
      delta := -1;
      assert r == c + d;
    }
    if r >= d {
      r := r - d;
      q := (q + 1) % B;
      delta := delta + 1;
    }
  }

  // ------------------------------------------------------------ computing the inverse

  /** First part of mpn_invert_3by2: the high half of the inverse of u1, by a 2/1 division
      of half limbs with at most two corrections. */
  method InvertHigh(u1: Limb) returns (qh: Limb, r: Limb)
    requires u1 >= HIGHBIT
    ensures qh < HALF && r < u1
    ensures (qh + HALF) * u1 + r == B * HALF - 1
  {
    var p;
    qh, r, p := HighCandidate(u1);
    ghost var q0 := qh;
    qh, r := InvertHighAdjust(u1, qh, r, p);
    InvertHighEnd(u1, q0, qh, r);
  }

  /** Its start: the quotient by the upper half of u1, the remainder and what the lower half takes
      off it. */
  method HighCandidate(u1: Limb) returns (qh: Limb, r: Limb, p: Limb)
    requires u1 >= HIGHBIT
    ensures qh < HALF && r < u1 && p <= 0xFFFE_0001 && (r < p ==> qh >= 2)
    ensures r - p == (B - 1 - u1) * HALF + HALF - 1 - qh * u1
  {
    hide LimbOr;
    var ul, uh := u1 % HALF, u1 / HALF;
    var nu := B - 1 - u1;
    InvertHighFacts(u1);
    qh := nu / uh;
    r := LimbOr((nu - qh * uh) * HALF % B, HALF - 1);
    SmallMod(qh * ul, B);
    p := qh * ul % B;
  }

  lemma InvertHighFacts(u1: Limb)
    requires u1 >= HIGHBIT
    ensures var ul, uh, nu := u1 % HALF, u1 / HALF, B - 1 - u1;
      var q := nu / uh;
      && 0 <= q < HALF && 0 <= q * ul <= 0xFFFE_0001 && 0 <= nu - q * uh < uh
      && LimbOr((nu - q * uh) * HALF % B, HALF - 1) == (nu - q * uh) * HALF + HALF - 1
      && q * u1 == (q * uh) * HALF + q * ul
      && ((nu - q * uh) * HALF + HALF - 1 < q * ul ==> q >= 2)
  {
    var ul, uh, nu := u1 % HALF, u1 / HALF, B - 1 - u1;
    hide LimbOr;
    var q, rest := nu / uh, nu % uh;
    DivModFacts(nu, uh);
    HighQuotient(nu, uh, q, rest);
    ProductBound(q, ul);
    HalfTimes(q, uh, ul);
    OrOnes(rest);
    SmallProducts(q, ul);
  }

  lemma HighQuotient(nu: int, uh: int, q: int, rest: int)
    requires nu == q * uh + rest && 0 <= rest < uh && 0 <= nu < HALF * uh && uh < HALF
    ensures 0 <= q < HALF && rest < HALF
  {
    if q >= HALF { MulMono(HALF, q, uh); }
    if q < 0 { MulMono(q, -1, uh); }
  }

  lemma SmallProducts(q: int, ul: int)
    ensures q == 1 ==> q * ul == ul
    ensures q == 0 ==> q * ul == 0
  {
  }

  lemma OrOnes(rest: nat)
    requires rest < HALF
    ensures LimbOr(rest * HALF % B, HALF - 1) == rest * HALF + HALF - 1
  {
    Pow2Of32();
    DivModUnique(rest * HALF, Pow2(16), rest, 0);
    LimbOrDisjoint(rest * HALF, HALF - 1, 16);
  }

  lemma InvertHighEnd(u1: Limb, q0: int, qh: int, r: int)
    requires q0 - 2 <= qh <= q0
    requires r == (B - 1 - u1) * HALF + HALF - 1 - q0 * u1
      + (if qh == q0 then 0 else if qh == q0 - 1 then u1 else 2 * u1)
    ensures (qh + HALF) * u1 + r == B * HALF - 1
  {
    assert (q0 - 1) * u1 == q0 * u1 - u1 && (q0 - 2) * u1 == q0 * u1 - 2 * u1;
    assert (qh + HALF) * u1 == qh * u1 + HALF * u1;
  }

  lemma HalfTimes(q: int, uh: int, ul: int)
    ensures q * (uh * HALF + ul) == (q * uh) * HALF + q * ul
  {
  }

  method InvertHighAdjust(u1: Limb, qe: Limb, re: Limb, p: Limb) returns (qh: Limb, r: Limb)
    requires u1 >= HIGHBIT && re < u1 && qe < HALF && p <= 0xFFFE_0001 && (re < p ==> qe >= 2)
    ensures qe - 2 <= qh <= qe && r < u1
    ensures r == re - p + (if qh == qe then 0 else if qh == qe - 1 then u1 else 2 * u1)
  {
    qh, r := qe, re;
    if r < p {
      qh := qh - 1;
      r := (r + u1) % B;
      if r >= u1 {
        if r < p {
          qh := qh - 1;
          r := (r + u1) % B;
        }
      }
    }
    r := (r - p) % B;
  }

  /** Second part: the low half, by a 3/2 division with half-limb digits, and the inverse of u1. */
  method InvertLow(u1: Limb, qh: Limb, re: Limb) returns (m: Limb, r: Limb)
    requires u1 >= HIGHBIT && qh < HALF && re < u1
    requires (qh + HALF) * u1 + re == B * HALF - 1
    ensures (m + B) * u1 + r == BB - 1 && r < u1
  {
    ghost var c;
    var ql, p0;
    ql, p0, r, c := LowCandidate(u1, qh, re);
    ghost var delta;
    m, r, delta := InvertLowAdjust(u1, qh, ql, p0, r, c);
    InvertLowEnd(u1, qh, re, ql, delta, m, r);
  }

  /** Its start: the candidate digit and the remainder modulo B that belongs to it. */
  method LowCandidate(u1: Limb, qh: Limb, re: Limb) returns (ql: Limb, p0: Limb, r: Limb, ghost c: int)
    requires u1 >= HIGHBIT && qh < HALF && re < u1
    requires (qh + HALF) * u1 + re == B * HALF - 1
    ensures 1 <= ql <= HALF && c == re * HALF + HALF - 1 - ql * u1
    ensures 0 <= c + u1 && p0 - B < c && (c < B - u1 || c < p0)
    ensures r == if c >= 0 then c else c + B
  {
    InvertLowEstimate(u1, qh, re);
    ghost var P := re / HALF * qh + re;
    SmallMod(P, B);
    var p := (re / HALF * qh + re) % B;
    ql := p / HALF + 1;
    p0 := p * HALF % B;
    c := re * HALF + HALF - 1 - ql * u1;
    LowResidue(re, ql * u1, c);
    r := (re * HALF % B + HALF - 1 - ql * u1) % B;
  }

  lemma SmallMod(x: int, d: int)
    requires 0 <= x < d
    ensures x % d == x
  {
  }

  /** The corrections of the second part: the candidate quotient changes by delta. */
  method InvertLowAdjust(u1: Limb, qh: Limb, qe: Limb, p0: Limb, re: Limb, ghost c: int)
    returns (m: Limb, r: Limb, ghost delta: int)
    requires u1 >= HIGHBIT && qh < HALF && 1 <= qe <= HALF
    requires 0 <= c + u1 && p0 - B < c && (c < B - u1 || c < p0)
    requires re == if c >= 0 then c else c + B
    ensures -1 <= delta <= 1 && m == (qh * HALF + qe + delta) % B
    ensures r == c - (if delta == 0 then 0 else if delta == 1 then u1 else 0 - u1)
    ensures r < u1
  {
    var ql := qe;
    r, delta := re, 0;
    if r >= p0 {
      ql := ql - 1;
      r := (r + u1) % B;
      delta := -1;
      assert r == c + u1;
    }
    m := (qh * HALF % B + ql) % B;
    if r >= u1 {
      m := (m + 1) % B;
      r := r - u1;
      delta := delta + 1;
    }
  }

  lemma LowResidue(re: Limb, x: int, c: int)
    requires c == re * HALF + HALF - 1 - x && -B < c < B
    ensures (re * HALF % B + HALF - 1 - x) % B == if c >= 0 then c else c + B
  {
    var t := re * HALF / B;
    DivModFacts(re * HALF, B);
    DivModUnique(re * HALF % B + HALF - 1 - x, B, (if c >= 0 then 0 else -1) - t, if c >= 0 then c else c + B);
  }

  lemma InvertLowEstimate(u1: Limb, qh: Limb, re: Limb)
    requires u1 >= HIGHBIT && qh < HALF && re < u1
    requires (qh + HALF) * u1 + re == B * HALF - 1
    ensures var p := re / HALF * qh + re;
      var q1, q0 := p / HALF, p % HALF;
      var c := re * HALF + HALF - 1 - (q1 + 1) * u1;
      && 0 <= p < B && 0 <= q1 < HALF && p * HALF % B == q0 * HALF
      && 0 <= c + u1 && q0 * HALF - B < c && (c < B - u1 || c < q0 * HALF)
  {
    var u2, l := re / HALF, re % HALF;
    MulNonNeg(u2, qh);
    var p: nat := u2 * qh + re;
    HalfInverse(u1, qh, re);
    assert p == (qh + HALF) * u2 + l;
    CandidateBounds(HALF, u1, qh + HALF, u2, l, HALF - 1, p / HALF, p % HALF,
                    u2 * (HALF * HALF) + l * HALF + (HALF - 1) - (p / HALF + 1) * u1);
  }

  lemma HalfInverse(u1: Limb, qh: Limb, re: Limb)
    requires re < u1 && (qh + HALF) * u1 + re == B * HALF - 1
    ensures IsInverse(HALF, u1, qh + HALF)
  {
  }

  lemma InvertLowEnd(u1: Limb, qh: Limb, re: Limb, ql: int, delta: int, m: Limb, r: int)
    requires u1 >= HIGHBIT && 0 <= r < u1 && qh < HALF
    requires (qh + HALF) * u1 + re == B * HALF - 1
    requires -1 <= delta <= 1 && m == (qh * HALF + ql + delta) % B
    requires r == re * HALF + HALF - 1 - ql * u1 - (if delta == 0 then 0 else if delta == 1 then u1 else 0 - u1)
    ensures (m + B) * u1 + r == BB - 1
  {
    var Q := qh * HALF + ql + delta;
    LowProduct(qh, ql, delta, u1);
    LowRange(Q, u1, r);
    SmallMod(Q, B);
  }

  lemma LowProduct(qh: int, ql: int, delta: int, u1: int)
    requires -1 <= delta <= 1
    ensures (qh * HALF + ql + delta + B) * u1 == ((qh + HALF) * u1) * HALF + ql * u1
      + if delta == 0 then 0 else if delta == 1 then u1 else 0 - u1
  {
    var x := qh + HALF;
    assert qh * HALF + ql + delta + B == x * HALF + ql + delta;
    assert (x * HALF + ql + delta) * u1 == (x * u1) * HALF + ql * u1 + delta * u1;
  }

  lemma LowRange(Q: int, u1: Limb, r: int)
    requires u1 >= HIGHBIT && 0 <= r < u1 && (Q + B) * u1 + r == BB - 1
    ensures 0 <= Q < B
  {
    ProductOrder(2 * B, Q + B, u1);
    ProductOrder(Q + B, B - 1, u1);
  }

  lemma ProductOrder(x: int, y: int, k: nat)
    ensures x <= y ==> x * k <= y * k
  {
  }

  /** How far (m + B)*(u1, u0) exceeds B^3 - B^2, as the code keeps it. */
  predicate Excess(u1: int, u0: int, m: int, T: int) {
    (m + B) * (u1 * B + u0) - B * BB + BB == B * T + m * u0
  }

  lemma ExtendStart(u1: int, u0: int, m: int, re: int)
    requires (m + B) * u1 + re == BB - 1
    ensures Excess(u1, u0, m, B - 1 - re + u0)
  {
    assert (m + B) * (u1 * B + u0) == (m + B) * u1 * B + m * u0 + B * u0;
  }

  lemma ExtendDown(u1: Limb, u0: Limb, m: Limb, T: int)
    requires Excess(u1, u0, m, T) && T >= B
    ensures m >= 1 && Excess(u1, u0, m - 1, T - u1)
  {
    var D := u1 * B + u0;
    assert (m - 1 + B) * D == (m + B) * D - D;
    assert (m - 1) * u0 == m * u0 - u0;
  }

  /** Last part: from the inverse of u1 to that of the two-limb divisor (u1, u0). */
  method InvertExtend(u1: Limb, u0: Limb, me: Limb, re: Limb) returns (m: Limb)
    requires u1 >= HIGHBIT && u0 > 0
    requires (me + B) * u1 + re == BB - 1 && re < u1
    ensures IsInverse3by2(u1, u0, m)
  {
    hide Excess;
    ExtendStart(u1, u0, me, re);
    var r;
    m, r := ExtendFold(u1, u0, me, B - 1 - re);
    ghost var T := r as int;
    var th, tl := UmulPpmm(u0, m);
    r := (r + th) % B;
    if r < th {
      ExtendCarry(u1, u0, m, T, th, tl);
      m := m - 1;
      var again := r > u1 || (r == u1 && tl > u0);
      m := m - Bool(again);
    } else {
      ExtendNoCarry(u1, u0, m, T, th, tl);
    }
  }

  /** The high limb of the excess is brought below B, one divisor at a time. */
  method ExtendFold(u1: Limb, u0: Limb, me: Limb, re: Limb) returns (m: Limb, r: Limb)
    requires u1 >= HIGHBIT && re >= B - u1
    requires Excess(u1, u0, me, re + u0)
    ensures Excess(u1, u0, m, r) && B - u1 <= r
  {
    hide Excess;
    m := me;
    ghost var T := re + u0;
    WrapSum(re, u0);
    r := (re + u0) % B;
    if r < u0 {
      ExtendDown(u1, u0, m, T);
      m := m - 1;
      if r >= u1 {
        ExtendDown(u1, u0, m, T - u1);
        m := m - 1;
        r := r - u1;
        T := T - u1;
      }
      WrapDiff(r, u1);
      r := (r - u1) % B;
      T := T - u1;
    }
    assert r == T;
  }

  lemma ExtendNoCarry(u1: Limb, u0: Limb, m: Limb, T: int, th: Limb, tl: Limb)
    requires u1 >= HIGHBIT && Excess(u1, u0, m, T) && B - u1 <= T && T + th < B
    requires th * B + tl == u0 * m
    ensures IsInverse3by2(u1, u0, m)
  {
  }

  lemma ExtendCarry(u1: Limb, u0: Limb, m: Limb, T: int, th: Limb, tl: Limb)
    requires u1 >= HIGHBIT && u0 > 0 && Excess(u1, u0, m, T) && 0 <= T < B && T + th >= B
    requires th * B + tl == u0 * m
    ensures m >= 1
    ensures var r := T + th - B;
      if r > u1 || (r == u1 && tl > u0) then m >= 2 && IsInverse3by2(u1, u0, m - 2)
      else IsInverse3by2(u1, u0, m - 1)
  {
    var D := u1 * B + u0;
    var X := (m + B) * D;
    var r := T + th - B;
    assert X - B * BB == B * r + tl;
    LimbProductBound(u0, m);
    assert th <= B - 2;
    assert (m + B - 1) * D == X - D && (m + B - 2) * D == X - 2 * D;
    assert (0 + B) * D == B * D && (1 + B) * D == B * D + D;
    if r == u1 && tl == u0 {
      NotCube(u1, u0, m + B - 1);
    }
  }

  /** No divisor with a nonzero low limb divides B^3: it would be a power of two. */
  lemma NotCube(u1: Limb, u0: Limb, v: nat)
    requires u1 >= HIGHBIT && u0 > 0
    ensures v * (u1 * B + u0) != B * BB
  {
    var D := u1 * B + u0;
    if v * D == B * BB {
      Pow2Of32();
      Pow2Add(32, 32);
      Pow2Add(64, 32);
      Pow2Add(31, 32);
      assert v * D == D * v;
      var k := DivisorOfPow2(D, v, 96);
      if k >= 64 {
        Pow2Mono(64, k);
      } else if k <= 63 {
        Pow2Mono(k, 63);
      }
    }
  }

  lemma {:induction false} DivisorOfPow2(x: nat, y: nat, n: nat) returns (k: nat)
    requires x * y == Pow2(n)
    ensures k <= n && x == Pow2(k)
  {
    if n == 0 {
      if x >= 2 { MulMono(2, x, y); }
      k := 0;
      assert x == 1 by { if y >= 2 { MulMono(2, y, x); } }
    } else if x % 2 == 0 {
      var h := x / 2;
      assert 2 * (h * y) == x * y;
      k := DivisorOfPow2(h, y, n - 1);
      k := k + 1;
    } else {
      OddFactor(x, y, Pow2(n - 1));
      k := DivisorOfPow2(x, y / 2, n - 1);
    }
  }

  lemma OddProduct(h: int, g: int)
    ensures (2 * h + 1) * (2 * g + 1) == 2 * (2 * (h * g) + h + g) + 1
  {
  }

  lemma OddFactor(x: nat, y: nat, p: nat)
    requires x % 2 == 1 && x * y == 2 * p
    ensures y % 2 == 0 && x * (y / 2) == p
  {
    var h, g := x / 2, y / 2;
    OddProduct(h, g);
    Mul3(x, 2, g);
  }

  /** mpn_invert_3by2: for u1 with its high bit set, floor((B^3 - 1) / (u1, u0)) - B. */
  method Invert3by2(u1: Limb, u0: Limb) returns (m: Limb)
    requires u1 >= HIGHBIT
    ensures IsInverse3by2(u1, u0, m)
    ensures m == (B * BB - 1) / (u1 * B + u0) - B
    ensures u0 == 0 ==> IsInverse2by1(u1, m)
  {
    var qh, r := InvertHigh(u1);
    m, r := InvertLow(u1, qh, r);
    if u0 > 0 {
      m := InvertExtend(u1, u0, m, r);
    } else {
      assert (m + B) * (u1 * B + u0) == (m + B) * u1 * B;
    }
    InverseIsFloor(u1, u0, m);
  }

  lemma InverseIsFloor(u1: Limb, u0: Limb, m: Limb)
    requires IsInverse3by2(u1, u0, m)
    ensures m == (B * BB - 1) / (u1 * B + u0) - B
  {
    var D := u1 * B + u0;
    DivModUnique(B * BB - 1, D, m + B, B * BB - 1 - (m + B) * D);
  }
}
