/** mpz_gcdext and mpz_invert (mini-gmp.c): the binary extended Euclidean algorithm, which
    defers its divisions by two, and modular inverses on top of it. */
module MpzGcd {
  import opened Limbs
  import opened Bits
  import opened MpzBase
  import opened MpzDiv
  import opened MpzShift
  import opened Gcd
  import MpzBits
  import Mpn
  import MpnDiv

  /** mpz_odd_p: the low bit of the magnitude. */
  predicate OddP(z: Mpz)
    requires z.Valid()
    reads z, z.d
  {
    z.size != 0 && z.d[0] % 2 == 1
  }

  lemma OddPMeansOdd(z: Mpz)
    requires z.Valid()
    ensures OddP(z) == (z.Value() % 2 == 1)
  {
    z.SizeFacts();
    if z.size != 0 {
      var s := z.d[..Abs(z.size)];
      assert Val(s) == s[0] + B * Val(s[1..]);
      assert s[0] == z.d[0];
      LowLimbParity(s[0], Val(s[1..]));
    }
  }

  lemma LowLimbParity(x: nat, y: nat)
    ensures (x + B * y) % 2 == x % 2 && (0 - (x + B * y)) % 2 == x % 2
  {
  }

  // --------------------------------------------------- operations on pairs of cofactors

  ghost predicate Own4(x: Mpz, y: Mpz, z: Mpz, w: Mpz)
    reads x, y, z, w, x.d, y.d, z.d, w.d
  {
    && x != y && x != z && x != w && y != z && y != w && z != w
    && x.d != y.d && x.d != z.d && x.d != w.d && y.d != z.d && y.d != w.d && z.d != w.d
    && x.Valid() && y.Valid() && z.Valid() && w.Valid()
  }

  ghost predicate Own2(x: Mpz, y: Mpz)
    reads x, y, x.d, y.d
  {
    x != y && x.d != y.d && x.Valid() && y.Valid()
  }

  /** tb += ta and sb += sa */
  method AddBoth(ta: Mpz, tb: Mpz, sa: Mpz, sb: Mpz)
    requires Own4(ta, tb, sa, sb)
    modifies tb, tb.d, sb, sb.d
    ensures Own4(ta, tb, sa, sb)
    ensures tb.Value() == old(ta.Value()) + old(tb.Value()) && sb.Value() == old(sa.Value()) + old(sb.Value())
    ensures ta.Value() == old(ta.Value()) && sa.Value() == old(sa.Value())
    ensures tb.d == old(tb.d) || fresh(tb.d)
    ensures sb.d == old(sb.d) || fresh(sb.d)
  {
    hide Val;
    Add(tb, ta, tb);
    Add(sb, sa, sb);
  }

  /** Both cofactors of one column are multiplied by 2^shift. */
  method ShiftBoth(ta: Mpz, sa: Mpz, shift: nat)
    requires Own2(ta, sa)
    modifies ta, ta.d, sa, sa.d
    ensures Own2(ta, sa)
    ensures ta.Value() == old(ta.Value()) * Pow2(shift) && sa.Value() == old(sa.Value()) * Pow2(shift)
    ensures ta.d == old(ta.d) || fresh(ta.d)
    ensures sa.d == old(sa.d) || fresh(sa.d)
  {
    hide Val, Pow2;
    Mul2Exp(ta, ta, shift);
    Mul2Exp(sa, sa, shift);
  }

  ghost predicate Own6(a: Mpz, b: Mpz, ta: Mpz, tb: Mpz, sa: Mpz, sb: Mpz)
    reads a, b, ta, tb, sa, sb, a.d, b.d, ta.d, tb.d, sa.d, sb.d
  {
    Own2(a, b) && Own4(ta, tb, sa, sb)
    && a != ta && a != tb && a != sa && a != sb && b != ta && b != tb && b != sa && b != sb
    && a.d != ta.d && a.d != tb.d && a.d != sa.d && a.d != sb.d
    && b.d != ta.d && b.d != tb.d && b.d != sa.d && b.d != sb.d
  }

  /** The invariant of the reduction loop on the current values. */
  ghost predicate Invariant(u: int, v: int, a: Mpz, b: Mpz, ta: Mpz, tb: Mpz, sa: Mpz, sb: Mpz, det: int)
    requires Own6(a, b, ta, tb, sa, sb)
    reads a, b, ta, tb, sa, sb, a.d, b.d, ta.d, tb.d, sa.d, sb.d
  {
    Combines(u, v, a.Value(), b.Value(), ta.Value(), tb.Value(), sa.Value(), sb.Value(), det)
  }

  /** One iteration of the reduction loop: the larger number a is reduced by b and made odd. */
  method GcdStep(a: Mpz, b: Mpz, ta: Mpz, tb: Mpz, sa: Mpz, sb: Mpz, ghost u: int, ghost v: int, ghost det: int)
    returns (shift: nat)
    requires Own6(a, b, ta, tb, sa, sb) && Invariant(u, v, a, b, ta, tb, sa, sb, det)
    requires a.Value() > b.Value() > 0 && a.Value() % 2 == 1 && b.Value() % 2 == 1
    modifies a, a.d, ta, ta.d, tb, tb.d, sa, sa.d, sb, sb.d
    ensures Own6(a, b, ta, tb, sa, sb)
    ensures Invariant(u, v, a, b, ta, tb, sa, sb, det * Pow2(shift))
    ensures 0 < a.Value() < old(a.Value()) && a.Value() % 2 == 1 && b.Value() == old(b.Value())
    ensures a.d == old(a.d) || fresh(a.d)
    ensures ta.d == old(ta.d) || fresh(ta.d)
    ensures tb.d == old(tb.d) || fresh(tb.d)
    ensures sa.d == old(sa.d) || fresh(sa.d)
    ensures sb.d == old(sb.d) || fresh(sb.d)
  {
    hide Val, Pow2, Combines, Mpz.Value, Mpz.Mag;
    ghost var x, y, p, q, m, n := a.Value(), b.Value(), ta.Value(), tb.Value(), sa.Value(), sb.Value();
    CombinesSub(u, v, x, y, p, q, m, n, det);
    shift := SubMakeOdd(a, b);
    CombinesScale(u, v, x - y, y, p, p + q, m, m + n, det, Pow2(shift), a.Value());
    AddBoth(ta, tb, sa, sb);
    ShiftBoth(ta, sa, shift);
  }

  /** The larger number is reduced by the smaller and made odd. */
  method SubMakeOdd(a: Mpz, b: Mpz) returns (shift: nat)
    requires Own2(a, b) && a.Value() > b.Value() > 0
    modifies a, a.d
    ensures Own2(a, b) && (a.d == old(a.d) || fresh(a.d))
    ensures old(a.Value()) - b.Value() == a.Value() * Pow2(shift)
    ensures 0 < a.Value() < old(a.Value()) && a.Value() % 2 == 1 && b.Value() == old(b.Value())
  {
    hide Val, Pow2;
    ghost var x, y := a.Value(), b.Value();
    Sub(a, a, b);
    a.SizeFacts();
    shift := MakeOdd(a);
    SmallerOddPart(x - y, a.Value(), Pow2(shift));
  }

  lemma SmallerOddPart(x: int, y: int, p: nat)
    requires x == y * p && p > 0 && x > 0
    ensures 0 < y <= x
  {
    if y <= 0 { MulMono(y, 0, p); }
    MulMono(1, p, y);
  }

  // --------------------------------------------------------------- the reduction phase

  /** Four numbers initialised to zero. */
  method NewCofactors() returns (t0: Mpz, t1: Mpz, s0: Mpz, s1: Mpz)
    ensures fresh(t0) && fresh(t0.d) && fresh(t1) && fresh(t1.d)
    ensures fresh(s0) && fresh(s0.d) && fresh(s1) && fresh(s1.d)
    ensures Own4(t0, t1, s0, s1)
    ensures t0.Value() == 0 && t1.Value() == 0 && s0.Value() == 0 && s1.Value() == 0
  {
    hide Val, Mpz.Value, Mpz.Mag;
    s0 := new Mpz.Init();
    s1 := new Mpz.Init();
    t0 := new Mpz.Init();
    t1 := new Mpz.Init();
  }

  /** The first division: tu = q * tv + tu', which sets up the four cofactors. */
  method GcdInit(tu: Mpz, tv: Mpz, uz: nat, vz: nat) returns (t0: Mpz, t1: Mpz, s0: Mpz, s1: Mpz)
    requires Own2(tu, tv) && tu.Value() > 0 && tv.Value() > 0
    modifies tu, tu.d
    ensures fresh(t0) && fresh(t0.d) && fresh(t1) && fresh(t1.d)
    ensures fresh(s0) && fresh(s0.d) && fresh(s1) && fresh(s1.d)
    ensures Own6(tu, tv, t0, t1, s0, s1)
    ensures Invariant(old(tu.Value()) * Pow2(uz), old(tv.Value()) * Pow2(vz), tu, tv, t0, t1, s0, s1, Pow2(uz + vz))
    ensures 0 <= tu.Value() < tv.Value() == old(tv.Value()) && s0.Value() == 0
    ensures tu.Value() == 0 ==> t0.Value() <= t1.Value()
    ensures tu.d == old(tu.d) || fresh(tu.d)
  {
    hide Val, Pow2, Mpz.Value, Mpz.Mag, Combines;
    ghost var x, y := tu.Value(), tv.Value();
    t0, t1, s0, s1 := NewCofactors();
    InitPower(t0, uz);
    FirstDivision(t1, tu, tv, uz);
    InitPower(s1, vz);
    InitialCombination(x, y, x / y, x % y, uz, vz);
  }

  /** tu is replaced by its remainder; t1 takes the quotient times 2^uz. */
  method FirstDivision(t1: Mpz, tu: Mpz, tv: Mpz, uz: nat)
    requires Own2(tu, tv) && Own2(t1, tu) && Own2(t1, tv) && tu.Value() > 0 && tv.Value() > 0
    modifies tu, tu.d, t1, t1.d
    ensures Own2(tu, tv) && Own2(t1, tu) && Own2(t1, tv) && tv.Value() == old(tv.Value())
    ensures tu.Value() == old(tu.Value()) % tv.Value()
    ensures t1.Value() == old(tu.Value()) / tv.Value() * Pow2(uz)
    ensures tu.d == old(tu.d) || fresh(tu.d)
    ensures t1.d == old(t1.d) || fresh(t1.d)
  {
    hide Val, Pow2, Mpz.Value, Mpz.Mag;
    ghost var x, y := tu.Value(), tv.Value();
    ghost var Q, R := TdivQr(t1, tu, tu, tv);
    TruncPositive(x, y, Q, R);
    Mul2Exp(t1, t1, uz);
  }

  lemma TruncPositive(x: nat, y: nat, q: int, r: int)
    requires y > 0 && Divides(Trunc, x, y, q, r)
    ensures q == x / y && r == x % y
  {
    DivModUnique(x, y, q, r);
  }

  /** mpz_setbit on a number that is zero. */
  method InitPower(x: Mpz, i: nat)
    requires x.Valid() && x.Value() == 0
    modifies x, x.d
    ensures x.Valid() && x.Value() == Pow2(i) && (x.d == old(x.d) || fresh(x.d))
  {
    hide Val, Pow2;
    MpzBits.SetBit(x, i);
    DivModUnique(0, Pow2(i), 0, 0);
  }

  lemma InitialCombination(x: int, y: int, Q: int, R: int, uz: nat, vz: nat)
    requires x > 0 && y > 0 && Q == x / y && R == x % y
    ensures Combines(x * Pow2(uz), y * Pow2(vz), R, y, Pow2(uz), Q * Pow2(uz), 0, Pow2(vz), Pow2(uz + vz))
    ensures 0 <= R < y && (R == 0 ==> Pow2(uz) <= Q * Pow2(uz))
  {
    hide Pow2;
    var p, q := Pow2(uz), Pow2(vz);
    Pow2Add(uz, vz);
    DivModFacts(x, y);
    DivNonNeg(x, y);
    if R == 0 && Q <= 0 { MulMono(Q, 0, y); }
    MulNonNeg(Q, p);
    if R == 0 { MulMono(1, Q, p); }
    assert p * R + (Q * p) * y == (Q * y + R) * p by {
      Expand2(p, Q, y, 1, R);
    }
    assert q * y == y * q && p * q - (Q * p) * 0 == p * q;
  }

  /** The loop: subtract, make odd, until both numbers are equal. */
  method GcdReduce(tu: Mpz, tv: Mpz, t0: Mpz, t1: Mpz, s0: Mpz, s1: Mpz, power0: nat, ghost u: int, ghost v: int)
    returns (power: nat)
    requires Own6(tu, tv, t0, t1, s0, s1) && Invariant(u, v, tu, tv, t0, t1, s0, s1, Pow2(power0))
    requires tu.Value() > 0 && tv.Value() > 0 && tu.Value() % 2 == 1 && tv.Value() % 2 == 1
    modifies tu, tu.d, tv, tv.d, t0, t0.d, t1, t1.d, s0, s0.d, s1, s1.d
    ensures Own6(tu, tv, t0, t1, s0, s1) && Invariant(u, v, tu, tv, t0, t1, s0, s1, Pow2(power))
    ensures tu.Value() == tv.Value() > 0 && tv.Value() % 2 == 1
    ensures tu.d == old(tu.d) || fresh(tu.d)
    ensures tv.d == old(tv.d) || fresh(tv.d)
    ensures t0.d == old(t0.d) || fresh(t0.d)
    ensures t1.d == old(t1.d) || fresh(t1.d)
    ensures s0.d == old(s0.d) || fresh(s0.d)
    ensures s1.d == old(s1.d) || fresh(s1.d)
  {
    hide Val, Pow2, Mpz.Value, Mpz.Mag, Combines, Own4, Invariant;
    power := power0;
    while true
      invariant Own6(tu, tv, t0, t1, s0, s1) && Invariant(u, v, tu, tv, t0, t1, s0, s1, Pow2(power))
      invariant tu.Value() > 0 && tv.Value() > 0 && tu.Value() % 2 == 1 && tv.Value() % 2 == 1
      invariant tu.d == old(tu.d) || fresh(tu.d)
      invariant tv.d == old(tv.d) || fresh(tv.d)
      invariant t0.d == old(t0.d) || fresh(t0.d)
      invariant t1.d == old(t1.d) || fresh(t1.d)
      invariant s0.d == old(s0.d) || fresh(s0.d)
      invariant s1.d == old(s1.d) || fresh(s1.d)
      decreases tu.Value() + tv.Value()
    {
      var c := CmpOwned(tu, tv, t0, t1, s0, s1);
      if c == 0 {
        break;
      }
      var shift;
      if c < 0 {
        Flip(u, v, tu, tv, t0, t1, s0, s1, Pow2(power));
        shift := GcdStep(tv, tu, t1, t0, s1, s0, u, v, 0 - Pow2(power));
        Flip(u, v, tv, tu, t1, t0, s1, s0, (0 - Pow2(power)) * Pow2(shift));
        NegTimes(Pow2(power), Pow2(shift));
      } else {
        shift := GcdStep(tu, tv, t0, t1, s0, s1, u, v, Pow2(power));
      }
      Pow2Add(power, shift);
      power := power + shift;
    }
  }

  lemma NegTimes(x: int, y: int)
    ensures 0 - (0 - x) * y == x * y
  {
  }

  method CmpOwned(a: Mpz, b: Mpz, ghost ta: Mpz, ghost tb: Mpz, ghost sa: Mpz, ghost sb: Mpz) returns (c: int)
    requires Own6(a, b, ta, tb, sa, sb)
    ensures c == Mpn.Sign(a.Value() - b.Value())
  {
    c := Cmp(a, b);
  }

  /** Exchanging the roles of the columns. */
  lemma Flip(u: int, v: int, a: Mpz, b: Mpz, ta: Mpz, tb: Mpz, sa: Mpz, sb: Mpz, det: int)
    requires Own6(a, b, ta, tb, sa, sb) && Invariant(u, v, a, b, ta, tb, sa, sb, det)
    ensures Own6(b, a, tb, ta, sb, sa) && Invariant(u, v, b, a, tb, ta, sb, sa, 0 - det)
  {
    hide Mpz.Value, Mpz.Mag;
  }

  /** tu divides both numbers and is, up to a power of two, a combination of them. */
  predicate Reduced(u: int, v: int, b: int, s: int, t: int, power: nat, A: int, C: int) {
    && u == A * b && v == C * b && Pow2(power) * b == (0 - s) * u + t * v
    && 0 <= s <= C && 0 <= t <= A
  }

  /** The cofactor phase of mpz_gcdext on odd numbers whose common powers of two are removed. */
  method GcdCofactors(tu: Mpz, tv: Mpz, uz: nat, vz: nat)
    returns (t0: Mpz, t1: Mpz, s0: Mpz, s1: Mpz, power: nat, ghost A: int, ghost C: int)
    requires Own2(tu, tv) && tu.Value() > 0 && tv.Value() > 0 && tu.Value() % 2 == 1 && tv.Value() % 2 == 1
    modifies tu, tu.d, tv, tv.d
    ensures fresh(t0) && fresh(t0.d) && fresh(t1) && fresh(t1.d)
    ensures fresh(s0) && fresh(s0.d) && fresh(s1) && fresh(s1.d)
    ensures Own6(tu, tv, t0, t1, s0, s1) && tv.Value() > 0 && tv.Value() % 2 == 1
    ensures Reduced(old(tu.Value()) * Pow2(uz), old(tv.Value()) * Pow2(vz), tv.Value(),
                    s0.Value(), t0.Value(), power, A, C)
    ensures tv.d == old(tv.d) || fresh(tv.d)
  {
    hide Val, Pow2, Mpz.Value, Mpz.Mag, Combines, Own4, Invariant, Reduced;
    ghost var u, v := tu.Value() * Pow2(uz), tv.Value() * Pow2(vz);
    t0, t1, s0, s1 := GcdInit(tu, tv, uz, vz);
    power := uz + vz;
    SizeSign(tu);
    if tu.size > 0 {
      var shift := FirstMakeOdd(tu, tv, t0, t1, s0, s1, u, v, Pow2(power));
      Pow2Add(power, shift);
      power := power + shift;
      power := GcdReduce(tu, tv, t0, t1, s0, s1, power, u, v);
    }
    A, C := ReducedCofactors(tu, tv, t0, t1, s0, s1, u, v, power);
  }

  lemma SizeSign(x: Mpz)
    requires x.Valid()
    ensures x.size > 0 <==> x.Value() > 0
    ensures x.size < 0 <==> x.Value() < 0
  {
    x.SizeFacts();
  }

  lemma ReducedCofactors(tu: Mpz, tv: Mpz, t0: Mpz, t1: Mpz, s0: Mpz, s1: Mpz, u: int, v: int, power: nat)
    returns (A: int, C: int)
    requires Own6(tu, tv, t0, t1, s0, s1) && Invariant(u, v, tu, tv, t0, t1, s0, s1, Pow2(power))
    requires tv.Value() > 0
    requires tu.Value() == tv.Value() || (tu.Value() == 0 && s0.Value() == 0 && t0.Value() <= t1.Value())
    ensures Reduced(u, v, tv.Value(), s0.Value(), t0.Value(), power, A, C)
  {
    hide Pow2, Mpz.Value, Mpz.Mag;
    CombinesEnd(u, v, tu.Value(), tv.Value(), t0.Value(), t1.Value(), s0.Value(), s1.Value(), Pow2(power));
    A := t1.Value() + (if tu.Value() == 0 then 0 else t0.Value());
    C := s1.Value() + (if tu.Value() == 0 then 0 else s0.Value());
  }

  /** The remainder of the first division is made odd. */
  method FirstMakeOdd(tu: Mpz, tv: Mpz, t0: Mpz, t1: Mpz, s0: Mpz, s1: Mpz, ghost u: int, ghost v: int, ghost det: int)
    returns (shift: nat)
    requires Own6(tu, tv, t0, t1, s0, s1) && Invariant(u, v, tu, tv, t0, t1, s0, s1, det) && tu.Value() > 0
    modifies tu, tu.d, t0, t0.d, s0, s0.d
    ensures Own6(tu, tv, t0, t1, s0, s1) && Invariant(u, v, tu, tv, t0, t1, s0, s1, det * Pow2(shift))
    ensures tu.Value() > 0 && tu.Value() % 2 == 1 && tv.Value() == old(tv.Value())
    ensures tu.d == old(tu.d) || fresh(tu.d)
    ensures t0.d == old(t0.d) || fresh(t0.d)
    ensures s0.d == old(s0.d) || fresh(s0.d)
  {
    hide Val, Pow2, Combines, Mpz.Value, Mpz.Mag;
    ghost var x, y, p, q, m, n := tu.Value(), tv.Value(), t0.Value(), t1.Value(), s0.Value(), s1.Value();
    SizeSign(tu);
    shift := MakeOdd(tu);
    CombinesScale(u, v, x, y, p, q, m, n, det, Pow2(shift), tu.Value());
    ShiftBoth(t0, s0, shift);
  }

  // --------------------------------------------------------- eliminating the power of two

  /** Both cofactors are even and are halved. */
  method HalveBoth(s0: Mpz, t0: Mpz)
    requires Own2(s0, t0) && s0.Value() % 2 == 0 && t0.Value() % 2 == 0
    modifies s0, s0.d, t0, t0.d
    ensures Own2(s0, t0)
    ensures s0.Value() == old(s0.Value()) / 2 && t0.Value() == old(t0.Value()) / 2
    ensures s0.d == old(s0.d) || fresh(s0.d)
    ensures t0.d == old(t0.d) || fresh(t0.d)
  {
    hide Val, Mpz.Value, Mpz.Mag, IsQuotient;
    ghost var x, y := s0.Value(), t0.Value();
    var rl; ghost var Q;
    rl, Q := DivQUi(s0, null, s0, 2, Trunc);
    ExactHalf(x, Q);
    rl, Q := DivQUi(t0, null, t0, 2, Trunc);
    ExactHalf(y, Q);
  }

  lemma ExactHalf(x: int, q: int)
    requires x % 2 == 0 && IsQuotient(Trunc, x, 2, q)
    ensures q == x / 2
  {
    DividesUnique(Trunc, x, 2, q, x - q * 2, x / 2, 0);
  }

  predicate Halving(p: int, s: int, t: int, U: int, V: int) {
    && p == s * U + t * V && 0 - V <= s <= 0 && 0 <= t <= U
  }

  /** One round of the halving loop. */
  method HalveStep(s0: Mpz, t0: Mpz, s1: Mpz, t1: Mpz, ghost p: int)
    requires Own4(s0, t0, s1, t1) && Halving(2 * p, s0.Value(), t0.Value(), t1.Value(), s1.Value())
    requires t1.Value() % 2 == 1 || s1.Value() % 2 == 1
    modifies s0, s0.d, t0, t0.d
    ensures Own4(s0, t0, s1, t1) && Halving(p, s0.Value(), t0.Value(), t1.Value(), s1.Value())
    ensures s1.Value() == old(s1.Value()) && t1.Value() == old(t1.Value())
    ensures s0.d == old(s0.d) || fresh(s0.d)
    ensures t0.d == old(t0.d) || fresh(t0.d)
  {
    hide Val, Mpz.Value, Mpz.Mag, OddP;
    HalveEven(t1.Value(), s1.Value(), s0.Value(), t0.Value(), p);
    OddPMeansOdd(s0);
    OddPMeansOdd(t0);
    if OddP(s0) || OddP(t0) {
      Sub(s0, s0, s1);
      MpzBase.Add(t0, t0, t1);
    }
    HalveBoth(s0, t0);
  }

  /** The halving loop: the cofactors of 2^power times the gcd become cofactors of the gcd. */
  method HalvePower(s0: Mpz, t0: Mpz, s1: Mpz, t1: Mpz, power: nat)
    requires Own4(s0, t0, s1, t1) && Halving(Pow2(power), s0.Value(), t0.Value(), t1.Value(), s1.Value())
    requires t1.Value() % 2 == 1 || s1.Value() % 2 == 1
    modifies s0, s0.d, t0, t0.d
    ensures Own4(s0, t0, s1, t1) && Halving(1, s0.Value(), t0.Value(), t1.Value(), s1.Value())
    ensures s1.Value() == old(s1.Value()) && t1.Value() == old(t1.Value())
    ensures s0.d == old(s0.d) || fresh(s0.d)
    ensures t0.d == old(t0.d) || fresh(t0.d)
  {
    hide Val, Mpz.Value, Mpz.Mag, Pow2, Halving;
    var k := power;
    while k > 0
      invariant Own4(s0, t0, s1, t1) && Halving(Pow2(k), s0.Value(), t0.Value(), t1.Value(), s1.Value())
      invariant s1.Value() == old(s1.Value()) && t1.Value() == old(t1.Value())
      invariant s0.d == old(s0.d) || fresh(s0.d)
      invariant t0.d == old(t0.d) || fresh(t0.d)
    {
      k := k - 1;
      Pow2Next(k);
      HalveStep(s0, t0, s1, t1, Pow2(k));
    }
    MpnDiv.Pow2Start();
  }

  /** The cofactor of the first operand is moved to its smaller representative. */
  method AdjustCofactors(s0: Mpz, t0: Mpz, s1: Mpz, t1: Mpz)
    requires Own4(s0, t0, s1, t1) && Halving(1, s0.Value(), t0.Value(), t1.Value(), s1.Value())
    modifies s0, s0.d, t0, t0.d, s1, s1.d
    ensures Own4(s0, t0, s1, t1)
    ensures s0.Value() * t1.Value() + t0.Value() * old(s1.Value()) == 1
    ensures 2 * Abs(s0.Value()) <= old(s1.Value()) && Abs(t0.Value()) <= t1.Value() == old(t1.Value())
    ensures s0.d == old(s0.d) || s0.d == old(s1.d) || fresh(s0.d)
    ensures s1.d == old(s0.d) || s1.d == old(s1.d) || fresh(s1.d)
    ensures t0.d == old(t0.d) || fresh(t0.d)
  {
    hide Val, Mpz.Value, Mpz.Mag;
    ghost var x, y, U, V := s0.Value(), t0.Value(), t1.Value(), s1.Value();
    MpzBase.Add(s1, s0, s1);
    var c := CmpAbs(s0, s1);
    OtherCofactors(x, y, U, V);
    if c > 0 {
      SwapOwned(s0, s1);
      Sub(t0, t0, t1);
    }
  }

  lemma OtherCofactors(x: int, y: int, U: int, V: int)
    ensures (x + V) * U + (y - U) * V == x * U + y * V
  {
  }

  method SwapOwned(u: Mpz, v: Mpz)
    requires Own2(u, v)
    modifies u, v
    ensures Own2(u, v) && u.Value() == old(v.Value()) && v.Value() == old(u.Value())
    ensures u.d == old(v.d) && v.d == old(u.d)
  {
    Swap(u, v);
  }

  /** mpz_cmpabs */
  method CmpAbs(u: Mpz, v: Mpz) returns (c: int)
    requires u.Valid() && v.Valid()
    ensures c == Mpn.Sign(Abs(u.Value()) - Abs(v.Value()))
  {
    u.SizeFacts();
    v.SizeFacts();
    c := Cmp4(u, v);
  }

  // ------------------------------------------------------------------------ assembly

  /** The odd part of |u| and the power of two removed. */
  method OddAbs(u: Mpz) returns (tu: Mpz, uz: nat)
    requires u.Valid() && u.Value() != 0
    ensures fresh(tu) && fresh(tu.d) && tu.Valid()
    ensures tu.Value() > 0 && tu.Value() % 2 == 1 && Abs(u.Value()) == tu.Value() * Pow2(uz)
  {
    hide Val, Pow2, Mpz.Value, Mpz.Mag;
    tu := new Mpz.Init();
    AbsTo(tu, u);
    SizeSign(tu);
    uz := MakeOdd(tu);
  }

  /** The cofactors of the odd gcd, as the halving loop needs them. */
  lemma CofactorsOfGcd(u: int, v: int, b: int, s: int, t: int, power: nat, A: int, C: int)
    requires Reduced(u, v, b, s, t, power, A, C) && b > 0 && (u % 2 == 1 || v % 2 == 1)
    ensures Halving(Pow2(power), 0 - s, t, A, C) && (A % 2 == 1 || C % 2 == 1)
  {
    hide Pow2;
    ProductParity(A, b);
    ProductParity(C, b);
    FactorOut(0 - s, A, t, C, b);
    Mpn.MulCancel(Pow2(power), (0 - s) * A + t * C, b);
  }

  lemma FactorOut(s: int, A: int, t: int, C: int, b: int)
    ensures s * (A * b) + t * (C * b) == (s * A + t * C) * b
  {
    assert s * (A * b) == (s * A) * b && t * (C * b) == (t * C) * b;
  }

  /** s1 := |y / g| */
  method CofactorQuotient(s1: Mpz, y: Mpz, g: Mpz, ghost C: nat)
    requires s1.Valid() && y.Valid() && g.Valid() && Separate(s1, y) && Separate(s1, g) && Separate(y, g)
    requires g.Value() > 0 && Abs(y.Value()) == C * g.Value()
    modifies s1, s1.d
    ensures s1.Valid() && s1.Value() == C && (s1.d == old(s1.d) || fresh(s1.d))
  {
    hide Val, Mpz.Value, Mpz.Mag;
    ghost var k: int := if y.Value() < 0 then 0 - C else C;
    assert y.Value() == k * g.Value();
    Divexact(s1, y, g, k);
    AbsTo(s1, s1);
  }

  /** A cofactor of |x| becomes one of x. */
  method FixSign(s0: Mpz, x: Mpz)
    requires Own2(s0, x)
    modifies s0, s0.d
    ensures Own2(s0, x) && s0.Value() * x.Value() == old(s0.Value()) * Abs(x.Value())
    ensures Abs(s0.Value()) == Abs(old(s0.Value())) && x.Value() == old(x.Value())
    ensures s0.d == old(s0.d) || fresh(s0.d)
  {
    hide Val, Mpz.Value, Mpz.Mag;
    SizeSign(x);
    ghost var s, v := s0.Value(), x.Value();
    assert (0 - s) * v == s * (0 - v);
    if x.size < 0 {
      Neg(s0, s0);
    }
  }

  predicate Bezout(g: int, x: int, y: int, s: int, t: int) {
    g > 0 && Multiple(x, g) && Multiple(y, g) && g == s * x + t * y
    && Abs(s) * g <= Abs(y) && Abs(t) * g <= Abs(x)
  }

  /** The cofactor is at most half of what belongs to the other operand. */
  predicate Halved(g: int, y: int, s: int) {
    2 * (Abs(s) * g) <= Abs(y)
  }

  lemma HalvedFrom(g: int, y: int, s: int, C: nat)
    requires g > 0 && Abs(y) == C * g && 2 * Abs(s) <= C
    ensures Halved(g, y, s)
  {
    MulMono(2 * Abs(s), C, g);
    assert 2 * Abs(s) * g == 2 * (Abs(s) * g);
  }

  lemma BezoutFromHalving(g: int, ax: nat, ay: nat, s: int, t: int, A: nat, C: nat)
    requires g > 0 && ax == A * g && ay == C * g && s * A + t * C == 1 && Abs(s) <= C && Abs(t) <= A
    ensures g == s * ax + t * ay && Abs(s) * g <= ay && Abs(t) * g <= ax
    ensures Multiple(ax, g) && Multiple(ay, g)
  {
    assert s * (A * g) + t * (C * g) == (s * A + t * C) * g by {
      Expand2(s, A, g, 0, 0);
      Expand2(t, C, g, 0, 0);
    }
    MulMono(Abs(s), C, g);
    MulMono(Abs(t), A, g);
    MultipleOf(ax, g, A);
    MultipleOf(ay, g, C);
  }

  lemma BezoutSigned(g: int, x: int, y: int, s: int, t: int, s': int, t': int)
    requires g > 0 && g == s * Abs(x) + t * Abs(y) && Abs(s) * g <= Abs(y) && Abs(t) * g <= Abs(x)
    requires Multiple(Abs(x), g) && Multiple(Abs(y), g)
    requires s' * x == s * Abs(x) && t' * y == t * Abs(y) && Abs(s') == Abs(s) && Abs(t') == Abs(t)
    ensures Bezout(g, x, y, s', t')
  {
    AbsMultiple(x, g);
    AbsMultiple(y, g);
  }

  /** x is none of the four numbers and shares no array with them. */
  ghost predicate Away(x: Mpz, p: Mpz, q: Mpz, r: Mpz, s: Mpz)
    reads x, p, q, r, s, x.d
  {
    x.Valid() && x != p && x != q && x != r && x != s && x.d != p.d && x.d != q.d && x.d != r.d && x.d != s.d
  }

  /** The gcd with its power of two, and the quotients of both operands by it. */
  method GcdQuotients(tv: Mpz, gz: nat, x: Mpz, y: Mpz, t1: Mpz, s1: Mpz, ghost A: nat, ghost C: nat)
    requires Own2(s1, t1) && Own2(s1, tv) && Own2(t1, tv) && Own2(s1, x) && Own2(s1, y) && Own2(t1, x) && Own2(t1, y)
    requires Own2(tv, x) && Own2(tv, y) && Separate(x, y) && tv.Value() > 0
    requires Abs(x.Value()) == A * (tv.Value() * Pow2(gz)) && Abs(y.Value()) == C * (tv.Value() * Pow2(gz))
    modifies tv, tv.d, t1, t1.d, s1, s1.d
    ensures Own2(s1, t1) && Own2(s1, tv) && Own2(t1, tv) && Own2(tv, x) && Own2(tv, y)
    ensures tv.Value() > 0 && Abs(x.Value()) == A * tv.Value() && Abs(y.Value()) == C * tv.Value()
    ensures s1.Value() == C && t1.Value() == A && x.Value() == old(x.Value()) && y.Value() == old(y.Value())
    ensures tv.d == old(tv.d) || fresh(tv.d)
    ensures s1.d == old(s1.d) || fresh(s1.d)
    ensures t1.d == old(t1.d) || fresh(t1.d)
  {
    hide Val, Mpz.Value, Mpz.Mag, Pow2;
    MulStrict(0, tv.Value(), Pow2(gz));
    Mul2Exp(tv, tv, gz);
    CofactorQuotient(s1, y, tv, C);
    CofactorQuotient(t1, x, tv, A);
  }

  /** The cofactors of the power of two times the gcd become small cofactors of the gcd. */
  method FinishCofactors(t0: Mpz, t1: Mpz, s0: Mpz, s1: Mpz, power: nat, ghost A: nat, ghost C: nat)
    requires Own4(s0, t0, s1, t1) && s1.Value() == C && t1.Value() == A
    requires Halving(Pow2(power), s0.Value(), t0.Value(), A, C) && (A % 2 == 1 || C % 2 == 1)
    modifies t0, t0.d, t1, t1.d, s0, s0.d, s1, s1.d
    ensures Own2(s0, t0) && s0.Value() * A + t0.Value() * C == 1
    ensures 2 * Abs(s0.Value()) <= C && Abs(t0.Value()) <= A
    ensures s0.d == old(s0.d) || s0.d == old(s1.d) || fresh(s0.d)
    ensures t0.d == old(t0.d) || fresh(t0.d)
  {
    hide Val, Mpz.Value, Mpz.Mag, Pow2, Halving;
    HalvePower(s0, t0, s1, t1, power);
    AdjustCofactors(s0, t0, s1, t1);
  }

  /** The signs of the operands go to their cofactors. */
  method FixSigns(tv: Mpz, x: Mpz, y: Mpz, s0: Mpz, t0: Mpz, ghost A: nat, ghost C: nat)
    requires Own2(s0, t0) && Own2(s0, x) && Own2(s0, y) && Own2(t0, x) && Own2(t0, y) && Own2(s0, tv) && Own2(t0, tv)
    requires tv.Value() > 0 && Abs(x.Value()) == A * tv.Value() && Abs(y.Value()) == C * tv.Value()
    requires s0.Value() * A + t0.Value() * C == 1 && 2 * Abs(s0.Value()) <= C && Abs(t0.Value()) <= A
    modifies t0, t0.d, s0, s0.d
    ensures Own2(s0, t0) && Own2(s0, tv) && Own2(t0, tv)
    ensures Bezout(tv.Value(), x.Value(), y.Value(), s0.Value(), t0.Value())
    ensures Halved(tv.Value(), y.Value(), s0.Value())
    ensures x.Value() == old(x.Value()) && y.Value() == old(y.Value()) && tv.Value() == old(tv.Value())
    ensures s0.d == old(s0.d) || fresh(s0.d)
    ensures t0.d == old(t0.d) || fresh(t0.d)
  {
    hide Val, Mpz.Value, Mpz.Mag;
    ghost var s, t, g := s0.Value(), t0.Value(), tv.Value();
    BezoutFromHalving(g, Abs(x.Value()), Abs(y.Value()), s, t, A, C);
    FixSign(s0, x);
    FixSign(t0, y);
    BezoutSigned(g, x.Value(), y.Value(), s, t, s0.Value(), t0.Value());
    HalvedFrom(g, y.Value(), s0.Value(), C);
  }

  /** From the odd gcd tv and its cofactors to the gcd and its cofactors. */
  method GcdFinish(tv: Mpz, gz: nat, x: Mpz, y: Mpz, t0: Mpz, t1: Mpz, s0: Mpz, s1: Mpz, power: nat,
                   ghost A: nat, ghost C: nat)
    requires Own4(s0, t0, s1, t1) && Away(tv, s0, t0, s1, t1) && Away(x, s0, t0, s1, t1) && Away(y, s0, t0, s1, t1)
    requires Own2(tv, x) && Own2(tv, y) && Separate(x, y)
    requires tv.Value() > 0
    requires Abs(x.Value()) == A * (tv.Value() * Pow2(gz)) && Abs(y.Value()) == C * (tv.Value() * Pow2(gz))
    requires Halving(Pow2(power), 0 - s0.Value(), t0.Value(), A, C) && (A % 2 == 1 || C % 2 == 1)
    modifies tv, tv.d, t0, t0.d, t1, t1.d, s0, s0.d, s1, s1.d
    ensures Own2(s0, t0) && Own2(s0, tv) && Own2(t0, tv)
    ensures Bezout(tv.Value(), x.Value(), y.Value(), s0.Value(), t0.Value())
    ensures Halved(tv.Value(), y.Value(), s0.Value())
    ensures x.Value() == old(x.Value()) && y.Value() == old(y.Value())
    ensures tv.d == old(tv.d) || fresh(tv.d)
    ensures s0.d == old(s0.d) || s0.d == old(s1.d) || fresh(s0.d)
    ensures t0.d == old(t0.d) || fresh(t0.d)
  {
    hide Val, Mpz.Value, Mpz.Mag, Pow2, Halving, Bezout, Halved;
    Neg(s0, s0);
    GcdQuotients(tv, gz, x, y, t1, s1, A, C);
    FinishCofactors(t0, t1, s0, s1, power, A, C);
    FixSigns(tv, x, y, s0, t0, A, C);
  }

  lemma PowerSplit(ax: nat, t: nat, z: nat, gz: nat, A: nat, b: nat)
    requires gz <= z && ax == t * Pow2(z) && t * Pow2(z - gz) == A * b
    ensures ax == A * (b * Pow2(gz))
  {
    hide Pow2;
    Pow2Add(z - gz, gz);
    assert t * (Pow2(z - gz) * Pow2(gz)) == (t * Pow2(z - gz)) * Pow2(gz);
    assert (A * b) * Pow2(gz) == A * (b * Pow2(gz));
  }

  lemma OddTimesOne(t: int, z: nat)
    requires t % 2 == 1 && z == 0
    ensures t * Pow2(z) % 2 == 1
  {
  }

  /** mpz_gcdext for nonzero operands, the one with the larger odd part (in limbs) first. */
  method GcdOrdered(x: Mpz, y: Mpz, tu: Mpz, tv: Mpz, uz: nat, vz: nat) returns (s0: Mpz, t0: Mpz)
    requires x.Valid() && y.Valid() && Separate(x, y) && Own2(tu, tv)
    requires Own2(tu, x) && Own2(tu, y) && Own2(tv, x) && Own2(tv, y)
    requires tu.Value() > 0 && tv.Value() > 0 && tu.Value() % 2 == 1 && tv.Value() % 2 == 1
    requires Abs(x.Value()) == tu.Value() * Pow2(uz) && Abs(y.Value()) == tv.Value() * Pow2(vz)
    modifies tu, tu.d, tv, tv.d
    ensures fresh(s0) && fresh(s0.d) && fresh(t0) && fresh(t0.d) && Own2(s0, t0) && Own2(s0, tv) && Own2(t0, tv)
    ensures Bezout(tv.Value(), x.Value(), y.Value(), s0.Value(), t0.Value())
    ensures Halved(tv.Value(), y.Value(), s0.Value())
    ensures x.Value() == old(x.Value()) && y.Value() == old(y.Value())
    ensures tv.d == old(tv.d) || fresh(tv.d)
  {
    hide Val, Mpz.Value, Mpz.Mag, Pow2, Halving, Bezout, Halved, Reduced;
    var gz := if uz <= vz then uz else vz;
    ghost var a, b := tu.Value(), tv.Value();
    var t1, s1, power;
    ghost var A, C;
    t0, t1, s0, s1, power, A, C := GcdCofactors(tu, tv, uz - gz, vz - gz);
    if uz == gz { OddTimesOne(a, uz - gz); } else { OddTimesOne(b, vz - gz); }
    CofactorsOfGcd(a * Pow2(uz - gz), b * Pow2(vz - gz), tv.Value(), s0.Value(), t0.Value(), power, A, C);
    ReducedFacts(a * Pow2(uz - gz), b * Pow2(vz - gz), tv.Value(), s0.Value(), t0.Value(), power, A, C);
    PowerSplit(Abs(x.Value()), a, uz, gz, A, tv.Value());
    PowerSplit(Abs(y.Value()), b, vz, gz, C, tv.Value());
    GcdFinish(tv, gz, x, y, t0, t1, s0, s1, power, A, C);
  }

  lemma ReducedFacts(u: int, v: int, b: int, s: int, t: int, power: nat, A: int, C: int)
    requires Reduced(u, v, b, s, t, power, A, C)
    ensures u == A * b && v == C * b && A >= 0 && C >= 0
  {
  }

  /** mpz_gcdext for nonzero operands; the cofactors belong to the operands as given. */
  method GcdNonZero(u: Mpz, v: Mpz) returns (tv: Mpz, s0: Mpz, t0: Mpz)
    requires u.Valid() && v.Valid() && Separate(u, v) && u.Value() != 0 && v.Value() != 0
    ensures fresh(s0) && fresh(s0.d) && fresh(t0) && fresh(t0.d) && fresh(tv) && fresh(tv.d)
    ensures Own2(s0, t0) && Own2(s0, tv) && Own2(t0, tv)
    ensures Bezout(tv.Value(), u.Value(), v.Value(), s0.Value(), t0.Value())
    ensures Halved(tv.Value(), v.Value(), s0.Value()) || Halved(tv.Value(), u.Value(), t0.Value())
  {
    hide Val, Mpz.Value, Mpz.Mag, Pow2, Halved;
    var tu, uz, vz;
    tu, uz := OddAbs(u);
    tv, vz := OddAbs(v);
    if tu.size < tv.size {
      tu, tv := tv, tu;
      t0, s0 := GcdOrdered(v, u, tu, tv, vz, uz);
    } else {
      s0, t0 := GcdOrdered(u, v, tu, tv, uz, vz);
    }
  }

  /** An output of mpz_gcdext: absent, or a number apart from the other outputs. */
  ghost predicate OutputOf(x: Mpz?, u: Mpz, v: Mpz)
    reads x, u, v, if x == null then {} else {x.d}
  {
    x != null ==> x.Valid() && Separate(x, u) && Separate(x, v)
  }

  /** What mpz_gcdext promises about its outputs: cofactors that are small, and one of them, that of the
      operand whose odd part has at least as many limbs, as small as possible. */
  predicate ExtendedGcd(g: int, u: int, v: int, S: int, T: int) {
    && g == S * u + T * v
    && (if u == 0 || v == 0 then g == Abs(u) + Abs(v)
        else Bezout(g, u, v, S, T) && (Halved(g, v, S) || Halved(g, u, T)))
  }

  lemma ExtendedGcdIsGcd(g: int, u: int, v: int, S: int, T: int)
    requires ExtendedGcd(g, u, v, S, T)
    ensures IsGcd(g, u, v)
  {
    if u == 0 || v == 0 {
      MultipleOf(Abs(u) + Abs(v), g, 1);
      AbsMultiple(u, g);
      AbsMultiple(v, g);
      MultipleOf(0, g, 0);
    }
    BezoutGcd(g, u, v, S, T);
  }

  method PutSwap(r: Mpz?, x: Mpz)
    requires x.Valid() && (r != null ==> r != x && r.d != x.d)
    modifies if r == null then {} else {r}, x
    ensures r != null ==> r.Valid() && r.Value() == old(x.Value()) && r.d == old(x.d)
  {
    if r != null {
      Swap(r, x);
    }
  }

  /** mpz_gcdext: the gcd of any two integers with cofactors (each optional). */
  method GcdExt(g: Mpz, s: Mpz?, t: Mpz?, u: Mpz, v: Mpz) returns (ghost S: int, ghost T: int)
    requires u.Valid() && v.Valid() && Separate(u, v)
    requires OutputOf(g, u, v) && OutputOf(s, u, v) && OutputOf(t, u, v)
    requires Apart(g, s) && Apart(g, t) && Apart(s, t)
    modifies g, g.d, Footprint(s), Footprint(t)
    ensures g.Valid() && ExtendedGcd(g.Value(), old(u.Value()), old(v.Value()), S, T)
    ensures IsGcd(g.Value(), old(u.Value()), old(v.Value()))
    ensures s != null ==> s.Valid() && s.Value() == S && (s.d == old(s.d) || fresh(s.d))
    ensures t != null ==> t.Valid() && t.Value() == T && (t.d == old(t.d) || fresh(t.d))
    ensures g.d == old(g.d) || fresh(g.d)
    ensures Apart(g, s) && Apart(g, t) && Apart(s, t)
  {
    hide Val, Mpz.Value, Mpz.Mag, Bezout, IsGcd, ExtendedGcd;
    ghost var x, y := u.Value(), v.Value();
    SizeSign(u);
    SizeSign(v);
    if u.size == 0 {
      S, T := 0, Mpn.Sign(y);
      ZeroOperand(x, y);
      GcdWithZero(g, t, s, v);
    } else if v.size == 0 {
      S, T := Mpn.Sign(x), 0;
      ZeroOperand(y, x);
      GcdWithZero(g, s, t, u);
    } else {
      S, T := GcdExtNonZero(g, s, t, u, v);
    }
    ExtendedGcdIsGcd(g.Value(), x, y, S, T);
  }

  method GcdExtNonZero(g: Mpz, s: Mpz?, t: Mpz?, u: Mpz, v: Mpz) returns (ghost S: int, ghost T: int)
    requires u.Valid() && v.Valid() && Separate(u, v) && u.Value() != 0 && v.Value() != 0
    requires OutputOf(g, u, v) && OutputOf(s, u, v) && OutputOf(t, u, v)
    requires Apart(g, s) && Apart(g, t) && Apart(s, t)
    modifies g, g.d, Footprint(s), Footprint(t)
    ensures g.Valid() && ExtendedGcd(g.Value(), old(u.Value()), old(v.Value()), S, T)
    ensures s != null ==> s.Valid() && s.Value() == S && fresh(s.d)
    ensures t != null ==> t.Valid() && t.Value() == T && fresh(t.d)
    ensures fresh(g.d) && Apart(g, s) && Apart(g, t) && Apart(s, t)
  {
    hide Val, Mpz.Value, Mpz.Mag, Bezout, Halved;
    var tv, s0, t0 := GcdNonZero(u, v);
    S, T := s0.Value(), t0.Value();
    BezoutSum(tv.Value(), u.Value(), v.Value(), S, T);
    PutSwap(g, tv);
    PutSwap(s, s0);
    PutSwap(t, t0);
  }

  lemma ZeroOperand(z: int, y: int)
    requires z == 0
    ensures ExtendedGcd(Abs(y), z, y, 0, Mpn.Sign(y)) && ExtendedGcd(Abs(y), y, z, Mpn.Sign(y), 0)
  {
  }

  lemma BezoutSum(g: int, x: int, y: int, s: int, t: int)
    requires Bezout(g, x, y, s, t)
    ensures g == s * x + t * y
  {
  }

  /** The early returns: one operand is zero, the other keeps its sign as cofactor. */
  method GcdWithZero(g: Mpz, c: Mpz?, z: Mpz?, v: Mpz)
    requires v.Valid() && OutputOf(g, v, v) && OutputOf(c, v, v) && OutputOf(z, v, v)
    requires Apart(g, c) && Apart(g, z) && Apart(c, z)
    modifies g, g.d, Footprint(c), Footprint(z)
    ensures g.Valid() && g.Value() == Abs(old(v.Value()))
    ensures c != null ==> c.Valid() && c.Value() == Mpn.Sign(old(v.Value())) && c.d == old(c.d)
    ensures z != null ==> z.Valid() && z.Value() == 0 && z.d == old(z.d)
    ensures g.d == old(g.d) || fresh(g.d)
  {
    hide Val, Mpz.Value, Mpz.Mag;
    SizeSign(v);
    var sign := Sgn(v);
    AbsTo(g, v);
    if z != null {
      SetUi(z, 0);
    }
    if c != null {
      SetSi(c, sign);
    }
  }

  // ---------------------------------------------------------------------- mpz_invert

  /** 1 is not a multiple of a number beyond -1, 0 and 1. */
  lemma UnitNotMultiple(m: int)
    requires Abs(m) > 1
    ensures !Multiple(1, m)
  {
    if Multiple(1, m) {
      var k := Factor(1, m);
      var a := Abs(m);
      if k == 0 {
      } else {
        ProductAtLeast(k, m);
      }
    }
  }

  lemma ZeroNotInvertible(m: int)
    requires Abs(m) > 1
    ensures !IsGcd(1, 0, m)
  {
    UnitNotMultiple(m);
    MultipleOf(0, m, 0);
    MultipleOf(m, m, 1);
  }

  /** r is the inverse of u modulo m in the range 0 < r < |m|. */
  predicate InverseMod(r: int, u: int, m: int) {
    m != 0 && 0 < r < Abs(m) && (r * u) % Abs(m) == 1
  }

  /** A number below the modulus in magnitude, from an extended gcd of 1. */
  lemma InverseRange(u: int, m: int, S: int, T: int)
    requires Abs(m) > 1 && u != 0 && ExtendedGcd(1, u, m, S, T)
    ensures InverseMod(if S < 0 then S + Abs(m) else S, u, m)
  {
    hide Multiple;
    UnitNotMultiple(m);
    if Abs(S) == Abs(m) || S == 0 {
      MultipleOf(S, m, if S == 0 then 0 else if S == m then 1 else -1);
      MultipleOf(m, m, 1);
      CombinationDivides(m, S, m, u, T);
    }
    var q: int := (if m < 0 then T else 0 - T) + (if S < 0 then u else 0);
    ResidueOfCombination(u, m, S, T);
    ResidueOne(if S < 0 then S + Abs(m) else S, u, Abs(m), q);
  }

  lemma ResidueOne(r: int, u: int, a: int, q: int)
    requires a > 1 && r * u == q * a + 1
    ensures (r * u) % a == 1
  {
    DivModUnique(r * u, a, q, 1);
  }

  lemma ResidueOfCombination(u: int, m: int, S: int, T: int)
    requires S * u + T * m == 1
    ensures (if S < 0 then S + Abs(m) else S) * u
         == ((if m < 0 then T else 0 - T) + (if S < 0 then u else 0)) * Abs(m) + 1
  {
    var a, t := Abs(m), if m < 0 then T else 0 - T;
    assert t * a == 0 - T * m;
    assert (t + u) * a == t * a + u * a;
    assert (S + a) * u == S * u + u * a;
  }

  /** u has an inverse modulo m exactly when 1 is the gcd. */
  lemma InverseExists(u: int, m: int, k: int)
    requires Abs(m) > 1 && (k * u) % Abs(m) == 1
    ensures IsGcd(1, u, m)
  {
    var a := Abs(m);
    var q := k * u / a;
    assert k * u == a * q + 1;
    var t := if m < 0 then q else 0 - q;
    assert k * u + t * m == 1;
    MultipleOf(u, 1, u);
    MultipleOf(m, 1, m);
    BezoutGcd(1, u, m, k, t);
  }

  /** mpz_invert: succeeds exactly when |m| > 1 and u is coprime to m; then r is the inverse
      in the range 0 < r < |m|.  Otherwise r keeps its value. */
  method Invert(r: Mpz, u: Mpz, m: Mpz) returns (invertible: bool)
    requires r.Valid() && u.Valid() && m.Valid()
    requires Separate(r, u) && Separate(r, m) && Separate(u, m)
    modifies r
    ensures invertible == (Abs(old(m.Value())) > 1 && IsGcd(1, old(u.Value()), old(m.Value())))
    ensures r.Valid() && (r.d == old(r.d) || fresh(r.d))
    ensures invertible ==> InverseMod(r.Value(), old(u.Value()), old(m.Value()))
    ensures !invertible ==> r.size == old(r.size) && r.d == old(r.d)
  {
    hide Val, Mpz.Value, Mpz.Mag, IsGcd, ExtendedGcd, InverseMod;
    ghost var x, y := u.Value(), m.Value();
    SizeSign(u);
    SizeSign(m);
    var small := CmpAbsUi(m, 1);
    if u.size == 0 || small <= 0 {
      if small > 0 { ZeroNotInvertible(y); }
      return false;
    }
    var tr;
    invertible, tr := InverseCandidate(u, m);
    if invertible {
      SwapOwned(r, tr);
    }
  }

  method InverseCandidate(u: Mpz, m: Mpz) returns (invertible: bool, tr: Mpz)
    requires u.Valid() && m.Valid() && Separate(u, m) && u.Value() != 0 && Abs(m.Value()) > 1
    ensures invertible == IsGcd(1, u.Value(), m.Value())
    ensures fresh(tr) && fresh(tr.d) && tr.Valid()
    ensures invertible ==> InverseMod(tr.Value(), u.Value(), m.Value())
  {
    hide Val, Mpz.Value, Mpz.Mag, IsGcd, ExtendedGcd, InverseMod;
    var g := new Mpz.Init();
    tr := new Mpz.Init();
    ghost var S, T := GcdExt(g, tr, null, u, m);
    var c := CmpUi(g, 1);
    invertible := c == 0;
    if invertible {
      InverseRange(u.Value(), m.Value(), S, T);
      ReduceSign(tr, m);
    } else if IsGcd(1, u.Value(), m.Value()) {
      GcdUnique(g.Value(), 1, u.Value(), m.Value());
    }
  }

  /** A negative residue is moved into the positive range. */
  method ReduceSign(tr: Mpz, m: Mpz)
    requires Own2(tr, m) && m.Value() != 0
    modifies tr, tr.d
    ensures tr.Valid() && (tr.d == old(tr.d) || fresh(tr.d))
    ensures tr.Value() == old(tr.Value()) + (if old(tr.Value()) < 0 then Abs(old(m.Value())) else 0)
  {
    hide Val, Mpz.Value, Mpz.Mag;
    SizeSign(tr);
    SizeSign(m);
    if tr.size < 0 {
      if m.size >= 0 {
        MpzBase.Add(tr, tr, m);
      } else {
        Sub(tr, tr, m);
      }
    }
  }

  // ------------------------------------------------------------------------- mpz_gcd

  /** The trailing zeros of u | v are those that u and v share. */
  lemma {:induction false} OrTrailing(x: nat, y: nat)
    requires Bitwise(Or, x, y) > 0
    ensures var p := Pow2(TrailingZeros(Bitwise(Or, x, y)));
      x == x / p * p && y == y / p * p && (x / p % 2 == 1 || y / p % 2 == 1)
  {
    if x % 2 == 0 && y % 2 == 0 {
      var w := Bitwise(Or, x / 2, y / 2);
      assert Bitwise(Or, x, y) == 2 * w;
      OrTrailing(x / 2, y / 2);
      var q := Pow2(TrailingZeros(w));
      assert TrailingZeros(2 * w) == 1 + TrailingZeros(w);
      assert Pow2(1 + TrailingZeros(w)) == 2 * q;
      EvenQuotient(x, q);
      EvenQuotient(y, q);
    } else {
      assert TrailingZeros(Bitwise(Or, x, y)) == 0;
    }
  }

  lemma EvenQuotient(x: nat, q: nat)
    requires q > 0 && x % 2 == 0 && x / 2 == x / 2 / q * q
    ensures x / (2 * q) == x / 2 / q && x == x / (2 * q) * (2 * q)
  {
    var k := x / 2 / q;
    assert k * (2 * q) == 2 * (k * q);
    DivModUnique(x, 2 * q, k, 0);
  }

  /** The odd part of an even number, by single shifts. */
  method ShiftOdd(v0: Limb, ghost w: int) returns (v: Limb)
    requires v0 > 0 && w % 2 == 1
    ensures 0 < v <= v0 && v % 2 == 1 && SameDivisors(v0, w, v, w)
  {
    hide SameDivisors;
    v := v0;
    SameSub(v0, w, 0);
    while v % 2 == 0
      invariant 0 < v <= v0 && SameDivisors(v0, w, v, w)
      decreases v
    {
      SameHalf(v / 2, w);
      SameTrans(v0, w, v, w, v / 2, w);
      v := v / 2;
    }
  }

  /** The loop of mpn_gcd_11 on odd numbers. */
  method OddGcd11(u0: Limb, v0: Limb) returns (u: Limb)
    requires u0 % 2 == 1 && v0 % 2 == 1
    ensures 0 < u <= u0 && IsGcd(u, u0, v0)
  {
    hide SameDivisors, IsGcd;
    var v: Limb := v0;
    u := u0;
    SameSub(u0, v0, 0);
    while u != v
      invariant 0 < u <= u0 && 0 < v && u % 2 == 1 && v % 2 == 1 && SameDivisors(u0, v0, u, v)
      decreases u + v
    {
      ghost var a: int, b: int := u, v;
      if u > v {
        u := u - v;
        SameSub(a, b, 1);
        u := ShiftOdd(u, v);
        SameTrans(u0, v0, a, b, a - b, b);
        SameTrans(u0, v0, a - b, b, u, b);
      } else {
        v := v - u;
        SameSub(b, a, 1);
        v := ShiftOdd(v, u);
        SameFlip(u0, v0, a, b);
        SameTrans(u0, v0, b, a, b - a, a);
        SameTrans(u0, v0, b - a, a, v, a);
        SameFlip(u0, v0, v, a);
      }
    }
    GcdSelf(u);
    GcdSame(u, u0, v0, u, u);
  }

  /** mpn_gcd_11 once the common power of two has been removed. */
  method Gcd11Odd(u: Limb, v: Limb) returns (g: Limb)
    requires u > 0 && v > 0 && (u % 2 == 1 || v % 2 == 1)
    ensures IsGcd(g, u, v) && 0 < g && (g <= u || g <= v)
  {
    hide SameDivisors, IsGcd;
    var a, b: Limb := u, v;
    if a % 2 == 0 {
      a, b := b, a;
    }
    ghost var b0: int := b;
    b := ShiftOdd(b, a);
    g := OddGcd11(a, b);
    GcdSymmetric(g, a, b);
    GcdSame(g, b0, a, b, a);
    GcdSymmetric(g, b0, a);
  }

  /** mpn_gcd_11 */
  method Gcd11(u: Limb, v: Limb) returns (g: Limb)
    requires u > 0 || v > 0
    ensures IsGcd(g, u, v) && g > 0
  {
    hide SameDivisors, IsGcd, Pow2, TrailingZeros, Bitwise;
    GcdSelf(u);
    GcdSelf(v);
    if u == 0 {
      return v;
    } else if v == 0 {
      return u;
    }
    OrNonZero(u, v);
    var shift := MpnDiv.Ctz(LimbOr(u, v));
    OrTrailing(u, v);
    ghost var p := Pow2(shift);
    var a, b := Shr(u, shift), Shr(v, shift);
    ExactQuotient(u, a, p);
    ExactQuotient(v, b, p);
    g := Gcd11Odd(a, b);
    GcdTimesPower(g, a, b, shift);
    FitsShift(g, if g <= a then a else b, p);
    g := Shl(g, shift);
  }

  lemma ExactQuotient(u: nat, a: nat, p: nat)
    requires p > 0 && a == u / p && u == u / p * p && u > 0
    ensures a > 0 && a * p == u
  {
    if a == 0 { MulNonNeg(a, p); }
  }

  lemma OrNonZero(u: Limb, v: Limb)
    requires u > 0
    ensures LimbOr(u, v) > 0
  {
    OrGrows(u, v);
  }

  lemma {:induction false} OrGrows(x: nat, y: nat)
    ensures Bitwise(Or, x, y) >= x
  {
    if x > 0 || y > 0 {
      OrGrows(x / 2, y / 2);
    }
  }

  lemma FitsShift(g: nat, a: nat, p: nat)
    requires g <= a && a * p < B
    ensures g * p % B == g * p
  {
    MulMono(g, a, p);
  }

  /** One pass of the mpz_gcd loop without its exits: tu is made odd and the larger number first. */
  method OrderOdd(tu: Mpz, tv: Mpz) returns (equal: bool)
    requires Own2(tu, tv) && tu.Value() > 0 && tv.Value() > 0 && tv.Value() % 2 == 1
    modifies tu, tu.d, tv
    ensures Own2(tu, tv) && tu.Value() >= tv.Value() > 0 && tu.Value() % 2 == 1 && tv.Value() % 2 == 1
    ensures equal == (tu.Value() == tv.Value())
    ensures tu.Value() + tv.Value() <= old(tu.Value()) + old(tv.Value())
    ensures SameDivisors(old(tu.Value()), old(tv.Value()), tu.Value(), tv.Value())
    ensures {tu.d, tv.d} == {old(tu.d), old(tv.d)} || fresh(tu.d) || fresh(tv.d)
    ensures tu.d == old(tu.d) || tu.d == old(tv.d) || fresh(tu.d)
    ensures tv.d == old(tu.d) || tv.d == old(tv.d) || fresh(tv.d)
  {
    hide Val, Mpz.Value, Mpz.Mag, Pow2, SameDivisors;
    ghost var x, y := tu.Value(), tv.Value();
    SizeSign(tu);
    var shift := MakeOdd(tu);
    ghost var x' := tu.Value();
    SmallerOddPart(x, x', Pow2(shift));
    SamePower(x', y, shift);
    var c := Cmp(tu, tv);
    equal := c == 0;
    if c < 0 {
      SwapOwned(tu, tv);
      SameFlip(x, y, x', y);
    }
  }

  /** The exit of the mpz_gcd loop for a divisor of one limb. */
  method GcdByLimb(g: Mpz, tu: Mpz, tv: Mpz)
    requires g.Valid() && Own2(tu, tv) && Own2(g, tu) && Own2(g, tv) && tu.Value() > 0 && tv.size == 1
    modifies g, g.d
    ensures g.Valid() && IsGcd(g.Value(), tu.Value(), tv.Value()) && g.d == old(g.d)
    ensures tu.Value() == old(tu.Value()) && tv.Value() == old(tv.Value())
  {
    hide Val, Mpz.Value, Mpz.Mag, SameDivisors, IsGcd, IsQuotient;
    var vl := tv.d[0];
    OneLimb(tv);
    ghost var x, y, Q := tu.Value(), tv.Value(), 0;
    var ul;
    ul, Q := DivQUi(null, null, tu, vl, Trunc);
    RemainderOf(x, vl, Q, ul);
    var w := Gcd11(ul, vl);
    SameSub(x, y, Q);
    GcdSame(w, x, y, ul, y);
    SetUi(g, w);
  }

  lemma OneLimb(x: Mpz)
    requires x.Valid() && x.size == 1
    ensures x.Value() == x.d[0] > 0
  {
    assert x.d[..1] == [x.d[0]];
    ValSingle(x.d[0]);
  }

  lemma RemainderOf(x: nat, d: nat, Q: int, r: nat)
    requires d > 0 && IsQuotient(Trunc, x, d, Q) && r == Abs(x - Q * d)
    ensures r == x - Q * d
  {
  }

  /** The loop of mpz_gcd. */
  method GcdLoop(g: Mpz, tu: Mpz, tv: Mpz)
    requires g.Valid() && Own2(tu, tv) && Own2(g, tu) && Own2(g, tv)
    requires tu.Value() > 0 && tv.Value() > 0 && tv.Value() % 2 == 1
    modifies g, g.d, tu, tu.d, tv, tv.d
    ensures g.Valid() && IsGcd(g.Value(), old(tu.Value()), old(tv.Value()))
    ensures g.d == old(g.d) || g.d == old(tu.d) || g.d == old(tv.d) || fresh(g.d)
  {
    hide Val, Mpz.Value, Mpz.Mag, SameDivisors, IsGcd;
    ghost var x0, y0 := tu.Value(), tv.Value();
    SameSub(x0, y0, 0);
    while true
      invariant g.Valid() && Own2(tu, tv) && Own2(g, tu) && Own2(g, tv) && g.d == old(g.d)
      invariant tu.Value() > 0 && tv.Value() > 0 && tv.Value() % 2 == 1
      invariant SameDivisors(x0, y0, tu.Value(), tv.Value())
      invariant tu.d == old(tu.d) || tu.d == old(tv.d) || fresh(tu.d)
      invariant tv.d == old(tu.d) || tv.d == old(tv.d) || fresh(tv.d)
      decreases tu.Value() + tv.Value()
    {
      ghost var x, y := tu.Value(), tv.Value();
      var equal := OrderOdd(tu, tv);
      ghost var a, b := tu.Value(), tv.Value();
      SameTrans(x0, y0, x, y, a, b);
      if equal {
        GcdSelf(a);
        GcdSame(a, x0, y0, a, b);
        SwapOwned(g, tu);
        return;
      }
      if tv.size == 1 {
        GcdByLimb(g, tu, tv);
        GcdSame(g.Value(), x0, y0, a, b);
        return;
      }
      Sub(tu, tu, tv);
      SameSub(a, b, 1);
      SameTrans(x0, y0, a, b, a - b, b);
    }
  }

  /** The gcd of two odd numbers, the first with at least as many limbs. */
  method GcdOdd(g: Mpz, tu: Mpz, tv: Mpz)
    requires g.Valid() && Own2(tu, tv) && Own2(g, tu) && Own2(g, tv)
    requires tu.Value() > 0 && tv.Value() > 0 && tv.Value() % 2 == 1
    modifies g, g.d, tu, tu.d, tv, tv.d
    ensures g.Valid() && IsGcd(g.Value(), old(tu.Value()), old(tv.Value()))
    ensures g.d == old(g.d) || g.d == old(tu.d) || g.d == old(tv.d) || fresh(g.d)
  {
    hide Val, Mpz.Value, Mpz.Mag, SameDivisors, IsGcd;
    ghost var x, y := tu.Value(), tv.Value();
    SizeSign(tv);
    ghost var Q, R;
    var ok, inexact;
    ok, inexact, Q, R := DivQr(null, tu, tu, tv, Trunc);
    TruncPositive(x, y, Q, R);
    SameSub(x, y, Q);
    SizeSign(tu);
    if tu.size == 0 {
      SwapOwned(g, tv);
      GcdSelf(y);
    } else {
      GcdLoop(g, tu, tv);
    }
    GcdSame(g.Value(), x, y, R, y);
  }

  /** mpz_gcd */
  method GcdTo(g: Mpz, u: Mpz, v: Mpz)
    requires g.Valid() && u.Valid() && v.Valid() && Separate(g, u) && Separate(g, v) && Separate(u, v)
    modifies g, g.d
    ensures g.Valid() && IsGcd(g.Value(), old(u.Value()), old(v.Value()))
    ensures g.d == old(g.d) || fresh(g.d)
  {
    hide Val, Mpz.Value, Mpz.Mag, SameDivisors, IsGcd, Pow2;
    ghost var x, y := u.Value(), v.Value();
    SizeSign(u);
    SizeSign(v);
    GcdSelf(Abs(x));
    GcdSelf(Abs(y));
    if u.size == 0 {
      AbsTo(g, v);
      GcdOfAbs(Abs(y), x, y);
      return;
    }
    if v.size == 0 {
      AbsTo(g, u);
      GcdOfAbs(Abs(x), x, y);
      return;
    }
    var tu, tv, uz, vz;
    tu, uz := OddAbs(u);
    tv, vz := OddAbs(v);
    var gz := if uz <= vz then uz else vz;
    ghost var a, b := tu.Value(), tv.Value();
    if tu.size < tv.size {
      GcdOdd(g, tv, tu);
      GcdSymmetric(g.Value(), b, a);
    } else {
      GcdOdd(g, tu, tv);
    }
    GcdWithPowers(g.Value(), a, b, uz, vz, gz);
    Mul2Exp(g, g, gz);
    GcdOfAbs(g.Value(), x, y);
  }

  lemma GcdWithPowers(g: int, a: nat, b: nat, uz: nat, vz: nat, gz: nat)
    requires IsGcd(g, a, b) && a % 2 == 1 && b % 2 == 1 && gz == (if uz <= vz then uz else vz)
    ensures IsGcd(g * Pow2(gz), a * Pow2(uz), b * Pow2(vz))
  {
    hide SameDivisors, IsGcd, Pow2;
    GcdSymmetric(g, a, b);
    MpnDiv.Pow2Start();
    if vz == gz {
      SamePower(a, b, uz - gz);
      GcdSame(g, a * Pow2(uz - gz), b, a, b);
    } else {
      SamePower(b, a, vz - gz);
      GcdSame(g, b * Pow2(vz - gz), a, b, a);
      GcdSymmetric(g, b * Pow2(vz - gz), a);
    }
    GcdTimesPower(g, a * Pow2(uz - gz), b * Pow2(vz - gz), gz);
    PowerBack(a, uz, gz);
    PowerBack(b, vz, gz);
  }

  lemma PowerBack(a: nat, z: nat, gz: nat)
    requires gz <= z
    ensures a * Pow2(z - gz) * Pow2(gz) == a * Pow2(z)
  {
    hide Pow2;
    Pow2Add(z - gz, gz);
  }
}
