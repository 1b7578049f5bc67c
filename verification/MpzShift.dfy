/** Multiplication and division of signed integers by powers of two, and by single limbs
    (mini-gmp.c: mpz_mul_2exp, mpz_div_q_2exp, mpz_make_odd, mpz_div_qr_ui). */
module MpzShift {
  import opened Limbs
  import opened Bits
  import opened MpzBase
  import opened MpzDiv
  import Mpn
  import MpnDiv

  // ---------------------------------------------------------------- multiplication

  lemma Pow2Limbs(limbs: nat, shift: nat)
    ensures Pow2(32 * limbs + shift) == PowB(limbs) * Pow2(shift)
  {
    PowBIsPow2(limbs);
    Pow2Add(32 * limbs, shift);
  }

  /** A product by a power of two: zero limbs below, shifted limbs above. */
  lemma ShiftedValue(low: seq<Limb>, s: seq<Limb>, m: nat, shift: nat, bits: nat)
    requires forall i :: 0 <= i < |low| ==> low[i] == 0
    requires Val(s) == m * Pow2(shift) && bits == 32 * |low| + shift
    ensures Val(low + s) == m * Pow2(bits)
  {
    hide Val, Shift, PowB, Pow2;
    ValAppend(low, s);
    ValZeros(low);
    ShiftIsMul(Val(s), |low|);
    Pow2Limbs(|low|, shift);
    assert m * Pow2(shift) * PowB(|low|) == m * (PowB(|low|) * Pow2(shift));
  }

  /** The shifted limbs and their carry, as mpz_mul_2exp leaves them above the zero limbs. */
  method ShiftInto(rp: array<Limb>, limbs: nat, up: array<Limb>, un: nat, shift: nat) returns (n: nat)
    requires 0 < un <= up.Length && shift < LIMB_BITS && up[un - 1] != 0
    requires limbs + un + (if shift > 0 then 1 else 0) <= rp.Length
    modifies rp
    ensures 0 < n && limbs + n <= rp.Length && Normalized(rp[limbs..limbs + n])
    ensures Val(rp[limbs..limbs + n]) == old(Val(up[..un])) * Pow2(shift)
  {
    hide Val, Shift, Pow2, PowB;
    MpnDiv.Pow2Start();
    ghost var u := up[..un];
    assert up[0..0 + un] == u;
    n := un;
    if shift > 0 {
      var cy := Mpn.LShift(rp, limbs, up, 0, un, shift);
      ghost var s := rp[limbs..limbs + un];
      rp[limbs + un] := cy;
      n := un + 1 - Bool(cy == 0);
      assert rp[limbs..limbs + n] == if cy == 0 then s else s + [cy];
      ValLower(u);
      MulMono(1, Pow2(shift), Val(u));
      ShiftedNormalized(s, cy, Val(u) * Pow2(shift));
    } else {
      Mpn.CopyD(rp, limbs, up, 0, un);
    }
  }

  lemma ShiftedNormalized(s: seq<Limb>, cy: Limb, m: nat)
    requires |s| > 0 && Val(s) + Shift(cy, |s|) == m && m >= PowB(|s| - 1)
    ensures cy == 0 ==> Normalized(s) && Val(s) == m
    ensures cy != 0 ==> Normalized(s + [cy]) && Val(s + [cy]) == m
  {
    hide Val, Shift, PowB;
    ShiftZero(|s|);
    ValSnoc(s, cy);
    if cy == 0 {
      TopLimbNonZero(s);
    }
  }

  /** mpz_mul_2exp */
  method Mul2Exp(r: Mpz, u: Mpz, bits: nat)
    requires r.Valid() && u.Valid() && Separate(r, u)
    modifies r, r.d
    ensures r.Valid() && r.Value() == old(u.Value()) * Pow2(bits)
    ensures r.d == old(r.d) || fresh(r.d)
  {
    hide Val, Pow2;
    EmptyValues();
    u.SizeFacts();
    var un := Abs(u.size);
    if un == 0 {
      r.size := 0;
      return;
    }
    var limbs, shift, us := bits / LIMB_BITS, bits % LIMB_BITS, u.size;
    ghost var m := u.Mag();
    Grow(r, un + limbs + (if shift > 0 then 1 else 0));
    if r == u { GrowKeeps(r); }
    assert Val(u.d[..un]) == m;
    var rn := ShiftUpInto(r.d, u.d, un, limbs, shift, bits);
    r.size := Signed(rn, us < 0);
    Stored(r, rn, m * Pow2(bits));
    SignedProduct(m, Pow2(bits), us < 0);
  }

  /** All limbs of a left shift: the shifted ones first, then the zero limbs below them. */
  method ShiftUpInto(rp: array<Limb>, up: array<Limb>, un: nat, limbs: nat, shift: nat, ghost bits: nat)
    returns (rn: nat)
    requires 0 < un <= up.Length && shift < LIMB_BITS && up[un - 1] != 0 && bits == 32 * limbs + shift
    requires limbs + un + (if shift > 0 then 1 else 0) <= rp.Length
    modifies rp
    ensures 0 < rn <= rp.Length && Normalized(rp[..rn])
    ensures Val(rp[..rn]) == old(Val(up[..un])) * Pow2(bits)
  {
    hide Val, Pow2;
    ghost var m := Val(up[..un]);
    var n := ShiftInto(rp, limbs, up, un, shift);
    ghost var s := rp[limbs..limbs + n];
    Mpn.Zero(rp, 0, limbs);
    rn := limbs + n;
    ghost var low := rp[..limbs];
    assert rp[limbs..limbs + n] == s;
    assert rp[..rn] == low + s;
    ShiftedValue(low, s, m, shift, bits);
    assert s[n - 1] == rp[rn - 1];
  }

  // ---------------------------------------------------------------------- division

  /** Quotient and remainder of a limb vector by 2^bits, in terms of its parts. */
  lemma SplitByBits(s: seq<Limb>, l: nat, sh: nat)
    requires l < |s| && sh < LIMB_BITS
    ensures Val(s) / Pow2(32 * l + sh) == Val(s[l..]) / Pow2(sh)
    ensures Val(s) % Pow2(32 * l + sh) == 0 <==> Val(s[..l]) == 0 && s[l] % Pow2(sh) == 0
  {
    hide Val, Shift, PowB, Pow2;
    var low, H, p, P := Val(s[..l]), Val(s[l..]), Pow2(sh), PowB(l);
    ValSplit(s, l);
    ValBound(s[..l]);
    ShiftIsMul(H, l);
    Pow2Limbs(l, sh);
    MpnDiv.LowBitsOfVal(s[l..], sh);
    SplitDivision(low, H, p, P);
  }

  lemma SplitDivision(low: nat, H: nat, p: nat, P: nat)
    requires p > 0 && P > 0 && low < P
    ensures P * p > 0
    ensures (low + H * P) / (P * p) == H / p
    ensures (low + H * P) % (P * p) == 0 <==> low == 0 && H % p == 0
  {
    var h, t := H / p, H % p;
    DivModFacts(H, p);
    var r := low + t * P;
    MulStrict(0, p, P);
    assert low + H * P == h * (P * p) + r by {
      assert (h * p + t) * P == h * p * P + t * P;
      assert h * p * P == h * (P * p);
    }
    MulNonNeg(t, P);
    assert r < P * p by {
      MulMono(t, p - 1, P);
      assert (p - 1) * P == p * P - P;
    }
    DivModUnique(low + H * P, P * p, h, r);
    if t > 0 {
      MulMono(1, t, P);
    }
  }

  /** The limbs of a right shift, without the top limb if it became zero. */
  method UnshiftInto(qp: array<Limb>, up: array<Limb>, un: nat, limbs: nat, shift: nat) returns (qn: nat)
    requires limbs < un <= up.Length && un - limbs <= qp.Length && shift < LIMB_BITS && up[un - 1] != 0
    modifies qp
    ensures qn <= qp.Length && Normalized(qp[..qn])
    ensures Val(qp[..qn]) == old(Val(up[limbs..un])) / Pow2(shift)
  {
    hide Val, Pow2, PowB;
    MpnDiv.Pow2Start();
    qn := un - limbs;
    ghost var u := up[limbs..un];
    assert up[limbs..limbs + qn] == u;
    if shift != 0 {
      var out := Mpn.RShift(qp, 0, up, limbs, qn, shift);
      ghost var s := qp[..qn];
      assert qp[0..0 + qn] == s;
      UnshiftedSize(u, s, shift);
      qn := qn - Bool(qp[qn - 1] == 0);
      assert qp[..qn] == s[..qn];
    } else {
      Mpn.CopyI(qp, 0, up, limbs, qn);
      assert qp[0..0 + qn] == qp[..qn];
    }
  }

  lemma UnshiftedSize(u: seq<Limb>, s: seq<Limb>, sh: nat)
    requires |s| == |u| > 0 && u[|u| - 1] != 0 && sh < LIMB_BITS && Val(s) == Val(u) / Pow2(sh)
    ensures s[|s| - 1] != 0 ==> s[..|s|] == s && Normalized(s)
    ensures s[|s| - 1] == 0 ==> Normalized(s[..|s| - 1]) && Val(s[..|s| - 1]) == Val(s)
  {
    hide Val, PowB, Pow2;
    var n := |s| - 1;
    if s[n] == 0 {
      ValTrim(s, n);
      if n > 0 {
        ValLower(u);
        PowBAdd(1, n - 1);
        PowB1();
        Pow2Of32();
        Pow2Mono(sh, 32);
        MulMono(Pow2(sh), B, PowB(n - 1));
        DivAtLeast(Val(u), Pow2(sh), PowB(n - 1));
        TopLimbNonZero(s[..n]);
      }
    }
  }

  /** The mode rounds magnitudes up for the given sign. */
  predicate RoundsUp(mode: Rounding, neg: bool) {
    if neg then mode.Floor? else mode.Ceil?
  }

  /** q is the quotient of n by d in the given mode. */
  predicate IsQuotient(mode: Rounding, n: int, d: int, q: int) {
    Divides(mode, n, d, q, n - q * d)
  }

  lemma RoundedMagnitude(mode: Rounding, m: nat, p: nat, neg: bool, up: bool)
    requires p > 0 && up == (RoundsUp(mode, neg) && m % p != 0)
    ensures IsQuotient(mode, Signed(m, neg), p, Signed(Quo(m, p) + (if up then 1 else 0), neg))
  {
    TruncatedSigns(m, p, neg, false);
    var n, q, r := Signed(m, neg), Signed(Quo(m, p), neg), Signed(Rem(m, p), neg);
    assert r == 0 <==> m % p == 0;
    hide Quo, Rem;
    if up {
      if neg {
        FloorAdjust(n, p, q, r);
        assert Divides(mode, n, p, q - 1, n - (q - 1) * p);
      } else {
        CeilAdjust(n, p, q, r);
        assert Divides(mode, n, p, q + 1, n - (q + 1) * p);
      }
    } else {
      NoAdjust(mode, n, p, q, r);
    }
  }

  /** mpz_div_q_2exp: the quotient by 2^bits in any rounding mode; q may be u. */
  method DivQ2Exp(q: Mpz, u: Mpz, bits: nat, mode: Rounding)
    requires q.Valid() && u.Valid() && Separate(q, u)
    modifies q, q.d
    ensures q.Valid() && IsQuotient(mode, old(u.Value()), Pow2(bits), q.Value())
    ensures q.d == old(q.d) || fresh(q.d)
  {
    hide Val, Pow2, IsQuotient, Quo;
    EmptyValues();
    u.SizeFacts();
    ghost var m := u.Mag();
    if u.size == 0 {
      ZeroDivides(mode, Pow2(bits));
      q.size := 0;
      return;
    }
    var us := u.size;
    var limbs, shift := bits / LIMB_BITS, bits % LIMB_BITS;
    var adjust := false;
    if RoundsUp(mode, us < 0) {
      adjust := LowBitsSet(u, limbs, shift, bits);
    }
    RoundedMagnitude(mode, m, Pow2(bits), us < 0, adjust);
    ShiftDown(q, u, limbs, shift, bits);
    if adjust {
      AddUi(q, q, 1);
    }
    if us < 0 {
      Neg(q, q);
    }
  }

  /** The truncated quotient of the magnitude. */
  method ShiftDown(q: Mpz, u: Mpz, limbs: nat, shift: nat, ghost bits: nat)
    requires q.Valid() && u.Valid() && Separate(q, u) && u.size != 0
    requires shift < LIMB_BITS && bits == 32 * limbs + shift
    modifies q, q.d
    ensures q.Valid() && q.Value() == Quo(old(u.Mag()), Pow2(bits))
    ensures q.d == old(q.d) || fresh(q.d)
  {
    hide Val, Pow2, PowB, Quo;
    EmptyValues();
    u.SizeFacts();
    ghost var m := u.Mag();
    var un, qn := Abs(u.size), 0;
    if un > limbs {
      SplitByBits(u.d[..un], limbs, shift);
      Grow(q, un - limbs);
      if q == u { GrowKeeps(q); }
      assert u.d[..un][limbs..] == u.d[limbs..un];
      qn := UnshiftInto(q.d, u.d, un, limbs, shift);
    } else {
      TooFewLimbs(m, un, bits);
    }
    q.size := qn;
    Stored(q, qn, Quo(m, Pow2(bits)));
  }

  lemma ZeroDivides(mode: Rounding, p: nat)
    requires p > 0
    ensures IsQuotient(mode, 0, p, 0)
  {
  }

  lemma TooFewLimbs(m: nat, un: nat, bits: nat)
    requires m < PowB(un) && 32 * un <= bits
    ensures Quo(m, Pow2(bits)) == 0 && Rem(m, Pow2(bits)) == m
  {
    PowBIsPow2(un);
    Pow2Mono(32 * un, bits);
    DivModUnique(m, Pow2(bits), 0, m);
  }

  /** The `adjust` test: some bit below the given index is set. */
  method LowBitsSet(u: Mpz, limbs: nat, shift: nat, ghost bits: nat) returns (set_: bool)
    requires u.Valid() && u.size != 0 && shift < LIMB_BITS && bits == 32 * limbs + shift
    ensures set_ == (u.Mag() % Pow2(bits) != 0)
  {
    hide Val, Pow2, PowB, LimbAnd;
    u.SizeFacts();
    var un := Abs(u.size);
    if un <= limbs {
      TooFewLimbs(u.Mag(), un, bits);
      PowBMono(0, un - 1);
      return true;
    }
    SplitByBits(u.d[..un], limbs, shift);
    assert u.d[..un][..limbs] == u.d[..limbs];
    var zn := Mpn.NormalizedSize(u.d, limbs);
    ZeroSize(u.d[..zn]);
    MaskLimb(u.d[limbs], shift);
    set_ := zn != 0 || LimbAnd(u.d[limbs], Shl(1, shift) - 1) != 0;
  }

  lemma ZeroSize(s: seq<Limb>)
    requires Normalized(s)
    ensures Val(s) == 0 <==> |s| == 0
  {
    if |s| > 0 {
      ValLower(s);
    }
  }

  lemma MaskLimb(x: Limb, c: nat)
    requires c < LIMB_BITS
    ensures Shl(1, c) >= 1 && LimbAnd(x, Shl(1, c) - 1) == x % Pow2(c)
  {
    hide Pow2, Bitwise;
    Pow2Of32();
    Pow2Mono(c, 31);
    AndMask(x, c);
    assert 1 * Pow2(c) % B == Pow2(c);
  }

  // ------------------------------------------------------------------ odd parts

  lemma OddPart(s: seq<Limb>, i: nat)
    requires i < |s| && s[i] != 0 && forall j :: 0 <= j < i ==> s[j] == 0
    ensures var z := 32 * i + TrailingZeros(s[i]);
      Val(s) % Pow2(z) == 0 && Val(s) / Pow2(z) % 2 == 1
  {
    hide Val, Pow2, TrailingZeros;
    var t := TrailingZeros(s[i]);
    TrailingZerosFactor(s[i]);
    CountTrailing(s[i]);
    SplitByBits(s, i, t);
    ValZeros(s[..i]);
    DivModUnique(s[i], Pow2(t), s[i] / Pow2(t), 0);
    BitOfTail(s[i..], t);
  }

  lemma CountTrailing(x: Limb)
    requires x > 0
    ensures TrailingZeros(x) < LIMB_BITS
  {
    hide TrailingZeros, Pow2;
    var t := TrailingZeros(x);
    TrailingZerosFactor(x);
    if x / Pow2(t) <= 0 {
      MulMono(x / Pow2(t), 0, Pow2(t));
    }
    MulMono(1, x / Pow2(t), Pow2(t));
    MpnDiv.CountBound(1, t);
  }

  /** Bit sh of a limb vector lies in its first limb. */
  lemma BitOfTail(s: seq<Limb>, sh: nat)
    requires |s| > 0 && sh < LIMB_BITS
    ensures Val(s) / Pow2(sh) % 2 == s[0] / Pow2(sh) % 2
  {
    hide Pow2;
    var x: int, H, p, q := s[0], Val(s[1..]), Pow2(sh), Pow2(LIMB_BITS - sh - 1);
    Pow2Of32();
    Pow2Add(sh, LIMB_BITS - sh);
    Pow2Next(LIMB_BITS - sh - 1);
    TailBit(x, H, p, q);
  }

  lemma Pow2Next(n: nat)
    ensures Pow2(n + 1) == 2 * Pow2(n)
  {
  }

  lemma TailBit(x: int, H: int, p: int, q: int)
    requires p > 0 && p * (2 * q) == B
    ensures (x + B * H) / p % 2 == x / p % 2
  {
    var a, b := x / p, x % p;
    TailBitRegroup(H, p, q);
    Distribute(a, 2 * (q * H), p);
    DivModUnique(x + B * H, p, a + 2 * (q * H), b);
  }

  lemma TailBitRegroup(H: int, p: int, q: int)
    requires p * (2 * q) == B
    ensures B * H == 2 * (q * H) * p
  {
    assert (p * (2 * q)) * H == 2 * (q * H) * p;
  }

  /** mpz_make_odd: divide a positive number by the power of two it contains. */
  method MakeOdd(r: Mpz) returns (shift: nat)
    requires r.Valid() && r.size > 0
    modifies r, r.d
    ensures r.Valid() && r.Value() > 0 && r.Value() % 2 == 1
    ensures old(r.Value()) == r.Value() * Pow2(shift)
    ensures r.d == old(r.d) || fresh(r.d)
  {
    hide Val, Pow2, TrailingZeros;
    r.SizeFacts();
    ghost var m := r.Mag();
    var i := 0;
    while r.d[i] == 0
      invariant 0 <= i < r.size && forall j :: 0 <= j < i ==> r.d[j] == 0
      decreases r.size - i
    {
      if i == r.size - 1 {
        assert false;
      }
      i := i + 1;
    }
    var c := MpnDiv.Ctz(r.d[i]);
    shift := i * LIMB_BITS + c;
    OddPart(r.d[..r.size], i);
    DivQ2Exp(r, r, shift, Trunc);
    OddQuotient(m, Pow2(shift), r.Value());
  }

  lemma OddQuotient(m: nat, p: nat, q: int)
    requires p > 0 && m > 0 && m % p == 0 && m / p % 2 == 1 && IsQuotient(Trunc, m, p, q)
    ensures m == q * p && q % 2 == 1 && q > 0
  {
    var r := m - q * p;
    DivModUnique(m, p, q, r);
    if q <= 0 { MulMono(q, 0, p); }
  }

  // -------------------------------------------------------- division by one limb

  lemma TruncatedUi(m: nat, d: Limb, neg: bool, up: bool, mode: Rounding)
    requires d > 0 && up == (RoundsUp(mode, neg) && m % d != 0)
    ensures IsQuotient(mode, Signed(m, neg), d, Signed(Quo(m, d) + (if up then 1 else 0), neg))
    ensures Signed(m, neg) - Signed(Quo(m, d) + (if up then 1 else 0), neg) * d
         == Signed(if up then d - m % d else m % d, neg != up)
  {
    RoundedMagnitude(mode, m, d, neg, up);
    DivModFacts(m, d);
    var q := Quo(m, d) + (if up then 1 else 0);
    SignedProduct(q, d, neg);
    assert (Quo(m, d) + 1) * d == Quo(m, d) * d + d;
  }

  /** mpz_div_qr_ui: quotient and remainder (both optional; either may be n) by a nonzero limb; the
      magnitude of the remainder is returned. */
  method DivQUi(q: Mpz?, r: Mpz?, n: Mpz, d: Limb, mode: Rounding) returns (rl: Limb, ghost Q: int)
    requires n.Valid() && d > 0 && (q != null ==> q.Valid() && Separate(q, n))
    requires r != null ==> r.Valid() && Separate(r, n) && (q != null ==> q != r && q.d != r.d)
    modifies Footprint(q), Footprint(r)
    ensures IsQuotient(mode, old(n.Value()), d, Q) && rl == Abs(old(n.Value()) - Q * d)
    ensures q != null ==> q.Valid() && q.Value() == Q && (q.d == old(q.d) || fresh(q.d))
    ensures r != null ==> r.Valid() && r.Value() == old(n.Value()) - Q * d && r.d == old(r.d)
  {
    hide Val, IsQuotient, Quo;
    EmptyValues();
    n.SizeFacts();
    var ns, qn := n.size, Abs(n.size);
    ghost var m := n.Mag();
    if ns == 0 {
      ZeroDivides(mode, d);
      if q != null {
        SetZero(q);
      }
      if r != null {
        SetZero(r);
      }
      return 0, 0;
    }
    var qp: array?<Limb> := null;
    if q != null {
      Grow(q, qn);
      if q == n { GrowKeeps(q); }
      qp := q.d;
    }
    rl := MpnDiv.DivQr1(qp, n.d, qn, d);
    var up := rl > 0 && RoundsUp(mode, ns < 0);
    TruncatedUi(m, d, ns < 0, up, mode);
    Q := Signed(Quo(m, d) + (if up then 1 else 0), ns < 0);
    if q != null {
      StoreQuotientUi(q, qn, ns < 0, up, m, d);
    }
    if up {
      rl := d - rl;
    }
    if r != null {
      StoreRemainderUi(r, rl, (ns < 0) != up);
    }
  }

  /** The remainder takes one limb, or none. */
  method StoreRemainderUi(r: Mpz, rl: Limb, neg: bool)
    requires r.d.Length >= 1
    modifies r`size, r.d
    ensures r.Valid() && r.Value() == Signed(rl, neg) && r.d == old(r.d)
  {
    EmptyValues();
    r.d[0] := rl;
    r.size := Signed(Bool(rl > 0), neg);
    assert r.d[..1] == [rl];
    ValSingle(rl);
  }

  /** The quotient limbs are rounded up if asked, and stored. */
  method StoreQuotientUi(q: Mpz, qn: nat, neg: bool, up: bool, ghost m: nat, ghost d: Limb)
    requires 0 < qn <= q.d.Length && d > 0 && PowB(qn - 1) <= m < PowB(qn)
    requires Val(q.d[..qn]) == m / d && (up ==> m % d != 0)
    modifies q`size, q.d
    ensures q.Valid() && q.Value() == Signed(Quo(m, d) + (if up then 1 else 0), neg) && q.d == old(q.d)
  {
    hide Val, PowB, Quo;
    EmptyValues();
    ghost var v := Quo(m, d) + (if up then 1 else 0);
    assert q.d[0..0 + qn] == q.d[..qn];
    if up {
      var cy := Mpn.Add1(q.d, 0, q.d, 0, qn, 1);
      assert q.d[0..0 + qn] == q.d[..qn];
      RoundedFits(q.d[..qn], cy, m, d);
    }
    QuotientUiSize(q.d[..qn], v, m, d);
    var rn := qn - Bool(q.d[qn - 1] == 0);
    assert q.d[..qn][..rn] == q.d[..rn];
    q.size := Signed(rn, neg);
    Stored(q, rn, v);
  }

  lemma RoundedFits(s: seq<Limb>, cy: Limb, m: nat, d: Limb)
    requires d > 0 && m < PowB(|s|) && m % d != 0 && Val(s) + Shift(cy, |s|) == m / d + 1
    ensures cy == 0 && Val(s) == m / d + 1
  {
    hide Val, PowB, Shift;
    DivModFacts(m, d);
    assert d > 1;
    assert m / d + 1 <= m by {
      DivNonNeg(m, d);
      assert m / d * d >= 2 * (m / d) by { MulMono(2, d, m / d); }
    }
    ShiftOne(|s|);
    ShiftZero(|s|);
    if cy >= 1 {
      ShiftMono(1, cy, |s|);
    }
  }

  lemma QuotientUiSize(s: seq<Limb>, v: nat, m: nat, d: Limb)
    requires |s| > 0 && d > 0 && Val(s) == v && v >= m / d && m >= PowB(|s| - 1)
    ensures s[|s| - 1] == 0 ==> Normalized(s[..|s| - 1]) && Val(s[..|s| - 1]) == v
    ensures s[|s| - 1] != 0 ==> s[..|s|] == s && Normalized(s)
  {
    hide Val, PowB;
    var n := |s| - 1;
    if s[n] == 0 {
      ValTrim(s, n);
      if n > 0 {
        PowBAdd(1, n - 1);
        PowB1();
        MulMono(d, B, PowB(n - 1));
        DivAtLeast(m, d, PowB(n - 1));
        TopLimbNonZero(s[..n]);
      }
    }
  }
}
