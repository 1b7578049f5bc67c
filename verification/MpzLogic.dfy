/** mpz_and, mpz_ior and mpz_xor: bitwise operators on numbers kept as sign and magnitude,
    with infinite two's-complement semantics (mini-gmp.c, logical operations). */
module MpzLogic {
  import opened Limbs
  import opened Bits
  import opened MpzBase
  import opened MpzBits
  import MpzShift
  import Mpn

  // ------------------------------------------------ two's-complement limbs of a number

  /** t is the low part of the two's complement of the magnitude a (negated if neg), with c the
      carry of the +1 that negation still has to add. */
  predicate TwosPrefix(a: seq<Limb>, neg: bool, t: seq<Limb>, c: Limb) {
    && |t| <= |a| && c <= 1
    && (neg ==> Val(t) == Shift(1, |t|) - Shift(c, |t|) - Val(a[..|t|]))
    && (!neg ==> c == 0 && Val(t) == Val(a[..|t|]))
  }

  lemma TwosStart(a: seq<Limb>, neg: bool)
    ensures TwosPrefix(a, neg, [], Bool(neg))
  {
  }

  /** One limb of negation (or of copying): complement, add the carry, wrap. */
  lemma TwosNext(a: seq<Limb>, neg: bool, t: seq<Limb>, c: Limb, l: Limb, c': Limb)
    requires |t| < |a| && TwosPrefix(a, neg, t, c)
    requires l == (LimbOp(Xor, a[|t|], if neg then B - 1 else 0) + c) % B && c' == Bool(l < c)
    ensures TwosPrefix(a, neg, t + [l], c')
  {
    hide Val, Shift, LimbOp;
    var i := |t|;
    XorMask(a[i], neg);
    ValSnoc(t, l);
    ValPrefixNext(a, i);
    if neg {
      var x: int, y: int, k: int, k': int := a[i], l, c, c';
      assert y + k' * B == B - 1 - x + k;
      ShiftAdd(y, B * k', i);
      ShiftAdd(B - 1 - x, k, i);
      ShiftAdd(B - 1, x, i);
      ShiftAdd(B, 1, i);
      ShiftNext(k', i);
      ShiftNext(1, i);
    }
  }

  /** The carry of a negation dies at a nonzero limb. */
  lemma TwosCarryEnds(a: seq<Limb>, neg: bool, t: seq<Limb>, c: Limb)
    requires TwosPrefix(a, neg, t, c) && 0 < |t| <= |a| && a[|t| - 1] != 0
    ensures c == 0
  {
    hide Val, Shift, PowB;
    ValLower(a[..|t|]);
  }

  /** t holds the low limbs of x in two's complement. */
  predicate LowLimbs(x: int, t: seq<Limb>) {
    Val(t) == x % PowB(|t|)
  }

  lemma PrefixIsLow(a: seq<Limb>, neg: bool, t: seq<Limb>, c: Limb)
    requires TwosPrefix(a, neg, t, c)
    ensures LowLimbs(Signed(Val(a), neg), t)
  {
    hide Val, Shift, PowB;
    var n, P := |t|, PowB(|t|);
    ValSplit(a, n);
    ValBound(t);
    var h: int := Val(a[n..]);
    ShiftIsMul(h, n);
    ShiftIsMul(c, n);
    ShiftOne(n);
    if neg {
      assert (1 - c as int - h) * P == P - c * P - h * P;
      assert (-(1 - c as int) - h) * P == -P + c * P - h * P;
      DivModUnique(-(Val(a) as int), P, -(1 - c as int) - h, Val(t));
    } else {
      DivModUnique(Val(a), P, h, Val(t));
    }
  }

  /** A bit of x below 2^(32*|t|) is a bit of one of its low limbs. */
  lemma BitOfLow(x: int, t: seq<Limb>, k: nat)
    requires LowLimbs(x, t) && k / 32 < |t|
    ensures TwosBit(x, k) == Bit(t[k / 32], k % 32)
  {
    hide Val, PowB, Pow2;
    var n, P, p := |t|, PowB(|t|), Pow2(k);
    var q := Pow2(32 * n - k - 1);
    PowBIsPow2(n);
    Pow2Add(k, 32 * n - k);
    MpzShift.Pow2Next(32 * n - k - 1);
    DivModFacts(x, P);
    LowBitsAgree(x, x / P, Val(t), P, p, q);
    MpzShift.SplitByBits(t, k / 32, k % 32);
    MpzShift.BitOfTail(t[k / 32..], k % 32);
  }

  lemma LowBitsAgree(x: int, h: int, v: int, P: nat, p: nat, q: nat)
    requires p > 0 && P == p * (2 * q) && x == h * P + v
    ensures x / p % 2 == v / p % 2
  {
    assert x == v + 2 * p * (q * h) by {
      assert h * (p * (2 * q)) == 2 * p * (q * h);
    }
    LowBitSame(v, p, q * h);
  }

  // ---------------------------------------------------------------------- the limb loop

  /** The operands' limbs i in two's complement and the result limb of one loop iteration. */
  method LogicStep(op: LogicOp, ul: Limb, vl: Limb, rneg: bool, rc: Limb) returns (rl: Limb, rc': Limb)
    ensures rl == (LimbOp(Xor, LimbOp(op, ul, vl), if rneg then B - 1 else 0) + rc) % B
    ensures rc' == Bool(rl < rc)
  {
    rl := (LimbOp(Xor, LimbOp(op, ul, vl), if rneg then B - 1 else 0) + rc) % B;
    rc' := Bool(rl < rc);
  }

  method Negate(x: Limb, neg: bool, c: Limb) returns (l: Limb, c': Limb)
    ensures l == (LimbOp(Xor, x, if neg then B - 1 else 0) + c) % B
    ensures c' == Bool(l < c)
  {
    l := (LimbOp(Xor, x, if neg then B - 1 else 0) + c) % B;
    c' := Bool(l < c);
  }

  function Zeros(n: nat): (z: seq<Limb>)
    ensures |z| == n && forall i :: 0 <= i < n ==> z[i] == 0
  {
    seq(n, _ => 0)
  }

  /** What the loops of the three operators leave in rp[..rn] and rc: the magnitude of the limbs
      tr == tu op tv, where tu and tv are the operands in two's complement. */
  ghost predicate LogicResult(op: LogicOp, U: int, V: int, rneg: bool, rn: nat, r: seq<Limb>, rc: Limb,
                              tu: seq<Limb>, tv: seq<Limb>, tr: seq<Limb>) {
    && |tu| == |tv| == |tr| == |r| == rn
    && LowLimbs(U, tu) && LowLimbs(V, tv)
    && (forall i :: 0 <= i < rn ==> tr[i] == LimbOp(op, tu[i], tv[i]))
    && TwosPrefix(tr, rneg, r, rc)
  }

  /** The limbs of u above the top of v: v contributes its sign.  mpz_xor writes the limb as
      ul ^ ux, which is the same. */
  method TailStep(op: LogicOp, ul: Limb, uneg: bool, vneg: bool, rc: Limb) returns (rl: Limb, rc': Limb)
    ensures var vx := if vneg then B - 1 else 0; var rx := if op.Eval(uneg, vneg) then B - 1 else 0;
      rl == (LimbOp(Xor, LimbOp(op, ul, vx), rx) + rc) % B && rc' == Bool(rl < rc)
  {
    hide LimbOp;
    if op.Xor? {
      XorMask(ul, uneg);
      XorMask(ul, vneg);
      XorMask(LimbOp(Xor, ul, if vneg then B - 1 else 0), uneg != vneg);
      rl := (LimbOp(Xor, ul, if uneg then B - 1 else 0) + rc) % B;
    } else {
      rl := (LimbOp(Xor, LimbOp(op, ul, if vneg then B - 1 else 0), if op.Eval(uneg, vneg) then B - 1 else 0) + rc) % B;
    }
    rc' := Bool(rl < rc);
  }

  /** The state of the loops after i limbs. */
  ghost predicate LogicSoFar(op: LogicOp, a: seq<Limb>, uneg: bool, b: seq<Limb>, vneg: bool, i: nat,
                             tu: seq<Limb>, uc: Limb, tv: seq<Limb>, vc: Limb,
                             tr: seq<Limb>, w: seq<Limb>, rc: Limb) {
    && |tu| == |tv| == |tr| == |w| == i
    && TwosPrefix(a, uneg, tu, uc) && TwosPrefix(b, vneg, tv, vc)
    && TwosPrefix(tr, op.Eval(uneg, vneg), w, rc)
    && forall j :: 0 <= j < i ==> tr[j] == LimbOp(op, tu[j], tv[j])
  }

  lemma LogicNext(op: LogicOp, a: seq<Limb>, uneg: bool, b: seq<Limb>, vneg: bool, i: nat,
                  tu: seq<Limb>, uc: Limb, tv: seq<Limb>, vc: Limb, tr: seq<Limb>, w: seq<Limb>, rc: Limb,
                  ul: Limb, uc': Limb, vl: Limb, vc': Limb, rl: Limb, rc': Limb)
    requires LogicSoFar(op, a, uneg, b, vneg, i, tu, uc, tv, vc, tr, w, rc) && i < |a| && i < |b|
    requires ul == (LimbOp(Xor, a[i], if uneg then B - 1 else 0) + uc) % B && uc' == Bool(ul < uc)
    requires vl == (LimbOp(Xor, b[i], if vneg then B - 1 else 0) + vc) % B && vc' == Bool(vl < vc)
    requires rl == (LimbOp(Xor, LimbOp(op, ul, vl), if op.Eval(uneg, vneg) then B - 1 else 0) + rc) % B
    requires rc' == Bool(rl < rc)
    ensures LogicSoFar(op, a, uneg, b, vneg, i + 1, tu + [ul], uc', tv + [vl], vc',
                       tr + [LimbOp(op, ul, vl)], w + [rl], rc')
  {
    hide LimbOp, TwosPrefix;
    TwosNext(a, uneg, tu, uc, ul, uc');
    TwosNext(b, vneg, tv, vc, vl, vc');
    ResultNext(op, tr, op.Eval(uneg, vneg), w, rc, ul, vl, rl, rc');
  }

  /** The two loops shared by mpz_and, mpz_ior and mpz_xor: limbs of both operands up to vn, then
      of u alone against the sign of v.  rp may be up or vp. */
  method LogicLimbs(op: LogicOp, rp: array<Limb>, up: array<Limb>, un: nat, uneg: bool,
                    vp: array<Limb>, vn: nat, vneg: bool, rn: nat)
    returns (rc: Limb, ghost tu: seq<Limb>, ghost tv: seq<Limb>, ghost tr: seq<Limb>)
    requires 0 < vn <= un <= up.Length && vn <= vp.Length && vn <= rn <= un && rn <= rp.Length
    requires vp[vn - 1] != 0
    modifies rp
    ensures LogicResult(op, Signed(old(Val(up[..un])), uneg), Signed(old(Val(vp[..vn])), vneg),
                        op.Eval(uneg, vneg), rn, rp[..rn], rc, tu, tv, tr)
    ensures Mpn.Kept(rp, 0, rn)
  {
    hide Val, Shift, PowB, LimbOp, TwosPrefix;
    ghost var a, b := up[..un], vp[..vn] + Zeros(rn - vn);
    var uc, vc := Bool(uneg), Bool(vneg);
    rc := Bool(op.Eval(uneg, vneg));
    tu, tv, tr := [], [], [];
    TwosStart(a, uneg);
    TwosStart(b, vneg);
    LogicStart(op.Eval(uneg, vneg));
    ghost var w: seq<Limb> := [];
    uc, vc, rc, tu, tv, tr, w := LogicBoth(op, rp, up, un, uneg, vp, vn, vneg, uc, vc, rc, a, b);
    TwosCarryEnds(b, vneg, tv, vc);
    uc, rc, tu, tv, tr, w := LogicTail(op, rp, up, un, uneg, vn, vneg, rn, uc, rc, a, b, tu, tv, tr, w);
    PrefixIsLow(a, uneg, tu, uc);
    PrefixIsLow(b, vneg, tv, 0);
    ValTrim(b, vn);
    assert b[..vn] == old(vp[..vn]);
  }

  method LogicBoth(op: LogicOp, rp: array<Limb>, up: array<Limb>, un: nat, uneg: bool,
                   vp: array<Limb>, vn: nat, vneg: bool, uc0: Limb, vc0: Limb, rc0: Limb,
                   ghost a: seq<Limb>, ghost b: seq<Limb>)
    returns (uc: Limb, vc: Limb, rc: Limb,
             ghost tu: seq<Limb>, ghost tv: seq<Limb>, ghost tr: seq<Limb>, ghost w: seq<Limb>)
    requires vn <= un <= up.Length && vn <= vp.Length && vn <= rp.Length
    requires a == up[..un] && vn <= |b| && b[..vn] == vp[..vn]
    requires LogicSoFar(op, a, uneg, b, vneg, 0, [], uc0, [], vc0, [], [], rc0)
    modifies rp
    ensures LogicSoFar(op, a, uneg, b, vneg, vn, tu, uc, tv, vc, tr, w, rc) && w == rp[..vn]
    ensures Mpn.Kept(rp, 0, vn)
  {
    hide LogicSoFar, LimbOp;
    uc, vc, rc := uc0, vc0, rc0;
    tu, tv, tr, w := [], [], [], [];
    assert forall j :: 0 <= j < vn ==> vp[j] == b[..vn][j];
    var i := 0;
    while i < vn
      invariant 0 <= i <= vn
      invariant LogicSoFar(op, a, uneg, b, vneg, i, tu, uc, tv, vc, tr, w, rc) && w == rp[..i]
      invariant forall j :: i <= j < un ==> up[j] == a[j]
      invariant forall j :: i <= j < vn ==> vp[j] == b[j]
      invariant Mpn.Kept(rp, 0, vn)
    {
      var ul, uc', vl, vc', rl, rc';
      ul, uc' := Negate(up[i], uneg, uc);
      vl, vc' := Negate(vp[i], vneg, vc);
      rl, rc' := LogicStep(op, ul, vl, op.Eval(uneg, vneg), rc);
      LogicNext(op, a, uneg, b, vneg, i, tu, uc, tv, vc, tr, w, rc, ul, uc', vl, vc', rl, rc');
      rp[i] := rl;
      uc, vc, rc := uc', vc', rc';
      tu, tv, tr, w := tu + [ul], tv + [vl], tr + [LimbOp(op, ul, vl)], w + [rl];
      i := i + 1;
    }
  }

  method LogicTail(op: LogicOp, rp: array<Limb>, up: array<Limb>, un: nat, uneg: bool, vn: nat, vneg: bool, rn: nat,
                   uc0: Limb, rc0: Limb, ghost a: seq<Limb>, ghost b: seq<Limb>,
                   ghost tu0: seq<Limb>, ghost tv0: seq<Limb>, ghost tr0: seq<Limb>, ghost w0: seq<Limb>)
    returns (uc: Limb, rc: Limb,
             ghost tu: seq<Limb>, ghost tv: seq<Limb>, ghost tr: seq<Limb>, ghost w: seq<Limb>)
    requires vn <= rn <= un <= up.Length && rn <= rp.Length && |a| == un && |b| == rn
    requires forall j :: vn <= j < un ==> up[j] == a[j]
    requires forall j :: vn <= j < rn ==> b[j] == 0
    requires LogicSoFar(op, a, uneg, b, vneg, vn, tu0, uc0, tv0, 0, tr0, w0, rc0) && w0 == rp[..vn]
    modifies rp
    ensures LogicSoFar(op, a, uneg, b, vneg, rn, tu, uc, tv, 0, tr, w, rc) && w == rp[..rn]
    ensures Mpn.Kept(rp, vn, rn)
  {
    hide LogicSoFar, LimbOp;
    uc, rc := uc0, rc0;
    tu, tv, tr, w := tu0, tv0, tr0, w0;
    var i := vn;
    while i < rn
      invariant vn <= i <= rn
      invariant LogicSoFar(op, a, uneg, b, vneg, i, tu, uc, tv, 0, tr, w, rc) && w == rp[..i]
      invariant forall j :: i <= j < un ==> up[j] == a[j]
      invariant Mpn.Kept(rp, vn, rn)
    {
      var ul, uc', rl, rc';
      ul, uc' := Negate(up[i], uneg, uc);
      rl, rc' := TailStep(op, ul, uneg, vneg, rc);
      ghost var vx := if vneg then B - 1 else 0;
      XorMask(0, vneg);
      LogicNext(op, a, uneg, b, vneg, i, tu, uc, tv, 0, tr, w, rc, ul, uc', vx, 0, rl, rc');
      rp[i] := rl;
      uc, rc := uc', rc';
      tu, tv, tr, w := tu + [ul], tv + [vx], tr + [LimbOp(op, ul, vx)], w + [rl];
      i := i + 1;
    }
  }

  lemma LogicStart(neg: bool)
    ensures TwosPrefix([], neg, [], Bool(neg))
  {
  }

  /** The result limb negates the combined limb just as the operands were negated. */
  lemma ResultNext(op: LogicOp, tr: seq<Limb>, rneg: bool, w: seq<Limb>, rc: Limb, ul: Limb, vl: Limb, rl: Limb,
                   rc': Limb)
    requires |w| == |tr| && TwosPrefix(tr, rneg, w, rc)
    requires rl == (LimbOp(Xor, LimbOp(op, ul, vl), if rneg then B - 1 else 0) + rc) % B && rc' == Bool(rl < rc)
    ensures TwosPrefix(tr + [LimbOp(op, ul, vl)], rneg, w + [rl], rc')
  {
    hide LimbOp;
    var t := tr + [LimbOp(op, ul, vl)];
    assert t[..|w|] == tr == tr[..|w|];
    TwosNext(t, rneg, w, rc, rl, rc');
  }

  // ------------------------------------------------------------------ the three operators

  /** The integer that the result limbs and carry stand for, in terms of its two's complement. */
  lemma ResultValue(tr: seq<Limb>, rneg: bool, r: seq<Limb>, rc: Limb)
    requires TwosPrefix(tr, rneg, r, rc) && |r| == |tr|
    ensures var R := Signed(Val(r) + (if rc > 0 then PowB(|r|) else 0), rneg);
      R == Val(tr) - (if rneg then PowB(|r|) else 0)
    ensures LowLimbs(Val(tr) - (if rneg then PowB(|r|) else 0), tr)
  {
    hide Val, Shift, PowB;
    var P := PowB(|r|);
    assert tr[..|r|] == tr;
    ShiftOne(|r|);
    ShiftZero(|r|);
    ValBound(tr);
    DivModUnique(Val(tr) - (if rneg then P else 0), P, if rneg then -1 else 0, Val(tr));
  }

  lemma HighBitsOfSign(x: int, n: nat, k: nat)
    requires k / 32 >= n && (0 <= x < PowB(n) || 0 < -x <= PowB(n))
    ensures TwosBit(x, k) == (x < 0)
  {
    hide PowB, Pow2;
    PowBIsPow2(n);
    Pow2Mono(32 * n, k);
    if x >= 0 {
      DivModUnique(x, Pow2(k), 0, x);
    } else {
      DivModUnique(x, Pow2(k), -1, x + Pow2(k));
    }
  }

  /** The value of the result, bit by bit, from the limbs the loops leave. */
  lemma LogicBits(op: LogicOp, U: int, V: int, un: nat, rn: nat, r: seq<Limb>, rc: Limb,
                  tu: seq<Limb>, tv: seq<Limb>, tr: seq<Limb>, k: nat)
    requires LogicResult(op, U, V, op.Eval(U < 0, V < 0), rn, r, rc, tu, tv, tr)
    requires Abs(U) < PowB(un) && Abs(V) < PowB(rn)
    requires rn == un || (op.And? && V >= 0) || (op.Or? && V < 0)
    ensures var R := Signed(Val(r) + (if rc > 0 then PowB(rn) else 0), op.Eval(U < 0, V < 0));
      TwosBit(R, k) == op.Eval(TwosBit(U, k), TwosBit(V, k))
  {
    hide Val, Shift, PowB, Pow2, LimbOp, LowLimbs, TwosPrefix, TwosBit, Bit;
    var rneg := op.Eval(U < 0, V < 0);
    ResultValue(tr, rneg, r, rc);
    var R := Val(tr) - (if rneg then PowB(rn) else 0);
    if k / 32 < rn {
      var j := k / 32;
      BitOfLow(U, tu, k);
      BitOfLow(V, tv, k);
      BitOfLow(R, tr, k);
      LimbOpBit(op, tu[j], tv[j], k % 32);
    } else {
      ValBound(tr);
      SignBits(op, U, V, R, un, rn, k);
    }
  }

  lemma SignBits(op: LogicOp, U: int, V: int, R: int, un: nat, rn: nat, k: nat)
    requires Abs(U) < PowB(un) && Abs(V) < PowB(rn) && k / 32 >= rn
    requires (R < 0) == op.Eval(U < 0, V < 0) && -(PowB(rn) as int) <= R < PowB(rn)
    requires rn == un || (op.And? && V >= 0) || (op.Or? && V < 0)
    ensures TwosBit(R, k) == op.Eval(TwosBit(U, k), TwosBit(V, k))
  {
    hide PowB, Pow2, TwosBit;
    HighBitsOfSign(R, rn, k);
    HighBitsOfSign(V, rn, k);
    if rn == un {
      HighBitsOfSign(U, un, k);
    }
  }

  /** The result limbs followed by the carry limb, or without their high zeros. */
  method FinishLogic(rp: array<Limb>, rn: nat, rc: Limb) returns (n: nat)
    requires 0 < rn && rn + rc <= rp.Length && rc <= 1
    modifies rp
    ensures n <= rp.Length && Normalized(rp[..n])
    ensures Val(rp[..n]) == old(Val(rp[..rn])) + (if rc > 0 then PowB(rn) else 0)
  {
    hide Val, Shift, PowB;
    ghost var s := rp[..rn];
    if rc > 0 {
      rp[rn] := rc;
      n := rn + 1;
      assert rp[..n] == s + [rc];
      ValSnoc(s, rc);
      ShiftOne(rn);
    } else {
      n := Mpn.NormalizedSize(rp, rn);
    }
  }

  /** The limbs of one of the three operators; rn as the operator picks it. */
  method LogicInto(op: LogicOp, rp: array<Limb>, up: array<Limb>, un: nat, uneg: bool,
                   vp: array<Limb>, vn: nat, vneg: bool, rn: nat, ghost U: int, ghost V: int) returns (n: nat)
    requires 0 < vn <= un <= up.Length && vn <= vp.Length && vn <= rn <= un
    requires rn + Bool(op.Eval(uneg, vneg)) <= rp.Length && vp[vn - 1] != 0
    requires rn == un || (op.And? && !vneg) || (op.Or? && vneg)
    requires U == Signed(Val(up[..un]), uneg) && V == Signed(Val(vp[..vn]), vneg)
    requires uneg == (U < 0) && vneg == (V < 0)
    modifies rp
    ensures n <= rp.Length && Normalized(rp[..n])
    ensures forall k: nat ::
      TwosBit(Signed(Val(rp[..n]), op.Eval(uneg, vneg)), k) == op.Eval(TwosBit(U, k), TwosBit(V, k))
  {
    hide Val, Shift, PowB, TwosBit, LogicResult;
    ghost var tu, tv, tr;
    var rc;
    ValBound(up[..un]);
    ValBound(vp[..vn]);
    PowBMono(vn, rn);
    rc, tu, tv, tr := LogicLimbs(op, rp, up, un, uneg, vp, vn, vneg, rn);
    ghost var w := rp[..rn];
    LogicCarry(op, U, V, op.Eval(uneg, vneg), rn, w, rc, tu, tv, tr);
    n := FinishLogic(rp, rn, rc);
    LogicAllBits(op, U, V, un, rn, w, rc, tu, tv, tr);
  }

  /** One of mpz_and, mpz_ior, mpz_xor for operands ordered by size. */
  method LogicOrdered(op: LogicOp, r: Mpz, u: Mpz, v: Mpz, rn: nat)
    requires r.Valid() && u.Valid() && v.Valid()
    requires Separate(r, u) && Separate(r, v) && Separate(u, v)
    requires 0 < Abs(v.size) <= Abs(u.size) && Abs(v.size) <= rn <= Abs(u.size)
    requires rn == Abs(u.size) || (op.And? && v.size >= 0) || (op.Or? && v.size < 0)
    modifies r, r.d
    ensures r.Valid() && (r.d == old(r.d) || fresh(r.d))
    ensures forall k: nat :: TwosBit(r.Value(), k) == op.Eval(TwosBit(old(u.Value()), k), TwosBit(old(v.Value()), k))
  {
    hide Val, PowB, TwosBit;
    EmptyValues();
    u.SizeFacts();
    v.SizeFacts();
    var un, vn, uneg, vneg := Abs(u.size), Abs(v.size), u.size < 0, v.size < 0;
    var rneg := op.Eval(uneg, vneg);
    ghost var U, V := u.Value(), v.Value();
    Grow(r, rn + Bool(rneg));
    if r == u { GrowKeeps(r); }
    if r == v { GrowKeeps(r); }
    var n := LogicInto(op, r.d, u.d, un, uneg, v.d, vn, vneg, rn, U, V);
    r.size := Signed(n, rneg);
    Stored(r, n, Val(r.d[..n]));
  }

  lemma LogicAllBits(op: LogicOp, U: int, V: int, un: nat, rn: nat, r: seq<Limb>, rc: Limb,
                     tu: seq<Limb>, tv: seq<Limb>, tr: seq<Limb>)
    requires LogicResult(op, U, V, op.Eval(U < 0, V < 0), rn, r, rc, tu, tv, tr)
    requires Abs(U) < PowB(un) && Abs(V) < PowB(rn)
    requires rn == un || (op.And? && V >= 0) || (op.Or? && V < 0)
    ensures var R := Signed(Val(r) + (if rc > 0 then PowB(rn) else 0), op.Eval(U < 0, V < 0));
      forall k: nat :: TwosBit(R, k) == op.Eval(TwosBit(U, k), TwosBit(V, k))
  {
    hide Val, PowB, TwosBit, LogicResult;
    var R := Signed(Val(r) + (if rc > 0 then PowB(rn) else 0), op.Eval(U < 0, V < 0));
    forall k: nat
      ensures TwosBit(R, k) == op.Eval(TwosBit(U, k), TwosBit(V, k))
    {
      LogicBits(op, U, V, un, rn, r, rc, tu, tv, tr, k);
    }
  }

  lemma LogicCarry(op: LogicOp, U: int, V: int, rneg: bool, rn: nat, r: seq<Limb>, rc: Limb,
                   tu: seq<Limb>, tv: seq<Limb>, tr: seq<Limb>)
    requires LogicResult(op, U, V, rneg, rn, r, rc, tu, tv, tr)
    ensures rc <= 1 && (!rneg ==> rc == 0)
  {
  }

  /** mpz_and */
  method And(r: Mpz, u: Mpz, v: Mpz)
    requires r.Valid() && u.Valid() && v.Valid()
    requires Separate(r, u) && Separate(r, v) && Separate(u, v)
    modifies r, r.d
    ensures r.Valid() && (r.d == old(r.d) || fresh(r.d))
    ensures forall k: nat :: TwosBit(r.Value(), k) == (TwosBit(old(u.Value()), k) && TwosBit(old(v.Value()), k))
  {
    hide TwosBit, Val;
    var x, y := OrderBySize(u, v);
    y.SizeFacts();
    if y.size == 0 {
      ZeroBits();
      r.size := 0;
      EmptyValues();
      r.SizeFacts();
      return;
    }
    LogicOrdered(LogicOp.And, r, x, y, if y.size < 0 then Abs(x.size) else Abs(y.size));
  }

  /** mpz_ior */
  method Ior(r: Mpz, u: Mpz, v: Mpz)
    requires r.Valid() && u.Valid() && v.Valid()
    requires Separate(r, u) && Separate(r, v) && Separate(u, v)
    modifies r, r.d
    ensures r.Valid() && (r.d == old(r.d) || fresh(r.d))
    ensures forall k: nat :: TwosBit(r.Value(), k) == (TwosBit(old(u.Value()), k) || TwosBit(old(v.Value()), k))
  {
    hide TwosBit, Val;
    var x, y := OrderBySize(u, v);
    y.SizeFacts();
    if y.size == 0 {
      ZeroBits();
      Set(r, x);
      return;
    }
    LogicOrdered(LogicOp.Or, r, x, y, if y.size < 0 then Abs(y.size) else Abs(x.size));
  }

  /** mpz_xor */
  method XorTo(r: Mpz, u: Mpz, v: Mpz)
    requires r.Valid() && u.Valid() && v.Valid()
    requires Separate(r, u) && Separate(r, v) && Separate(u, v)
    modifies r, r.d
    ensures r.Valid() && (r.d == old(r.d) || fresh(r.d))
    ensures forall k: nat :: TwosBit(r.Value(), k) == (TwosBit(old(u.Value()), k) != TwosBit(old(v.Value()), k))
  {
    hide TwosBit, Val;
    var x, y := OrderBySize(u, v);
    y.SizeFacts();
    if y.size == 0 {
      ZeroBits();
      Set(r, x);
      return;
    }
    LogicOrdered(LogicOp.Xor, r, x, y, Abs(x.size));
  }

  method OrderBySize(u: Mpz, v: Mpz) returns (x: Mpz, y: Mpz)
    ensures Abs(y.size) <= Abs(x.size)
    ensures (x == u && y == v) || (x == v && y == u)
  {
    if Abs(u.size) < Abs(v.size) {
      x, y := v, u;
    } else {
      x, y := u, v;
    }
  }

  lemma ZeroBits()
    ensures forall k: nat {:trigger TwosBit(0, k)} :: !TwosBit(0, k)
  {
    forall k: nat
      ensures !TwosBit(0, k)
    {
      DivModUnique(0, Pow2(k), 0, 0);
    }
  }

  // ---------------------------------------------------- bits determine the integer

  /** No other integer has the same bits, so the three contracts determine their results. */
  lemma {:induction false} BitsDetermine(x: int, y: int)
    requires forall k: nat :: TwosBit(x, k) == TwosBit(y, k)
    ensures x == y
    decreases Abs(x) + Abs(y)
  {
    if !(x in {0, -1} && y in {0, -1}) {
      forall k: nat
        ensures TwosBit(x / 2, k) == TwosBit(y / 2, k)
      {
        HalfBit(x, k);
        HalfBit(y, k);
        assert TwosBit(x, k + 1) == TwosBit(y, k + 1);
      }
      BitsDetermine(x / 2, y / 2);
    }
    assert Pow2(0) == 1;
    assert TwosBit(x, 0) == TwosBit(y, 0);
  }

  lemma HalfBit(x: int, k: nat)
    ensures TwosBit(x / 2, k) == TwosBit(x, k + 1)
  {
    DivDivInt(x, 2, Pow2(k));
  }
}
