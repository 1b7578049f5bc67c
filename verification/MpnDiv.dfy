/** Division of limb vectors by a precomputed inverse (mini-gmp.c, MPN division interface). */
module MpnDiv {
  import opened Limbs
  import opened Bits
  import opened Mpn
  import opened Invert

  /** struct gmp_div_inverse: normalisation shift, top limbs of the normalised divisor, inverse. */
  datatype DivInverse = DivInverse(shift: nat, d1: Limb, d0: Limb, di: Limb)

  // ---------------------------------------------------------- leading zero count

  lemma CountBound(x: nat, c: nat)
    requires x >= 1 && x * Pow2(c) < B
    ensures c < LIMB_BITS
  {
    if c >= 32 {
      Pow2Of32();
      Pow2Mono(32, c);
      MulMono(1, x, Pow2(c));
    }
  }

  /** gmp_clz: whole bytes first, then single bits. */
  method Clz(x: Limb) returns (count: nat)
    requires x > 0
    ensures count < LIMB_BITS && HIGHBIT <= x * Pow2(count) < B
  {
    hide Pow2;
    var z: Limb := x;
    count := 0;
    Pow2Of32();
    Pow2Start();
    while z / 0x100_0000 == 0
      invariant 0 < z && z == x * Pow2(count)
      decreases B - z
    {
      ClzStep(x, count, 8);
      z := z * 0x100 % B;
      count := count + 8;
    }
    while z < HIGHBIT
      invariant 0 < z && z == x * Pow2(count)
      decreases B - z
    {
      ClzStep(x, count, 1);
      z := z * 2 % B;
      count := count + 1;
    }
    CountBound(x, count);
  }

  lemma Pow2Start()
    ensures Pow2(0) == 1 && Pow2(1) == 2
  {
  }

  lemma ClzStep(x: nat, c: nat, k: nat)
    ensures x * Pow2(c + k) == x * Pow2(c) * Pow2(k)
  {
    Pow2Add(c, k);
  }

  lemma {:induction false} Pow2Exponent(t: nat, k: nat)
    requires Pow2(k) <= Pow2(t) < 2 * Pow2(k)
    ensures t == k
  {
    if t < k {
      Pow2Mono(t + 1, k);
    } else if t > k {
      Pow2Mono(k + 1, t);
    }
  }

  /** gmp_ctz, by way of the lowest set bit x & -x. */
  method Ctz(x: Limb) returns (count: nat)
    requires x > 0
    ensures count == TrailingZeros(x) && count < LIMB_BITS
  {
    hide Pow2, TrailingZeros, LimbAnd;
    LowLimb(x);
    var low := LimbAnd(x, (0 - x) % B);
    var c := Clz(low);
    CtzCount(TrailingZeros(x), c);
    count := LIMB_BITS - 1 - c;
  }

  lemma LowLimb(x: Limb)
    requires x > 0
    ensures LimbAnd(x, (0 - x) % B) == Pow2(TrailingZeros(x))
  {
    hide Pow2, TrailingZeros;
    Pow2Of32();
    LowestBit(x, 32);
    DivModUnique(0 - x, B, -1, B - x);
  }

  lemma CtzCount(t: nat, c: nat)
    requires HIGHBIT <= Pow2(t) * Pow2(c) < B
    ensures t + c == 31
  {
    hide Pow2;
    Pow2Of32();
    Pow2Add(t, c);
    Pow2Exponent(t + c, 31);
  }

  // ------------------------------------------------------------- inverses of divisors

  /** inv is normalised for the one-limb divisor d. */
  predicate Inverse1(inv: DivInverse, d: nat) {
    inv.shift < LIMB_BITS && inv.d1 == d * Pow2(inv.shift) && IsInverse2by1(inv.d1, inv.di)
  }

  /** inv is normalised for the two-limb divisor d. */
  predicate Inverse2(inv: DivInverse, d: nat) {
    inv.shift < LIMB_BITS && inv.d1 * B + inv.d0 == d * Pow2(inv.shift)
    && IsInverse3by2(inv.d1, inv.d0, inv.di)
  }

  /** inv holds the top limbs of nd, the normalised divisor of dn > 2 limbs, and their inverse. */
  predicate InverseN(inv: DivInverse, d: nat, nd: seq<Limb>) {
    inv.shift < LIMB_BITS && |nd| > 2 && Val(nd) == d * Pow2(inv.shift)
    && inv.d1 == nd[|nd| - 1] && inv.d0 == nd[|nd| - 2]
    && IsInverse3by2(inv.d1, inv.d0, inv.di)
  }

  /** mpn_div_qr_1_invert */
  method Div1Invert(d: Limb) returns (inv: DivInverse)
    requires d > 0
    ensures Inverse1(inv, d)
  {
    var shift := Clz(d);
    var d1 := Shl(d, shift);
    var di := Invert3by2(d1, 0);
    inv := DivInverse(shift, d1, 0, di);
  }

  /** One limb of a left shift: its own low bits above the high bits of the limb below. */
  function Splice(x: Limb, below: Limb, c: nat): Limb
    requires 1 <= c < LIMB_BITS
  {
    LimbOr(Shl(x, c), Shr(below, LIMB_BITS - c))
  }

  /** The limbs of s * 2^c, without the carry out. */
  function ShlSeq(s: seq<Limb>, c: nat): (t: seq<Limb>)
    requires 1 <= c < LIMB_BITS
    ensures |t| == |s|
  {
    if |s| == 0 then []
    else
      var n := |s| - 1;
      ShlSeq(s[..n], c) + [Splice(s[n], if n == 0 then 0 else s[n - 1], c)]
  }

  lemma SpliceSum(x: Limb, below: Limb, c: nat)
    requires 1 <= c < LIMB_BITS
    ensures Splice(x, below, c) + B * Shr(x, LIMB_BITS - c) == x * Pow2(c) + Shr(below, LIMB_BITS - c)
  {
    hide Pow2, Shl, Shr, LimbOr;
    ShlShr(x, c);
    ShlShr(below, c);
    LimbOrDisjoint(Shl(x, c), Shr(below, LIMB_BITS - c), c);
  }

  lemma ShrZero(c: nat)
    ensures Shr(0, c) == 0
  {
    DivModUnique(0, Pow2(c), 0, 0);
  }

  lemma {:induction false} ShlSeqVal(s: seq<Limb>, c: nat)
    requires 1 <= c < LIMB_BITS
    ensures Val(ShlSeq(s, c)) + (if |s| == 0 then 0 else Shift(Shr(s[|s| - 1], LIMB_BITS - c), |s|))
      == Val(s) * Pow2(c)
  {
    if |s| > 0 {
      hide Val, Shift, Pow2, Shr, Splice;
      var n := |s| - 1;
      var below := if n == 0 then 0 else s[n - 1];
      ShlSeqVal(s[..n], c);
      ShrZero(LIMB_BITS - c);
      ShiftZero(n);
      var p: int, q: int, r: int, x: int :=
        Splice(s[n], below, c), Shr(s[n], LIMB_BITS - c), Shr(below, LIMB_BITS - c), s[n];
      assert Val(ShlSeq(s[..n], c)) + Shift(r, n) == Val(s[..n]) * Pow2(c);
      SpliceSum(s[n], below, c);
      ValSnoc(ShlSeq(s[..n], c), Splice(s[n], below, c));
      ValPrefixNext(s, n);
      assert s[..n + 1] == s;
      ShiftAdd(p, B * q, n);
      ShiftNext(q, n);
      ShiftAdd(x * Pow2(c), r, n);
      ShiftTimes(Pow2(c), x, n);
      Distribute(Val(s[..n]), Shift(x, n), Pow2(c));
      assert Pow2(c) * x == x * Pow2(c);
    }
  }

  /** A vector whose top limb has c leading zero bits: its shifted limbs carry nothing out. */
  lemma ShlSeqNormalizes(s: seq<Limb>, c: nat)
    requires |s| > 0 && 1 <= c < LIMB_BITS && HIGHBIT <= s[|s| - 1] * Pow2(c) < B
    ensures Val(ShlSeq(s, c)) == Val(s) * Pow2(c)
    ensures ShlSeq(s, c)[|s| - 1] >= HIGHBIT
  {
    hide Pow2, Shr, Shl, Val, Shift, LimbOr;
    var x := s[|s| - 1];
    var below := if |s| == 1 then 0 else s[|s| - 2];
    ShlShr(x, c);
    assert Shr(x, LIMB_BITS - c) == 0;
    SpliceSum(x, below, c);
    ShlSeqVal(s, c);
    ShiftZero(|s|);
  }

  /** mpn_div_qr_2_invert */
  method Div2Invert(d1: Limb, d0: Limb) returns (inv: DivInverse)
    requires d1 > 0
    ensures Inverse2(inv, d1 * B + d0)
  {
    hide Pow2, Shl, Splice, IsInverse3by2, ShlSeq;
    Pow2Start();
    var shift := Clz(d1);
    var e1, e0 := d1, d0;
    if shift > 0 {
      Splice2(d1, d0, shift);
      e1 := Splice(d1, d0, shift);
      e0 := Shl(d0, shift);
    }
    var di := Invert3by2(e1, e0);
    inv := DivInverse(shift, e1, e0, di);
  }

  lemma Splice2(d1: Limb, d0: Limb, c: nat)
    requires 1 <= c < LIMB_BITS && HIGHBIT <= d1 * Pow2(c) < B
    ensures Splice(d1, d0, c) * B + Shl(d0, c) == (d1 * B + d0) * Pow2(c)
    ensures Splice(d1, d0, c) >= HIGHBIT
  {
    hide Pow2, Shl, Shr, Splice;
    SpliceSum(d1, d0, c);
    ShlShr(d1, c);
    ShlShr(d0, c);
    assert (d1 * B + d0) * Pow2(c) == d1 * Pow2(c) * B + d0 * Pow2(c);
  }

  /** The normalised divisor of dn > 2 limbs that belongs to a shift count. */
  function NormalizedDivisor(d: seq<Limb>, shift: nat): (nd: seq<Limb>)
    requires shift < LIMB_BITS
    ensures |nd| == |d|
  {
    if shift == 0 then d else ShlSeq(d, shift)
  }

  /** mpn_div_qr_invert */
  method DivInvert(dp: array<Limb>, dn: nat) returns (inv: DivInverse)
    requires 0 < dn <= dp.Length && dp[dn - 1] != 0
    ensures inv.shift < LIMB_BITS
    ensures dn == 1 ==> Inverse1(inv, Val(dp[..1]))
    ensures dn == 2 ==> Inverse2(inv, Val(dp[..2]))
    ensures dn > 2 ==> InverseN(inv, Val(dp[..dn]), NormalizedDivisor(dp[..dn], inv.shift))
  {
    hide Pow2, Val, Shl, Shr, IsInverse3by2, IsInverse2by1, ShlSeq;
    Pow2Start();
    ghost var d := dp[..dn];
    if dn == 1 {
      assert dp[..1] == [dp[0]];
      ValSingle(dp[0]);
      inv := Div1Invert(dp[0]);
    } else if dn == 2 {
      assert dp[..2] == [dp[0], dp[1]];
      ValPair(dp[0], dp[1]);
      inv := Div2Invert(dp[1], dp[0]);
    } else {
      var d1, d0 := dp[dn - 1], dp[dn - 2];
      var shift := Clz(d1);
      if shift > 0 {
        ShlSeqNormalizes(d, shift);
        ShlSeqTop(d, shift);
        d1 := Splice(d1, d0, shift);
        d0 := Splice(d0, dp[dn - 3], shift);
      }
      var di := Invert3by2(d1, d0);
      inv := DivInverse(shift, d1, d0, di);
    }
  }

  lemma ShlSeqTop(s: seq<Limb>, c: nat)
    requires |s| > 2 && 1 <= c < LIMB_BITS
    ensures var n := |s|; var t := ShlSeq(s, c);
      t[n - 1] == Splice(s[n - 1], s[n - 2], c) && t[n - 2] == Splice(s[n - 2], s[n - 3], c)
  {
    var n := |s|;
    assert s[..n - 1][..n - 2] == s[..n - 2];
    assert ShlSeq(s[..n - 1], c) == ShlSeq(s[..n - 2], c) + [Splice(s[n - 2], s[n - 3], c)];
  }

  // ---------------------------------------------------------- one limb at a time

  /** Long division brings down one limb: what the quotient so far times d, plus the partial
      remainder, stands for grows by that limb. */
  lemma BringDown(s: seq<Limb>, i: nat, m: int, Q: nat, R: nat, d: nat, q: Limb, R': nat)
    requires i < |s|
    requires m == Shift(Q * d + R, i + 1) + Val(s[..i + 1])
    requires R * B + s[i] == q * d + R'
    ensures m == Shift((q + B * Q) * d + R', i) + Val(s[..i])
  {
    hide *;
    ValPrefixNext(s, i);
    var x: int := s[i];
    var y := Q * d + R;
    assert (q + B * Q) * d + R' == B * y + x by { BringDownProduct(q, Q, d); }
    ShiftAdd(B * y, x, i);
    ShiftNext(y, i);
  }

  lemma BringDownProduct(q: int, Q: int, d: int)
    ensures (q + B * Q) * d == q * d + B * (Q * d)
  {
  }

  lemma ShiftAtZero(x: int)
    ensures Shift(x, 0) == x
  {
  }

  /** A normalised quotient by d1 = d * 2^shift of a numerator shifted alike is the quotient by d. */
  lemma Unnormalize(n: nat, d: nat, p: nat, q: nat, r: nat)
    requires p > 0 && d > 0 && n * p == q * (d * p) + r && r < d * p
    ensures n == q * d + r / p && r % p == 0 && r / p < d
  {
    Mul3(q, d, p);
    assert r == (n - q * d) * p;
    DivModUnique(r, p, n - q * d, 0);
    if r / p >= d { MulMono(d, r / p, p); }
  }

  /** mpn_div_qr_1_preinv: quotient (unless qp is null) and remainder by a one-limb divisor. */
  method DivQr1Preinv(qp: array?<Limb>, np: array<Limb>, nn: nat, inv: DivInverse, ghost d: nat) returns (r: Limb)
    requires nn <= np.Length && (qp != null ==> nn <= qp.Length)
    requires Inverse1(inv, d) && (inv.shift > 0 ==> nn >= 1)
    modifies if qp == null then {} else {qp}
    ensures d > 0 && r == old(Val(np[..nn])) % d
    ensures qp != null ==> Val(qp[..nn]) == old(Val(np[..nn])) / d && Kept(qp, 0, nn)
  {
    hide Val, Shift, Pow2, Shr, IsInverse2by1;
    ghost var n := Val(np[..nn]);
    Inverse1Positive(inv, d);
    Pow2Start();
    var tp := np;
    r := 0;
    if inv.shift > 0 {
      tp := new Limb[nn];
      r := LShift(tp, 0, np, 0, nn, inv.shift);
      assert tp[0..nn] == tp[..nn] && np[0..nn] == np[..nn];
    } else {
      ShiftZero(nn);
    }
    DivisorAboveShift(inv, d);
    ghost var m := n * Pow2(inv.shift);
    ghost var Q: nat;
    r, Q := Div1Loop(qp, tp, nn, inv, r, m);
    Unnormalize(n, d, Pow2(inv.shift), Q, r);
    DivModUnique(n, d, Q, r / Pow2(inv.shift));
    ShrIsDiv(r, inv.shift);
    r := Shr(r, inv.shift);
  }

  lemma ShrIsDiv(x: Limb, c: nat)
    ensures Shr(x, c) == x / Pow2(c)
  {
  }

  lemma Inverse1Positive(inv: DivInverse, d: nat)
    requires Inverse1(inv, d)
    ensures d > 0
  {
  }

  lemma DivisorAboveShift(inv: DivInverse, d: nat)
    requires Inverse1(inv, d)
    ensures Pow2(inv.shift) <= inv.d1 && inv.d1 == d * Pow2(inv.shift) && Pow2(inv.shift) <= HIGHBIT
  {
    Pow2Of32();
    Pow2Mono(inv.shift, 31);
  }

  /** The loop of mpn_div_qr_1_preinv over the shifted numerator <r0, tp>. */
  method Div1Loop(qp: array?<Limb>, tp: array<Limb>, nn: nat, inv: DivInverse, r0: Limb, ghost m: nat)
    returns (r: Limb, ghost Q: nat)
    requires nn <= tp.Length && (qp != null ==> nn <= qp.Length)
    requires IsInverse2by1(inv.d1, inv.di) && r0 < inv.d1
    requires m == Shift(r0, nn) + Val(tp[..nn])
    modifies if qp == null then {} else {qp}
    ensures m == Q * inv.d1 + r && r < inv.d1
    ensures qp != null ==> Val(qp[..nn]) == Q && Kept(qp, 0, nn)
  {
    hide Val, Shift, IsInverse2by1;
    EmptyValues();
    ghost var t := tp[..nn];
    r := r0;
    Q := 0;
    assert t[..nn] == t;
    var i := nn;
    while i > 0
      invariant 0 <= i <= nn && r < inv.d1
      invariant m == Shift(Q * inv.d1 + r, i) + Val(t[..i])
      invariant qp != null ==> Val(qp[i..nn]) == Q && Kept(qp, 0, nn)
      invariant forall j :: 0 <= j < i ==> tp[j] == t[j]
    {
      i := i - 1;
      var q;
      ghost var R := r;
      q, r := UdivQrnndPreinv(r, tp[i], inv.d1, inv.di);
      BringDown(t, i, m, Q, R, inv.d1, q, r);
      Q := q + B * Q;
      if qp != null {
        ghost var high := qp[i + 1..nn];
        qp[i] := q;
        assert qp[i..nn] == [q] + high;
        ValCons(q, high);
      }
    }
    ShiftAtZero(Q * inv.d1 + r);
    if qp != null {
      assert qp[0..nn] == qp[..nn];
    }
  }

  // --------------------------------------------------------------- two-limb divisors

  /** mpn_div_qr_2_preinv: quotient and two-limb remainder; rp may be np. */
  method DivQr2Preinv(qp: array?<Limb>, rp: array<Limb>, np: array<Limb>, nn: nat, inv: DivInverse, ghost d: nat)
    requires 2 <= nn <= np.Length && rp.Length >= 2 && qp != np && qp != rp
    requires qp != null ==> nn - 1 <= qp.Length
    requires Inverse2(inv, d)
    modifies rp, if qp == null then {} else {qp}
    ensures d > 0 && Val(rp[..2]) == old(Val(np[..nn])) % d
    ensures qp != null ==> Val(qp[..nn - 1]) == old(Val(np[..nn])) / d && Kept(qp, 0, nn - 1)
    ensures Kept(rp, 0, 2)
  {
    hide Val, Shift, Pow2, Shr, Shl, LimbOr, IsInverse3by2;
    ghost var n := Val(np[..nn]);
    Divisor2Facts(inv, d);
    Pow2Start();
    var tp := np;
    var r1 := 0;
    if inv.shift > 0 {
      tp := new Limb[nn];
      r1 := LShift(tp, 0, np, 0, nn, inv.shift);
      assert tp[0..nn] == tp[..nn] && np[0..nn] == np[..nn];
    } else {
      ShiftZero(nn);
    }
    ghost var Q: nat;
    var r0;
    r1, r0, Q := Div2Loop(qp, tp, nn, inv, r1, n * Pow2(inv.shift));
    Unnormalize(n, d, Pow2(inv.shift), Q, r1 * B + r0);
    DivModUnique(n, d, Q, (r1 * B + r0) / Pow2(inv.shift));
    if inv.shift > 0 {
      SpliceDown(r1, r0, inv.shift);
      r0 := LimbOr(Shr(r0, inv.shift), Shl(r1, LIMB_BITS - inv.shift));
      r1 := Shr(r1, inv.shift);
    }
    rp[1] := r1;
    rp[0] := r0;
    assert rp[..2] == [r0, r1];
    ValPair(r0, r1);
  }

  lemma Divisor2Facts(inv: DivInverse, d: nat)
    requires Inverse2(inv, d)
    ensures d > 0 && Pow2(inv.shift) <= inv.d1
  {
    Pow2Of32();
    Pow2Mono(inv.shift, 31);
  }

  /** A two-limb right shift, spliced limb by limb. */
  lemma SpliceDown(r1: Limb, r0: Limb, c: nat)
    requires 1 <= c < LIMB_BITS
    ensures Shr(r1, c) * B + LimbOr(Shr(r0, c), Shl(r1, LIMB_BITS - c)) == (r1 * B + r0) / Pow2(c)
  {
    hide Pow2, Shr, Shl, LimbOr;
    ShlShr(r1, LIMB_BITS - c);
    ShlShr(r0, LIMB_BITS - c);
    LimbOrCommutes(Shr(r0, c), Shl(r1, LIMB_BITS - c));
    LimbOrDisjoint(Shl(r1, LIMB_BITS - c), Shr(r0, c), LIMB_BITS - c);
    ShrIsDiv(r1, c);
    ShrIsDiv(r0, c);
    Pow2Of32();
    Pow2Add(c, LIMB_BITS - c);
    SpliceDownSum(r1, r0, Pow2(c), Pow2(LIMB_BITS - c), Shl(r1, LIMB_BITS - c));
  }

  lemma SpliceDownSum(r1: Limb, r0: Limb, p: nat, q: nat, l: int)
    requires p > 0 && q > 0 && p * q == B
    requires r1 * q == l + B * (r1 / p)
    ensures r1 / p * B + (r0 / p + l) == (r1 * B + r0) / p
  {
    DivModFacts(r0, p);
    var y := r1 / p * B + (r0 / p + l);
    assert y == r1 * q + r0 / p;
    assert y * p == r1 * B + (r0 - r0 % p) by {
      assert r1 * q * p == r1 * (p * q);
      Distribute(r1 * q, r0 / p, p);
    }
    DivModUnique(r1 * B + r0, p, y, r0 % p);
  }

  method Div2Loop(qp: array?<Limb>, tp: array<Limb>, nn: nat, inv: DivInverse, h: Limb, ghost m: nat)
    returns (r1: Limb, r0: Limb, ghost Q: nat)
    requires 2 <= nn <= tp.Length && qp != tp && (qp != null ==> nn - 1 <= qp.Length)
    requires IsInverse3by2(inv.d1, inv.d0, inv.di) && h < inv.d1
    requires m == Shift(h, nn) + Val(tp[..nn])
    modifies if qp == null then {} else {qp}
    ensures m == Q * (inv.d1 * B + inv.d0) + (r1 * B + r0) && r1 * B + r0 < inv.d1 * B + inv.d0
    ensures qp != null ==> Val(qp[..nn - 1]) == Q && Kept(qp, 0, nn - 1)
  {
    hide Val, Shift, IsInverse3by2;
    EmptyValues();
    ghost var t, D := tp[..nn], inv.d1 * B + inv.d0;
    r1, r0, Q := h, tp[nn - 1], 0;
    var i := nn - 1;
    Div2Start(t, h, m);
    while i > 0
      invariant 0 <= i < nn && r1 * B + r0 < D
      invariant m == Shift(Q * D + (r1 * B + r0), i) + Val(t[..i])
      invariant qp != null ==> Val(qp[i..nn - 1]) == Q && Kept(qp, 0, nn - 1)
    {
      i := i - 1;
      var n0, q := tp[i], 0;
      ghost var R := r1 * B + r0;
      q, r1, r0 := UdivQr3by2(r1, r0, n0, inv.d1, inv.d0, inv.di);
      BringDown(t, i, m, Q, R, D, q, r1 * B + r0);
      Q := q + B * Q;
      if qp != null {
        ghost var high := qp[i + 1..nn - 1];
        qp[i] := q;
        assert qp[i..nn - 1] == [q] + high;
        ValCons(q, high);
      }
    }
    ShiftAtZero(Q * D + (r1 * B + r0));
    if qp != null {
      assert qp[0..nn - 1] == qp[..nn - 1];
    }
  }

  lemma Div2Start(t: seq<Limb>, h: Limb, m: nat)
    requires |t| >= 1 && m == Shift(h, |t|) + Val(t)
    ensures m == Shift(h * B + t[|t| - 1], |t| - 1) + Val(t[..|t| - 1])
  {
    hide Val, Shift;
    var n := |t| - 1;
    ValPrefixNext(t, n);
    assert t[..n + 1] == t;
    var x: int, y: int := h, t[n];
    ShiftNext(x, n);
    ShiftAdd(B * x, y, n);
  }

  // ------------------------------------------------- schoolbook division, one quotient limb

  /** The value of the window w with the limb n1 on top of it. */
  function Top(n1: int, w: seq<Limb>): int {
    Val(w) + Shift(n1, |w|)
  }

  /** Splitting a divisor or window of n limbs into two top limbs and the rest. */
  lemma TwoTopLimbs(s: seq<Limb>)
    requires |s| >= 2
    ensures var n := |s|;
      Val(s) == Val(s[..n - 2]) + Shift(s[n - 1] * B + s[n - 2], n - 2)
  {
    hide *;
    var n := |s|;
    ValPrefixNext(s, n - 1);
    ValPrefixNext(s, n - 2);
    assert s[..n] == s;
    var x: int, y: int := s[n - 1], s[n - 2];
    ShiftNext(x, n - 2);
    ShiftAdd(B * x, y, n - 2);
  }

  /** Both top limbs equal the divisor's: the quotient limb is B - 1. */
  lemma MaxQuotient(x: int, R: nat, x0: Limb, D: nat, dl: nat, T: nat, L: nat, n: nat)
    requires x == R * B + x0 && R < D
    requires D == dl + Shift(T, n) && dl < PowB(n) && T >= B
    requires x == L + Shift(B * T, n)
    ensures 0 <= x - (B - 1) * D < D
  {
    hide Shift, PowB;
    ShiftOne(n);
    ShiftAdd(T, 1, n);
    ShiftMono(D as int, Shift(T + 1, n), 0);
    ShiftTimes(B - 1, T + 1, n);
    ShiftMono((B - 1) * (T + 1), B * T, n);
    assert (B - 1) * (dl + Shift(T, n)) <= (B - 1) * Shift(T + 1, n) by {
      MulMono(dl + Shift(T, n), Shift(T + 1, n), B - 1);
    }
  }

  /** The estimate from the three top limbs is exact or one too large. */
  lemma EstimateError(x: int, X: int, D: nat, dl: nat, T: nat, L: nat, q: Limb, r: nat, n: nat)
    requires D == dl + Shift(T, n) && dl < PowB(n) && L < PowB(n) && B <= T
    requires x == L + Shift(X, n) && X == q * T + r && r < T
    ensures x - q * D == L - q * dl + Shift(r, n)
    ensures 0 <= x - q * D + D && x - q * D < D
  {
    hide Shift, PowB;
    EstimateErrorAt(x, D, dl, T, L, q, r, n);
  }

  lemma EstimateErrorAt(x: int, D: nat, dl: nat, T: nat, L: nat, q: Limb, r: nat, n: nat)
    requires D == dl + Shift(T, n) && dl < PowB(n) && L < PowB(n) && B <= T
    requires x == L + Shift(q * T + r, n) && r < T
    ensures x - q * D == L - q * dl + Shift(r, n)
    ensures 0 <= x - q * D + D && x - q * D < D
  {
    hide Shift, PowB;
    ShiftAdd(q * T, r, n);
    ShiftTimes(q, T, n);
    Distribute(dl, Shift(T, n), q);
    assert q * D == q * dl + q * Shift(T, n) by { assert (dl + Shift(T, n)) * q == q * (dl + Shift(T, n)); }
    ShiftOne(n);
    ShiftAdd(r, 1, n);
    ShiftMono(r + 1, T, n);
    MulNonNeg(q, dl);
    assert q * dl <= Shift(T, n) by {
      MulMono(q, B, dl);
      MulMono(dl, PowB(n), B);
      ShiftTimes(B, 1, n);
      ShiftMono(B, T, n);
    }
    ShiftMono(0, r, n);
    ShiftZero(n);
  }

  lemma TopSnoc(h: Limb, w: seq<Limb>)
    requires |w| > 0
    ensures Val(w) == Top(w[|w| - 1], w[..|w| - 1])
  {
    var n := |w| - 1;
    ValPrefixNext(w, n);
    assert w[..n + 1] == w;
  }

  lemma TopCons(n1: Limb, x: Limb, w: seq<Limb>)
    ensures Top(n1, [x] + w) == Top(n1, w) * B + x
  {
    ValCons(x, w);
  }

  /** A value below B^n has nothing above its n limbs. */
  lemma NoHighPart(v: nat, k: int, n: nat)
    requires v < PowB(n) && 0 <= v + Shift(k, n) < PowB(n)
    ensures k == 0
  {
    hide Shift, PowB;
    ShiftOne(n);
    ShiftZero(n);
    ShiftAdd(0, 1, n);
    if k >= 1 {
      ShiftMono(1, k, n);
    } else if k <= -1 {
      ShiftMono(k, -1, n);
    }
  }

  /** Step of mpn_div_qr_pi1 when the top limbs agree with the divisor's: w' is w - (B-1)*D. */
  lemma MaxStep(w: seq<Limb>, w': seq<Limb>, n1: Limb, R: nat, d: seq<Limb>, cl: Limb)
    requires |w| == |w'| == |d| > 2 && d[|d| - 1] >= HIGHBIT
    requires n1 == d[|d| - 1] && w[|d| - 1] == d[|d| - 2]
    requires R < Val(d) && Top(n1, w) == R * B + w[0]
    requires Val(w') - Shift(cl, |d|) == Val(w) - Val(d) * (B - 1)
    ensures R * B + w[0] == (B - 1) * Val(d) + Val(w') && Val(w') < Val(d)
  {
    hide Val, Shift, PowB;
    var n, D := |d|, Val(d);
    var T: nat := d[n - 1] * B + d[n - 2];
    TwoTopLimbs(d);
    ValBound(d[..n - 2]);
    ValBound(d);
    ValBound(w');
    MaxWindow(w, n1, T);
    MaxQuotient(Top(n1, w), R, w[0], D, Val(d[..n - 2]), T, Val(w[..n - 1]), n - 2);
    assert Val(d) * (B - 1) == (B - 1) * D;
    var a: int, b: int := n1, cl;
    ShiftAdd(a, b, n);
    NoHighPart(Val(w'), a - b, n);
  }

  lemma MaxWindow(w: seq<Limb>, n1: Limb, T: nat)
    requires |w| > 2 && T == n1 * B + w[|w| - 1]
    ensures Top(n1, w) == Val(w[..|w| - 1]) + Shift(B * T, |w| - 2)
  {
    hide Val, Shift;
    var n := |w| - 1;
    ValPrefixNext(w, n);
    assert w[..n + 1] == w;
    var x: int, y: int := n1, w[n];
    ShiftNext(x, n);
    ShiftAdd(B * x, y, n);
    ShiftNext(T, n - 1);
  }

  /** Step of mpn_div_qr_pi1 in the general case, after the estimate q has been taken off the
      low limbs: the difference from the true remainder is at most one divisor. */
  lemma EstimateStep(w: seq<Limb>, n1: Limb, x: nat, d: seq<Limb>, q: Limb, r: nat, low: seq<Limb>, cy: Limb)
    requires |w| == |d| > 2 && |low| == |d| - 2 && d[|d| - 1] >= HIGHBIT
    requires Top(n1, w) == x
    requires var T := d[|d| - 1] * B + d[|d| - 2];
      n1 * BB + w[|d| - 1] * B + w[|d| - 2] == q * T + r && r < T
    requires Val(low) - Shift(cy, |low|) == Val(w[..|d| - 2]) - Val(d[..|d| - 2]) * q
    ensures x - q * Val(d) == Val(low) + Shift(r - cy, |low|)
    ensures 0 <= x - q * Val(d) + Val(d) && x - q * Val(d) < Val(d)
  {
    hide Val, Shift, PowB, Top;
    var n := |d|;
    var T: nat := d[n - 1] * B + d[n - 2];
    TwoTopLimbs(d);
    ValBound(d[..n - 2]);
    ValBound(w[..n - 2]);
    ThreeTopLimbs(w, n1);
    var X := n1 * BB + w[n - 1] * B + w[n - 2];
    EstimateError(x, X, Val(d), Val(d[..n - 2]), T, Val(w[..n - 2]), q, r, n - 2);
    Commute(Val(d[..n - 2]), q);
    EstimateFinish(x - q * Val(d), Val(w[..n - 2]) - q * Val(d[..n - 2]), Val(low), r, cy, n - 2);
  }

  lemma EstimateFinish(rest: int, y: int, low: int, r: int, c: int, n: nat)
    requires rest == y + Shift(r, n) && low - Shift(c, n) == y
    ensures rest == low + Shift(r - c, n)
  {
    hide Shift;
    ShiftAdd(r, c, n);
  }

  lemma ThreeTopLimbs(w: seq<Limb>, n1: Limb)
    requires |w| > 2
    ensures var n := |w|;
      Top(n1, w) == Val(w[..n - 2]) + Shift(n1 * BB + w[n - 1] * B + w[n - 2], n - 2)
  {
    hide Val, Shift;
    var n := |w|;
    TwoTopLimbs(w);
    var x: int := n1;
    ShiftNext(x, n - 1);
    ShiftNext(B * x, n - 2);
    ShiftAdd(BB * x, w[n - 1] * B + w[n - 2], n - 2);
  }

  lemma TopTwo(low: seq<Limb>, h1: int, h0: Limb)
    ensures Top(h1, low + [h0]) == Val(low) + Shift(h1 * B + h0, |low|)
  {
    hide Val, Shift;
    ValSnoc(low, h0);
    var x: int, y: int := h1, h0;
    ShiftNext(x, |low|);
    ShiftAdd(B * x, y, |low|);
  }

  /** The estimate was one too large: one divisor is added back. */
  lemma AddBack(x: nat, d: seq<Limb>, q: Limb, w1: seq<Limb>, w2: seq<Limb>, n1: Limb, c: Limb)
    requires |d| > 2 && |w1| == |w2| == |d| - 1
    requires 0 <= x - q * Val(d) + Val(d) && x - q * Val(d) < 0
    requires x - q * Val(d) == Top(n1 - B, w1)
    requires Val(w2) + Shift(c, |w2|) == Val(w1) + Val(d[..|d| - 1])
    ensures q >= 1
    ensures var h := (n1 + d[|d| - 1] + c) % B;
      x == (q - 1) * Val(d) + Top(h, w2) && 0 <= Top(h, w2) < Val(d)
  {
    hide Val, Shift, PowB;
    var n := |d| - 1;
    var t: int, k: int, y: int := d[n], c, n1;
    ValPrefixNext(d, n);
    assert d[..n + 1] == d;
    ValBound(w2);
    ValBound(d);
    AddBackSum(Val(w1), Val(w2), Val(d[..n]), y, t, k, n);
    var h := y - B + t + k;
    OneLess(q, Val(d));
    HighLimbRange(Val(w2), h, n, Val(d));
    DivModUnique(y + t + k, B, 1, h);
  }

  lemma AddBackSum(w1: int, w2: int, dl: int, y: int, t: int, k: int, n: nat)
    requires w2 + Shift(k, n) == w1 + dl
    ensures w1 + Shift(y - B, n) + (dl + Shift(t, n)) == w2 + Shift(y - B + t + k, n)
  {
    hide Shift;
    ShiftAdd(y - B, t, n);
    ShiftAdd(y - B + t, k, n);
  }

  lemma OneLess(q: int, D: int)
    ensures (q - 1) * D == q * D - D && 0 * D == 0
  {
  }

  lemma HighLimbRange(v: nat, h: int, n: nat, D: nat)
    requires v < PowB(n) && D < PowB(n + 1) && 0 <= v + Shift(h, n) < D
    ensures 0 <= h < B
  {
    hide Shift;
    ShiftOne(n);
    ShiftZero(n);
    ShiftAdd(0, 1, n);
    ShiftNext(1, n);
    ShiftOne(n + 1);
    if h <= -1 {
      ShiftMono(h, -1, n);
    } else if h >= B {
      ShiftMono(B, h, n);
    }
  }

  lemma TopNonNeg(h: Limb, w: seq<Limb>)
    ensures 0 <= Top(h, w)
  {
    ShiftMono(0, h, |w|);
    ShiftZero(|w|);
  }

  /** A partial remainder below the divisor has its two top limbs at most the divisor's. */
  lemma TopLimbsAtMost(n1: Limb, u: seq<Limb>, d: seq<Limb>)
    requires |d| > 2 && |u| == |d| - 1 && Top(n1, u) < Val(d)
    ensures n1 * B + u[|u| - 1] <= d[|d| - 1] * B + d[|d| - 2]
  {
    hide Val, Shift, PowB;
    var n := |u| - 1;
    TwoTopLimbs(d);
    ValBound(d[..n]);
    TopTwo(u[..n], n1, u[n]);
    assert u == u[..n] + [u[n]];
    var s, T := n1 * B + u[n], d[|d| - 1] * B + d[|d| - 2];
    if s > T {
      ShiftMono(T + 1, s, n);
      ShiftAdd(T, 1, n);
      ShiftOne(n);
    }
  }

  /** The branch of mpn_div_qr_pi1 that estimates the quotient limb from three limbs by two. */
  method DivStepGeneral(np: array<Limb>, i: nat, n1: Limb, n0: Limb, dp: array<Limb>, dn: nat, dinv: Limb, ghost x: nat)
    returns (q: Limb, h: Limb)
    requires 2 < dn <= dp.Length && i + dn <= np.Length && np != dp
    requires IsInverse3by2(dp[dn - 1], dp[dn - 2], dinv)
    requires n0 == np[dn - 1 + i] && x == Top(n1, np[i..i + dn])
    requires n1 * B + n0 < dp[dn - 1] * B + dp[dn - 2]
    modifies np
    ensures x == q * Val(dp[..dn]) + Top(h, np[i..i + dn - 1])
    ensures 0 <= Top(h, np[i..i + dn - 1]) < Val(dp[..dn])
    ensures Kept(np, i, i + dn)
  {
    hide Val, Shift, Top, IsInverse;
    ghost var w, d := np[i..i + dn], dp[..dn];
    var d1, d0 := dp[dn - 1], dp[dn - 2];
    var m0;
    q, h, m0 := UdivQr3by2(n1, n0, np[dn - 2 + i], d1, d0, dinv);
    ghost var r := h * B + m0;
    assert np[i..i + (dn - 2)] == w[..dn - 2] && dp[0..0 + (dn - 2)] == d[..dn - 2];
    var cy := SubMul1(np, i, dp, 0, dn - 2, q);
    ghost var low := np[i..i + (dn - 2)];
    EstimateStep(w, n1, x, d, q, r, low, cy);
    h, m0, cy := SubFromTwo(h, m0, cy);
    np[dn - 2 + i] := m0;
    ghost var w1 := np[i..i + (dn - 1)];
    assert w1 == low + [m0];
    TopTwo(low, h - cy * B, m0);
    if cy != 0 {
      TopNegative(h, w1);
      assert dp[0..0 + (dn - 1)] == d[..dn - 1];
      var c := AddN(np, i, np, i, dp, 0, dn - 1);
      ghost var w2 := np[i..i + (dn - 1)];
      AddBack(x, d, q, w1, w2, h, c);
      h := (h + d1 + c) % B;
      q := q - 1;
    } else {
      TopNonNeg(h, w1);
    }
  }

  /** A limb is taken off a two-limb remainder; cy tells whether that wrapped. */
  method SubFromTwo(n1: Limb, n0: Limb, c: Limb) returns (h1: Limb, h0: Limb, cy: Limb)
    ensures cy <= 1 && h1 * B + h0 == n1 * B + n0 - c + cy * BB
  {
    var cy1 := Bool(n0 < c);
    h0 := (n0 - c) % B;
    cy := Bool(n1 < cy1);
    h1 := (n1 - cy1) % B;
  }

  lemma TopNegative(h: Limb, w: seq<Limb>)
    ensures Top(h - B, w) < 0
  {
    hide Val, Shift, PowB;
    ValBound(w);
    ShiftMono(h - B, -1, |w|);
    ShiftAdd(0, 1, |w|);
    ShiftZero(|w|);
    ShiftOne(|w|);
  }

  /** One iteration of mpn_div_qr_pi1: the window np[i..i+dn] under the limb n1 is divided by
      dp; q is the exact quotient limb and the remainder is np[i..i+dn-1] under the limb h. */
  method DivStep(np: array<Limb>, i: nat, n1: Limb, dp: array<Limb>, dn: nat, dinv: Limb)
    returns (q: Limb, h: Limb)
    requires 2 < dn <= dp.Length && i + dn <= np.Length && np != dp
    requires IsInverse3by2(dp[dn - 1], dp[dn - 2], dinv)
    requires Top(n1, np[i + 1..i + dn]) < Val(dp[..dn])
    modifies np
    ensures old(Top(n1, np[i + 1..i + dn])) * B + old(np[i]) == q * Val(dp[..dn]) + Top(h, np[i..i + dn - 1])
    ensures 0 <= Top(h, np[i..i + dn - 1]) < Val(dp[..dn])
    ensures Kept(np, i, i + dn)
  {
    hide Val, Shift, Top, IsInverse;
    ghost var w, d, R := np[i..i + dn], dp[..dn], Top(n1, np[i + 1..i + dn]);
    var d1, d0 := dp[dn - 1], dp[dn - 2];
    assert w == [w[0]] + np[i + 1..i + dn];
    TopCons(n1, w[0], np[i + 1..i + dn]);
    TopNonNeg(n1, np[i + 1..i + dn]);
    TopLimbsAtMost(n1, np[i + 1..i + dn], d);
    var n0 := np[dn - 1 + i];
    if n1 == d1 && n0 == d0 {
      q := B - 1;
      ghost var cl := SubMul1(np, i, dp, 0, dn, q);
      h := np[dn - 1 + i];
      ghost var w' := np[i..i + dn];
      assert dp[0..0 + dn] == d;
      MaxStep(w, w', n1, R, d, cl);
      TopSnoc(h, w');
      assert np[i..i + dn - 1] == w'[..dn - 1];
    } else {
      q, h := DivStepGeneral(np, i, n1, n0, dp, dn, dinv, R * B + w[0]);
    }
  }

  lemma Pi1Start(n: seq<Limb>, n1: Limb, k: nat)
    requires k <= |n|
    ensures Val(n) + Shift(n1, |n|) == Shift(Top(n1, n[k..]), k) + Val(n[..k])
  {
    hide Val, Shift;
    ValSplit(n, k);
    var x: int, y: int := Val(n[k..]), n1;
    ShiftAdd(x, Shift(y, |n| - k), k);
    ShiftShift(y, |n| - k, k);
  }

  /** mpn_div_qr_pi1: schoolbook division of <n1, np> by a normalised divisor of dn > 2 limbs.
      The quotient goes to qp (unless null), the remainder is left in np[..dn]. */
  method DivQrPi1(qp: array?<Limb>, np: array<Limb>, nn: nat, n1: Limb, dp: array<Limb>, dn: nat, dinv: Limb)
    returns (ghost Q: nat)
    requires 2 < dn <= nn <= np.Length && dn <= dp.Length && np != dp && qp != np && qp != dp
    requires qp != null ==> nn - dn + 1 <= qp.Length
    requires IsInverse3by2(dp[dn - 1], dp[dn - 2], dinv)
    requires Top(n1, np[nn - dn + 1..nn]) < Val(dp[..dn])
    modifies np, if qp == null then {} else {qp}
    ensures old(Val(np[..nn])) + Shift(n1, nn) == Q * Val(dp[..dn]) + Val(np[..dn])
    ensures Val(np[..dn]) < Val(dp[..dn])
    ensures qp != null ==> Val(qp[..nn - dn + 1]) == Q && Kept(qp, 0, nn - dn + 1)
    ensures Kept(np, 0, nn)
  {
    hide Val, Shift, Top, IsInverse3by2;
    EmptyValues();
    ghost var n, D, d := np[..nn], Val(dp[..dn]), dp[..dn];
    ghost var m := Val(n) + Shift(n1, nn);
    var h := n1;
    var k := nn - dn + 1;
    Q := 0;
    Pi1Start(n, n1, k);
    assert n[k..] == np[k..k + dn - 1];
    TopNonNeg(h, np[k..k + dn - 1]);
    while k > 0
      invariant 0 <= k <= nn - dn + 1
      invariant 0 <= Top(h, np[k..k + dn - 1]) < D
      invariant m == Shift(Q * D + Top(h, np[k..k + dn - 1]), k) + Val(n[..k])
      invariant qp != null ==> Val(qp[k..nn - dn + 1]) == Q && Kept(qp, 0, nn - dn + 1)
      invariant forall j :: 0 <= j < k ==> np[j] == n[j]
      invariant dp[..dn] == d
      invariant Kept(np, 0, nn)
    {
      k := k - 1;
      ghost var R: nat := Top(h, np[k + 1..k + dn]);
      var q;
      q, h := DivStep(np, k, h, dp, dn, dinv);
      BringDown(n, k, m, Q, R, D, q, Top(h, np[k..k + dn - 1]));
      Q := q + B * Q;
      if qp != null {
        ghost var high := qp[k + 1..nn - dn + 1];
        qp[k] := q;
        assert qp[k..nn - dn + 1] == [q] + high;
        ValCons(q, high);
      }
    }
    ghost var low := np[0..dn - 1];
    np[dn - 1] := h;
    assert np[..dn] == low + [h];
    TopSnoc(h, low + [h]);
    ShiftAtZero(Q * D + Top(h, low));
    if qp != null {
      assert qp[0..nn - dn + 1] == qp[..nn - dn + 1];
    }
  }

  /** inv and the (normalised, if dn > 2) divisor vector dp stand for the divisor d of dn limbs. */
  predicate DivisorFor(inv: DivInverse, dp: seq<Limb>, d: nat) {
    if |dp| == 1 then Inverse1(inv, d)
    else if |dp| == 2 then Inverse2(inv, d)
    else |dp| > 2 && InverseN(inv, d, dp)
  }

  /** The bits shifted out of a numerator stay below the normalised divisor. */
  lemma ShiftedTopBelow(h: Limb, w: seq<Limb>, nd: seq<Limb>)
    requires |nd| > 2 && |w| == |nd| - 1 && h < nd[|nd| - 1]
    ensures Top(h, w) < Val(nd)
  {
    hide Val, Shift, PowB;
    var n := |w|;
    ValBound(w);
    ShiftOne(n);
    var x: int, t: int := h, nd[n];
    ShiftAdd(x, 1, n);
    ShiftMono(x + 1, t, n);
    ValPrefixNext(nd, n);
    assert nd[..n + 1] == nd;
  }

  /** mpn_div_qr_preinv */
  method DivQrPreinv(qp: array?<Limb>, np: array<Limb>, nn: nat, dp: array<Limb>, dn: nat, inv: DivInverse,
                     ghost d: nat)
    requires 0 < dn <= nn <= np.Length && dn <= dp.Length && np != dp && qp != np && qp != dp
    requires qp != null ==> nn - dn + 1 <= qp.Length
    requires DivisorFor(inv, dp[..dn], d)
    modifies np, if qp == null then {} else {qp}
    ensures d > 0 && Val(np[..dn]) == old(Val(np[..nn])) % d
    ensures qp != null ==> Val(qp[..nn - dn + 1]) == old(Val(np[..nn])) / d && Kept(qp, 0, nn - dn + 1)
    ensures Kept(np, 0, nn)
  {
    hide Val, Shift, Pow2, IsInverse3by2, IsInverse2by1, Top;
    Pow2Start();
    if dn == 1 {
      var r := DivQr1Preinv(qp, np, nn, inv, d);
      np[0] := r;
      assert np[..1] == [r];
      ValSingle(r);
    } else if dn == 2 {
      DivQr2Preinv(qp, np, np, nn, inv, d);
    } else {
      DivNPreinv(qp, np, nn, dp, dn, inv, d);
    }
  }

  /** The general case of mpn_div_qr_preinv: the numerator is shifted, divided, and shifted back. */
  method DivNPreinv(qp: array?<Limb>, np: array<Limb>, nn: nat, dp: array<Limb>, dn: nat, inv: DivInverse, ghost d: nat)
    requires 2 < dn <= nn <= np.Length && dn <= dp.Length && np != dp && qp != np && qp != dp
    requires qp != null ==> nn - dn + 1 <= qp.Length
    requires InverseN(inv, d, dp[..dn])
    modifies np, if qp == null then {} else {qp}
    ensures d > 0 && Val(np[..dn]) == old(Val(np[..nn])) % d
    ensures qp != null ==> Val(qp[..nn - dn + 1]) == old(Val(np[..nn])) / d && Kept(qp, 0, nn - dn + 1)
    ensures Kept(np, 0, nn)
  {
    hide Val, Shift, Pow2, IsInverse3by2, Top;
    Pow2Start();
    ghost var n, P := Val(np[..nn]), Pow2(inv.shift);
    NFacts(inv, d, dp[..dn]);
    var nh := 0;
    assert np[0..nn] == np[..nn];
    if inv.shift > 0 {
      nh := LShift(np, 0, np, 0, nn, inv.shift);
      assert np[0..nn] == np[..nn];
    } else {
      ShiftZero(nn);
    }
    ShiftedTopBelow(nh, np[nn - dn + 1..nn], dp[..dn]);
    ghost var Q := DivQrPi1(qp, np, nn, nh, dp, dn, inv.di);
    Unnormalize(n, d, P, Q, Val(np[..dn]));
    DivModUnique(n, d, Q, Val(np[..dn]) / P);
    if inv.shift > 0 {
      assert np[0..dn] == np[..dn];
      var carry := RShift(np, 0, np, 0, dn, inv.shift);
      assert carry == 0;
      assert np[0..dn] == np[..dn];
    }
  }

  lemma NFacts(inv: DivInverse, d: nat, nd: seq<Limb>)
    requires InverseN(inv, d, nd)
    ensures d > 0 && Val(nd) == d * Pow2(inv.shift) && Pow2(inv.shift) <= nd[|nd| - 1]
    ensures IsInverse3by2(nd[|nd| - 1], nd[|nd| - 2], inv.di)
  {
    hide Val;
    Pow2Of32();
    Pow2Mono(inv.shift, 31);
    ValLower(nd);
  }

  /** mpn_div_qr: for every numerator of nn limbs and divisor of dn <= nn limbs with a nonzero
      top limb, the floor quotient (unless qp is null) and the remainder in np[..dn]. */
  method DivQr(qp: array?<Limb>, np: array<Limb>, nn: nat, dp: array<Limb>, dn: nat)
    requires 0 < dn <= nn <= np.Length && dn <= dp.Length && np != dp && qp != np && qp != dp
    requires dp[dn - 1] != 0
    requires qp != null ==> nn - dn + 1 <= qp.Length
    modifies np, if qp == null then {} else {qp}
    ensures Val(dp[..dn]) > 0
    ensures Val(np[..dn]) == old(Val(np[..nn])) % Val(dp[..dn])
    ensures qp != null ==>
      Val(qp[..nn - dn + 1]) == old(Val(np[..nn])) / Val(dp[..dn]) && Kept(qp, 0, nn - dn + 1)
    ensures Kept(np, 0, nn)
  {
    hide Val, Shift, Pow2, IsInverse3by2, IsInverse2by1, ShlSeq;
    var inv := DivInvert(dp, dn);
    ghost var d := Val(dp[..dn]);
    var tp := dp;
    if dn > 2 && inv.shift > 0 {
      tp := new Limb[dn];
      ShlSeqFits(dp[..dn], inv);
      assert dp[0..dn] == dp[..dn];
      var carry := LShift(tp, 0, dp, 0, dn, inv.shift);
      assert tp[0..dn] == tp[..];
      NoCarryOut(tp[..], ShlSeq(dp[..dn], inv.shift), carry);
      assert tp[..dn] == tp[..];
    }
    DivQrPreinv(qp, np, nn, tp, dn, inv, d);
  }

  lemma ShlSeqFits(d: seq<Limb>, inv: DivInverse)
    requires |d| > 2 && 0 < inv.shift < LIMB_BITS && InverseN(inv, Val(d), ShlSeq(d, inv.shift))
    ensures Val(ShlSeq(d, inv.shift)) == Val(d) * Pow2(inv.shift)
  {
  }

  lemma NoCarryOut(t: seq<Limb>, u: seq<Limb>, carry: Limb)
    requires |t| == |u| && Val(t) + Shift(carry, |t|) == Val(u)
    ensures carry == 0 && t == u
  {
    hide Val, Shift, PowB;
    ValBound(t);
    ValBound(u);
    NoHighPart(Val(t), carry, |t|);
    ShiftZero(|t|);
    ValInjective(t, u);
  }

  // --------------------------------------------------------------- one-limb divisors

  lemma {:induction false} LowBitsOfVal(s: seq<Limb>, k: nat)
    requires |s| > 0 && k < LIMB_BITS
    ensures Val(s) % Pow2(k) == s[0] % Pow2(k)
  {
    var p, q := Pow2(k), Pow2(LIMB_BITS - k);
    Pow2Of32();
    Pow2Add(k, LIMB_BITS - k);
    ModAddMultiple(s[0], q * Val(s[1..]), p);
    RegroupB(p, q, Val(s[1..]));
  }

  lemma RegroupB(p: int, q: int, v: int)
    requires p * q == B
    ensures B * v == q * v * p
  {
    assert q * v * p == (p * q) * v;
  }

  lemma ModAddMultiple(x: int, t: int, p: int)
    requires p > 0
    ensures (x + t * p) % p == x % p
  {
    assert x + t * p == (x / p + t) * p + x % p;
    DivModUnique(x + t * p, p, x / p + t, x % p);
  }

  /** mpn_div_qr_1: quotient (unless qp is null; it may be np) and remainder by any nonzero limb. */
  method DivQr1(qp: array?<Limb>, np: array<Limb>, nn: nat, d: Limb) returns (r: Limb)
    requires 0 < nn <= np.Length && (qp != null ==> nn <= qp.Length) && d > 0
    modifies if qp == null then {} else {qp}
    ensures r == old(Val(np[..nn])) % d
    ensures qp != null ==> Val(qp[..nn]) == old(Val(np[..nn])) / d && Kept(qp, 0, nn)
  {
    hide Val, Shift, Pow2, LimbAnd, IsInverse2by1, TrailingZeros;
    ghost var n := Val(np[..nn]);
    if LimbAnd(d, d - 1) == 0 {
      ghost var k := TrailingZeros(d);
      PowerOfTwoLimb(d, np[0]);
      LowBitsOfVal(np[..nn], k);
      r := LimbAnd(np[0], d - 1);
      if qp != null {
        if d <= 1 {
          CopyI(qp, 0, np, 0, nn);
          assert qp[0..0 + nn] == qp[..nn] && old(np[0..0 + nn]) == old(np[..nn]);
        } else {
          var shift := Ctz(d);
          PowerNotOne(d);
          assert np[0..0 + nn] == np[..nn];
          var out := RShift(qp, 0, np, 0, nn, shift);
          assert qp[0..0 + nn] == qp[..nn];
        }
      }
    } else {
      var inv := Div1Invert(d);
      r := DivQr1Preinv(qp, np, nn, inv, d);
    }
  }

  lemma PowerOfTwoLimb(d: Limb, x: Limb)
    requires d > 0 && LimbAnd(d, d - 1) == 0
    ensures d == Pow2(TrailingZeros(d)) && TrailingZeros(d) < LIMB_BITS
    ensures LimbAnd(x, d - 1) == x % d
  {
    PowerOfTwoTest(d);
    AndMask(x, TrailingZeros(d));
    CountBound(1, TrailingZeros(d));
  }

  lemma PowerNotOne(d: nat)
    requires d > 1 && d == Pow2(TrailingZeros(d))
    ensures TrailingZeros(d) >= 1
  {
  }
}
