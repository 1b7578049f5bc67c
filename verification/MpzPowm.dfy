/** mpz_powm (mini-gmp.c): modular exponentiation by squaring, with every reduction but the
    last taken modulo the left-shifted (normalised) modulus. */
module MpzPowm {
  import opened Limbs
  import opened Bits
  import opened MpzBase
  import opened MpnDiv
  import opened Invert
  import opened Gcd
  import MpzGcd
  import MpzDiv
  import Mpn

  // -------------------------------------------------------------------- congruences

  predicate Congruent(x: int, y: int, m: nat) {
    m > 0 && x % m == y % m
  }

  lemma CongruentBy(x: int, y: int, m: nat, k: int)
    requires m > 0 && x == y + k * m
    ensures Congruent(x, y, m)
  {
    DivModFacts(y, m);
    assert (y / m + k) * m == y / m * m + k * m;
    DivModUnique(x, m, y / m + k, y % m);
  }

  lemma CongruentFactor(x: int, y: int, m: nat) returns (k: int)
    requires Congruent(x, y, m)
    ensures x == y + k * m
  {
    DivModFacts(x, m);
    DivModFacts(y, m);
    k := x / m - y / m;
    assert k * m == x / m * m - y / m * m;
  }

  lemma CongruentMul(x: int, y: int, x': int, y': int, m: nat)
    requires Congruent(x, x', m) && Congruent(y, y', m)
    ensures Congruent(x * y, x' * y', m)
  {
    hide Congruent;
    var a := CongruentFactor(x, x', m);
    var b := CongruentFactor(y, y', m);
    assert (x' + a * m) * (y' + b * m) == x' * y' + (x' * b + a * y' + a * b * m) * m;
    CongruentBy(x * y, x' * y', m, x' * b + a * y' + a * b * m) by {
      assert m > 0 by { PositiveModulus(x, x', m); }
    }
  }

  lemma PositiveModulus(x: int, y: int, m: nat)
    requires Congruent(x, y, m)
    ensures m > 0
  {
  }

  lemma {:induction false} CongruentPow(x: int, y: int, e: nat, m: nat)
    requires Congruent(x, y, m)
    ensures Congruent(Pow(x, e), Pow(y, e), m)
  {
    if e > 0 {
      CongruentPow(x, y, e - 1, m);
      CongruentMul(x, Pow(x, e - 1), y, Pow(y, e - 1), m);
    }
  }

  /** Congruence modulo a multiple implies congruence modulo the factor. */
  lemma CongruentDivisor(x: int, y: int, m: nat, p: nat)
    requires m > 0 && p > 0 && Congruent(x, y, m * p)
    ensures Congruent(x, y, m)
  {
    hide Congruent;
    var k := CongruentFactor(x, y, m * p);
    assert k * (m * p) == (k * p) * m;
    CongruentBy(x, y, m, k * p);
  }

  lemma CongruentMod(x: int, m: nat)
    requires m > 0
    ensures Congruent(x % m, x, m)
  {
    DivModFacts(x, m);
    CongruentBy(x % m, x, m, 0 - x / m) by {
      assert (0 - x / m) * m == 0 - x / m * m;
    }
  }

  lemma CongruentTrans(x: int, y: int, z: int, m: nat)
    requires Congruent(x, y, m) && Congruent(y, z, m)
    ensures Congruent(x, z, m)
  {
  }

  // ------------------------------------------------------------------- the reductions

  /** tr is replaced by its residue modulo the number that minv stands for. */
  method Reduce(tr: Mpz, mp: array<Limb>, mn: nat, minv: DivInverse, ghost M: nat)
    requires tr.Valid() && tr.d != mp && 0 < mn <= mp.Length && mn <= tr.size
    requires DivisorFor(minv, mp[..mn], M)
    modifies tr`size, tr.d
    ensures M > 0 && tr.Valid() && tr.Value() == old(tr.Value()) % M && 0 <= tr.size <= mn
  {
    hide Val, Mpz.Value, Mpz.Mag, DivisorFor;
    PositiveValue(tr);
    assert tr.d[..Abs(tr.size)] == tr.d[..tr.size];
    DivQrPreinv(null, tr.d, tr.size, mp, mn, minv, M);
    Normalize(tr, mn);
  }

  lemma PositiveValue(tr: Mpz)
    requires tr.Valid() && tr.size >= 0
    ensures tr.Value() == Val(tr.d[..tr.size])
  {
  }

  /** The low n limbs become the number, without their high zeros. */
  method Normalize(tr: Mpz, n: nat)
    requires n <= tr.d.Length && tr.d.Length >= 1
    modifies tr`size
    ensures tr.Valid() && tr.Value() == Val(tr.d[..n]) && 0 <= tr.size <= n
  {
    hide Val;
    EmptyValues();
    ghost var v := Val(tr.d[..n]);
    var rn := Mpn.NormalizedSize(tr.d, n);
    tr.size := rn;
    Stored(tr, rn, v);
  }

  /** The loop state: tr is congruent to the base raised to the exponent bits read so far. */
  predicate PowerSoFar(tr: int, base: int, k: nat, M: nat) {
    tr >= 0 && Congruent(tr, Pow(base, k), M)
  }

  /** Square, multiply if the bit is set, reduce if the number has outgrown the modulus. */
  method PowmStep(tr: Mpz, base: Mpz, bit: bool, mp: array<Limb>, mn: nat, minv: DivInverse, ghost M: nat, ghost k: nat)
    requires tr.Valid() && base.Valid() && tr != base && tr.d != base.d && tr.d != mp
    requires 0 < mn <= mp.Length && DivisorFor(minv, mp[..mn], M)
    requires base.Value() >= 0 && PowerSoFar(tr.Value(), base.Value(), k, M)
    modifies tr, tr.d
    ensures tr.Valid() && PowerSoFar(tr.Value(), base.Value(), 2 * k + (if bit then 1 else 0), M)
    ensures tr.size <= mn
    ensures tr.d == old(tr.d) || fresh(tr.d)
  {
    hide Val, Mpz.Value, Mpz.Mag, DivisorFor, PowerSoFar;
    ghost var b := base.Value();
    SquareStep(tr.Value(), b, k, M);
    MulTo(tr, tr, tr);
    if bit {
      MultiplyStep(tr.Value(), b, 2 * k, M);
      MulTo(tr, tr, base);
    }
    ghost var e, x := 2 * k + (if bit then 1 else 0), tr.Value();
    if tr.size > mn {
      Reduce(tr, mp, mn, minv, M);
      ReduceStep(x, b, e, M);
    }
  }

  lemma SquareStep(x: int, b: int, k: nat, M: nat)
    requires PowerSoFar(x, b, k, M)
    ensures PowerSoFar(x * x, b, 2 * k, M)
  {
    CongruentMul(x, x, Pow(b, k), Pow(b, k), M);
    PowAdd(b, k, k);
    MulNonNeg(x, x);
    assert 2 * k == k + k;
  }

  lemma MultiplyStep(x: int, b: int, k: nat, M: nat)
    requires PowerSoFar(x, b, k, M) && b >= 0
    ensures PowerSoFar(x * b, b, k + 1, M)
  {
    CongruentMul(x, b, Pow(b, k), b, M);
    MulNonNeg(x, b);
    assert Pow(b, k + 1) == b * Pow(b, k);
    Commute(b, Pow(b, k));
  }

  lemma ReduceStep(x: int, b: int, k: nat, M: nat)
    requires PowerSoFar(x, b, k, M)
    ensures PowerSoFar(x % M, b, k, M)
  {
    CongruentMod(x, M);
    CongruentTrans(x % M, x, Pow(b, k), M);
  }

  // ------------------------------------------------------------- reading the exponent

  /** Testing a single bit of a limb. */
  lemma {:induction false} AndBit(x: nat, j: nat)
    ensures Bitwise(And, x, Pow2(j)) == if x / Pow2(j) % 2 == 1 then Pow2(j) else 0
  {
    if j == 0 {
      AndZero(x / 2);
      assert x / 1 == x;
    } else {
      AndBit(x / 2, j - 1);
      DivDiv(x, 2, Pow2(j - 1));
    }
  }

  /** The exponent read after the bits of w from j upwards, following the limbs that give H. */
  function Prefix(H: nat, w: Limb, j: nat): nat
    requires j <= 32
  {
    H * Pow2(32 - j) + Quo(w, Pow2(j))
  }

  lemma PrefixNext(H: nat, w: Limb, j: nat)
    requires 0 < j <= 32
    ensures Prefix(H, w, j - 1) == 2 * Prefix(H, w, j) + (if w / Pow2(j - 1) % 2 == 1 then 1 else 0)
  {
    var p := Pow2(j - 1);
    DivDiv(w, p, 2);
    var q := w / p;
    assert Pow2(j) == 2 * p && Pow2(32 - j + 1) == 2 * Pow2(32 - j);
    assert H * (2 * Pow2(32 - j)) == 2 * (H * Pow2(32 - j));
  }

  lemma PrefixEnds(H: nat, w: Limb)
    ensures Prefix(H, w, 32) == H && Prefix(H, w, 0) == H * B + w
  {
    Pow2Of32();
    assert Pow2(0) == 1;
    DivModUnique(w, B, 0, w);
  }

  /** One limb of the exponent, from its highest bit down. */
  method PowmLimb(tr: Mpz, base: Mpz, w: Limb, mp: array<Limb>, mn: nat, minv: DivInverse, ghost M: nat, ghost H: nat)
    requires tr.Valid() && base.Valid() && tr != base && tr.d != base.d && tr.d != mp
    requires 0 < mn <= mp.Length && DivisorFor(minv, mp[..mn], M)
    requires base.Value() >= 0 && PowerSoFar(tr.Value(), base.Value(), H, M)
    modifies tr, tr.d
    ensures tr.Valid() && PowerSoFar(tr.Value(), base.Value(), H * B + w, M) && tr.size <= mn
    ensures tr.d == old(tr.d) || fresh(tr.d)
  {
    hide Val, Mpz.Value, Mpz.Mag, DivisorFor, PowerSoFar, Pow2, LimbAnd, Prefix;
    var bit := HIGHBIT;
    ghost var j := 32;
    BitStart();
    PrefixEnds(H, w);
    while true
      invariant 0 < j <= 32 && bit == Pow2(j - 1) && bit < B
      invariant tr.Valid() && PowerSoFar(tr.Value(), base.Value(), Prefix(H, w, j), M)
      invariant tr.d == old(tr.d) || fresh(tr.d)
      decreases j
    {
      BitTest(w, bit, j);
      PrefixNext(H, w, j);
      PowmStep(tr, base, LimbAnd(w, bit) != 0, mp, mn, minv, M, Prefix(H, w, j));
      bit := bit / 2;
      j := j - 1;
      BitEnds(bit, j);
      if bit == 0 {
        break;
      }
    }
  }

  lemma BitStart()
    ensures Pow2(31) == HIGHBIT
  {
    Pow2Of32();
  }

  lemma BitTest(w: Limb, bit: nat, j: nat)
    requires 0 < j && bit == Pow2(j - 1) && bit < B
    ensures (LimbAnd(w, bit) != 0) == (w / Pow2(j - 1) % 2 == 1)
  {
    AndBit(w, j - 1);
  }

  lemma BitEnds(bit: nat, j: nat)
    requires bit == Pow2(j) / 2
    ensures j == 0 ==> bit == 0
    ensures j > 0 ==> bit == Pow2(j - 1) > 0
  {
  }

  /** All limbs of the exponent, from the highest down. */
  method PowmLoop(tr: Mpz, base: Mpz, ep: array<Limb>, en: nat, mp: array<Limb>, mn: nat, minv: DivInverse,
                  ghost M: nat)
    requires tr.Valid() && base.Valid() && tr != base && tr.d != base.d && tr.d != mp && tr.d != ep
    requires 0 < mn <= mp.Length && DivisorFor(minv, mp[..mn], M) && 0 < en <= ep.Length && M > 0
    requires base.Value() >= 0 && tr.Value() == 1
    modifies tr, tr.d
    ensures tr.Valid() && PowerSoFar(tr.Value(), base.Value(), Val(ep[..en]), M) && tr.size <= mn
    ensures tr.d == old(tr.d) || fresh(tr.d)
  {
    hide Val, Mpz.Value, Mpz.Mag, DivisorFor, PowerSoFar;
    EmptyValues();
    PowerStart(base.Value(), M);
    ghost var e := ep[..en];
    var i := en;
    assert e[en..] == [];
    while i > 0
      invariant 0 <= i <= en
      invariant tr.Valid() && PowerSoFar(tr.Value(), base.Value(), Val(e[i..]), M)
      invariant i < en ==> tr.size <= mn
      invariant tr.d == old(tr.d) || fresh(tr.d)
    {
      i := i - 1;
      TopValue(e, i);
      PowmLimb(tr, base, ep[i], mp, mn, minv, M, Val(e[i + 1..]));
    }
    assert e[0..] == e;
  }

  lemma PowerStart(b: int, M: nat)
    requires M > 0
    ensures PowerSoFar(1, b, 0, M)
  {
  }

  lemma TopValue(e: seq<Limb>, i: nat)
    requires i < |e|
    ensures Val(e[i..]) == Val(e[i + 1..]) * B + e[i]
  {
    assert e[i..] == [e[i]] + e[i + 1..];
    Mpn.ValCons(e[i], e[i + 1..]);
  }

  // --------------------------------------------------------------------- the modulus

  /** What is needed of the modulus: its normalised limbs, and the inverse for both divisors. */
  method NormalModulus(m: array<Limb>, mn: nat) returns (mp: array<Limb>, minv: DivInverse)
    requires 0 < mn <= m.Length && m[mn - 1] != 0
    ensures mp == m || fresh(mp)
    ensures mn <= mp.Length && DivisorFor(minv, mp[..mn], Val(m[..mn]))
    ensures DivisorFor(minv.(shift := 0), mp[..mn], Val(m[..mn]) * Pow2(minv.shift))
    ensures Val(mp[..mn]) == Val(m[..mn]) * Pow2(minv.shift) && Val(m[..mn]) > 0
  {
    hide Val, Pow2, IsInverse3by2, IsInverse2by1, ShlSeq, Inverse1, Inverse2, InverseN;
    Pow2Start();
    ghost var s := m[..mn];
    minv := DivInvert(m, mn);
    ValLower(s);
    mp := m;
    if minv.shift > 0 {
      mp := new Limb[mn];
      assert m[0..mn] == s;
      var carry := Mpn.LShift(mp, 0, m, 0, mn, minv.shift);
      ghost var t := mp[..mn];
      assert mp[0..mn] == t;
      ShiftedModulus(s, t, carry, minv);
    }
    SameInverse(s, mp[..mn], minv);
  }

  /** The shifted modulus fits its limbs. */
  lemma ShiftedModulus(s: seq<Limb>, t: seq<Limb>, carry: Limb, minv: DivInverse)
    requires |s| == |t| > 0 && 0 < minv.shift < LIMB_BITS && s[|s| - 1] != 0
    requires Val(t) + Shift(carry, |t|) == Val(s) * Pow2(minv.shift)
    requires |s| == 1 ==> Inverse1(minv, Val(s))
    requires |s| == 2 ==> Inverse2(minv, Val(s))
    requires |s| > 2 ==> InverseN(minv, Val(s), NormalizedDivisor(s, minv.shift))
    ensures Val(t) == Val(s) * Pow2(minv.shift)
    ensures |s| > 2 ==> t == NormalizedDivisor(s, minv.shift)
  {
    hide Val, Pow2, IsInverse3by2, IsInverse2by1, ShlSeq, Shift;
    if |s| == 1 {
      ModulusFits(t, carry, minv.d1, [minv.d1]);
    } else if |s| == 2 {
      ModulusFits(t, carry, minv.d1 * B + minv.d0, [minv.d0, minv.d1]);
    } else {
      var nd := NormalizedDivisor(s, minv.shift);
      ModulusFits(t, carry, Val(nd), nd);
    }
  }

  lemma ModulusFits(t: seq<Limb>, carry: Limb, v: nat, nd: seq<Limb>)
    requires |t| == |nd| && Val(t) + Shift(carry, |t|) == v
    requires v == if |nd| == 1 then nd[0] else if |nd| == 2 then nd[1] * B + nd[0] else Val(nd)
    ensures carry == 0 && Val(t) == v && t == nd
  {
    hide Val, Shift, PowB;
    if |nd| == 1 {
      ValSingle(nd[0]);
      assert nd == [nd[0]];
    } else if |nd| == 2 {
      ValPair(nd[0], nd[1]);
      assert nd == [nd[0], nd[1]];
    }
    NoCarryOut(t, nd, carry);
    ShiftZero(|t|);
    ValInjective(t, nd);
  }

  /** The inverse of the normalised modulus serves the modulus and its shifted form. */
  lemma SameInverse(s: seq<Limb>, t: seq<Limb>, minv: DivInverse)
    requires |s| == |t| > 0 && minv.shift < LIMB_BITS && Val(t) == Val(s) * Pow2(minv.shift)
    requires |s| == 1 ==> Inverse1(minv, Val(s))
    requires |s| == 2 ==> Inverse2(minv, Val(s))
    requires |s| > 2 ==> InverseN(minv, Val(s), NormalizedDivisor(s, minv.shift))
    requires |s| > 2 ==> t == NormalizedDivisor(s, minv.shift)
    ensures DivisorFor(minv, t, Val(s))
    ensures DivisorFor(minv.(shift := 0), t, Val(s) * Pow2(minv.shift))
  {
    hide Val, Pow2, IsInverse3by2, IsInverse2by1, ShlSeq;
    Pow2Start();
  }

  // ------------------------------------------------------------------------ the base

  /** The base for a non-negative exponent: congruent to b, not negative; a negative b gives
      M - (|b| mod M), which may be M itself. */
  method ReduceBase(base: Mpz, b: Mpz, mp: array<Limb>, mn: nat, minv: DivInverse, ghost M: nat)
    requires base.Valid() && b.Valid() && base != b && base.d != b.d && base.d != mp
    requires 0 < mn <= mp.Length && DivisorFor(minv, mp[..mn], M) && Val(mp[..mn]) == M >= PowB(mn - 1)
    modifies base, base.d
    ensures base.Valid() && base.Value() >= 0 && Congruent(base.Value(), b.Value(), M)
    ensures base.d == old(base.d) || fresh(base.d)
  {
    hide Val, Mpz.Value, Mpz.Mag, DivisorFor, Congruent, PowB;
    ghost var x := b.Value();
    MpzGcd.SizeSign(b);
    AbsTo(base, b);
    var bn := base.size;
    PositiveValue(base);
    SmallBase(base, mn);
    if bn >= mn {
      DivQrPreinv(null, base.d, bn, mp, mn, minv, M);
      bn := mn;
    }
    ghost var res := Val(base.d[..bn]);
    BaseResidue(x, res, M);
    if b.size < 0 {
      GrowLow(base, mn, bn);
      ComplementInto(base.d, bn, mp, mn);
      bn := mn;
    }
    Normalize(base, bn);
  }

  /** MPZ_REALLOC seen from the low k limbs. */
  method GrowLow(r: Mpz, n: nat, k: nat)
    requires Abs(r.size) <= r.d.Length && r.d.Length >= 1 && k <= r.d.Length
    modifies r`d
    ensures r.d.Length >= n && k <= r.d.Length && r.d[..k] == old(r.d[..k])
    ensures fresh(r.d) || r.d == old(r.d)
  {
    ghost var s := r.d[..];
    Grow(r, n);
    assert r.d[..k] == r.d[..|s|][..k];
  }

  lemma SmallBase(base: Mpz, mn: nat)
    requires base.Valid() && base.size >= 0 && mn > 0
    ensures base.size < mn ==> base.Value() < PowB(mn - 1)
  {
    base.SizeFacts();
    if base.size < mn { PowBMono(base.size, mn - 1); }
  }

  lemma BaseResidue(x: int, res: nat, M: nat)
    requires M > 0 && (res == Abs(x) % M || (res == Abs(x) && res < M))
    ensures res < M && (x >= 0 ==> Congruent(res, x, M)) && (x < 0 ==> Congruent(M - res, x, M))
  {
    var a, q := Abs(x), Abs(x) / M;
    DivModFacts(a, M);
    DivModUnique(a, M, q, a % M);
    if res == a && res < M { DivModUnique(a, M, 0, a); }
    assert (0 - q) * M == 0 - q * M && (q + 1) * M == q * M + M;
    if x >= 0 {
      CongruentBy(res, x, M, 0 - q);
    } else {
      CongruentBy(M - res, x, M, q + 1);
    }
  }

  /** bp := M - bp, without borrow. */
  method ComplementInto(bp: array<Limb>, bn: nat, mp: array<Limb>, mn: nat)
    requires bn <= mn <= bp.Length && mn <= mp.Length && bp != mp && Val(bp[..bn]) <= Val(mp[..mn])
    modifies bp
    ensures Val(bp[..mn]) == Val(mp[..mn]) - old(Val(bp[..bn]))
  {
    hide Val, Shift;
    ghost var m := Val(mp[..mn]) - Val(bp[..bn]);
    assert mp[0..0 + mn] == mp[..mn] && bp[0..0 + bn] == bp[..bn];
    var cy := Mpn.Sub(bp, 0, mp, 0, mn, bp, 0, bn);
    assert bp[0..0 + mn] == bp[..mn];
    NoBorrow(bp[..mn], cy, m);
  }

  // ------------------------------------------------------------------------- mpz_powm

  /** The loop and the final reduction, for a base congruent modulo the shifted modulus. */
  method PowmRun(base: Mpz, ep: array<Limb>, en: nat, mp: array<Limb>, mn: nat, minv: DivInverse, ghost m: nat)
    returns (tr: Mpz)
    requires base.Valid() && base.Value() >= 0 && 0 < en <= ep.Length
    requires 0 < mn <= mp.Length && m >= PowB(mn - 1)
    requires DivisorFor(minv, mp[..mn], m) && DivisorFor(minv.(shift := 0), mp[..mn], m * Pow2(minv.shift))
    ensures tr.Valid() && fresh(tr) && fresh(tr.d)
    ensures tr.Value() == Pow(base.Value(), Val(ep[..en])) % m
  {
    hide Val, Mpz.Value, Mpz.Mag, DivisorFor, Pow2, PowB, PowerSoFar, Pow, Congruent;
    ghost var b, e := base.Value(), Val(ep[..en]);
    tr := new Mpz.Init();
    SetUi(tr, 1);
    MulStrict(0, m, Pow2(minv.shift));
    PowmLoop(tr, base, ep, en, mp, mn, minv.(shift := 0), m * Pow2(minv.shift));
    ghost var x := tr.Value();
    FinalResidue(x, b, e, m, Pow2(minv.shift));
    MpzGcd.SizeSign(tr);
    if tr.size >= mn {
      Reduce(tr, mp, mn, minv, m);
    } else {
      SmallBase(tr, mn);
      SmallResidue(x, m);
    }
  }

  lemma FinalResidue(x: int, b: int, e: nat, m: nat, p: nat)
    requires m > 0 && p > 0 && PowerSoFar(x, b, e, m * p)
    ensures x >= 0 && x % m == Pow(b, e) % m
  {
    CongruentDivisor(x, Pow(b, e), m, p);
  }

  lemma SmallResidue(x: int, m: nat)
    requires 0 <= x < m
    ensures x % m == x
  {
    DivModUnique(x, m, 0, x);
  }

  lemma BasePower(base: int, b: int, e: nat, m: nat, p: nat)
    requires m > 0 && p > 0 && Congruent(base, b, m * p)
    ensures Pow(base, e) % m == Pow(b, e) % m
  {
    hide Pow;
    CongruentDivisor(base, b, m, p);
    CongruentPow(base, b, e, m);
  }

  /** What mpz_powm leaves in r: the residue of the power, or 1 for a zero exponent.  For a
      negative exponent, c is the inverse of b. */
  ghost predicate PowerMod(r: int, b: int, c: int, e: int, m: int) {
    && m != 0
    && (e == 0 ==> r == 1)
    && (e > 0 ==> r == Pow(b, e) % Abs(m))
    && (e < 0 ==> MpzGcd.InverseMod(c, b, m) && r == Pow(c, Abs(e)) % Abs(m))
  }

  /** For an exponent that is not negative the result is the reduced power, except 1 instead of 0 for
      the exponent 0 and a modulus of magnitude 1. */
  lemma ReducedIff(r: int, b: int, c: int, e: nat, m: int)
    requires PowerMod(r, b, c, e, m)
    ensures r == Pow(b, e) % Abs(m) <==> e != 0 || Abs(m) != 1
  {
    if e == 0 && Abs(m) > 1 {
      DivModUnique(1, Abs(m), 0, 1);
    }
  }

  /** mpz_powm; false where the C code stops the program. */
  method Powm(r: Mpz, b: Mpz, e: Mpz, m: Mpz) returns (ok: bool, ghost c: int)
    requires r.Valid() && b.Valid() && e.Valid() && m.Valid()
    requires Separate(r, b) && Separate(r, e) && Separate(r, m)
    requires Separate(b, e) && Separate(b, m) && Separate(e, m)
    modifies r, r.d
    ensures r.Valid() && (r.d == old(r.d) || fresh(r.d))
    ensures ok == (old(m.Value()) != 0 && (old(e.Value()) >= 0 ||
                   (Abs(old(m.Value())) > 1 && IsGcd(1, old(b.Value()), old(m.Value())))))
    ensures ok ==> PowerMod(r.Value(), old(b.Value()), c, old(e.Value()), old(m.Value()))
  {
    hide Val, Mpz.Value, Mpz.Mag, PowerMod, IsGcd;
    c := 0;
    MpzGcd.SizeSign(m);
    MpzGcd.SizeSign(e);
    if m.size == 0 {
      return false, 0;
    }
    if e.size == 0 {
      ZeroExponent(b.Value(), m.Value());
      SetUi(r, 1);
      return true, 0;
    }
    var tr;
    ok, tr, c := PowmNonZero(b, e, m);
    if ok {
      MpzGcd.SwapOwned(r, tr);
    }
  }

  lemma ZeroExponent(b: int, m: int)
    requires m != 0
    ensures PowerMod(1, b, 0, 0, m)
  {
  }

  method PowmNonZero(b: Mpz, e: Mpz, m: Mpz) returns (ok: bool, tr: Mpz, ghost c: int)
    requires b.Valid() && e.Valid() && m.Valid() && e.size != 0 && m.size != 0
    requires Separate(b, e) && Separate(b, m) && Separate(e, m)
    ensures tr.Valid() && fresh(tr) && fresh(tr.d)
    ensures ok == (e.Value() >= 0 || (Abs(m.Value()) > 1 && IsGcd(1, b.Value(), m.Value())))
    ensures ok ==> PowerMod(tr.Value(), b.Value(), c, e.Value(), m.Value())
  {
    hide Val, Mpz.Value, Mpz.Mag, IsGcd, MpzGcd.InverseMod, DivisorFor, Pow, Pow2, PowB;
    var mn, en := Abs(m.size), Abs(e.size);
    Magnitudes(m);
    Magnitudes(e);
    var mp, minv := NormalModulus(m.d, mn);
    ghost var p, mv := Pow2(minv.shift), Abs(m.Value());
    MulMono(1, p, mv);
    var base := new Mpz.Init();
    c := 0;
    ok := true;
    if e.size < 0 {
      ok := MpzGcd.Invert(base, b, m);
      if !ok {
        tr := base;
        return;
      }
      c := base.Value();
      PositiveInverse(c, b.Value(), m.Value());
    } else {
      ReduceBase(base, b, mp, mn, minv.(shift := 0), mv * p);
      BasePower(base.Value(), b.Value(), Abs(e.Value()), mv, p);
    }
    tr := PowmRun(base, e.d, en, mp, mn, minv, mv);
  }

  lemma PositiveInverse(c: int, b: int, m: int)
    requires MpzGcd.InverseMod(c, b, m)
    ensures c > 0
  {
  }

  lemma Magnitudes(x: Mpz)
    requires x.Valid() && x.size != 0
    ensures Val(x.d[..Abs(x.size)]) == Abs(x.Value()) >= PowB(Abs(x.size) - 1)
    ensures x.size > 0 <==> x.Value() > 0
    ensures x.Value() != 0
  {
    x.SizeFacts();
  }
}
