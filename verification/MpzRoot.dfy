/** mpz_pow_ui, mpz_sizeinbase for base 2, and mpz_rootrem (mini-gmp.c): integer roots by
    Newton's iteration from a power of two above the root. */
module MpzRoot {
  import opened Limbs
  import opened Bits
  import opened MpzBase
  import opened MpzDiv
  import opened MpzShift
  import opened MpzPowm
  import MpzBits
  import MpzGcd
  import Mpn
  import MpnDiv
  import MpnStr

  // ------------------------------------------------------------------- mpz_pow_ui

  lemma PowBit(x: int, b: int, k: nat)
    requires x == Pow(b, k)
    ensures x * x == Pow(b, 2 * k) && x * x * b == Pow(b, 2 * k + 1)
  {
    PowAdd(b, k, k);
    assert k + k == 2 * k;
    assert Pow(b, 2 * k + 1) == b * Pow(b, 2 * k);
    Commute(x * x, b);
  }

  /** mpz_pow_ui: all bits of the exponent word, from the highest down. */
  method PowUi(r: Mpz, b: Mpz, e: Limb)
    requires r.Valid() && b.Valid() && Separate(r, b)
    modifies r
    ensures r.Valid() && r.Value() == Pow(old(b.Value()), e) && fresh(r.d)
  {
    hide Val, Mpz.Value, Mpz.Mag, Pow2, LimbAnd, Prefix, Pow;
    var tr := new Mpz.Init();
    SetUi(tr, 1);
    ghost var x, j := b.Value(), 32;
    var bit := HIGHBIT;
    BitStart();
    PrefixEnds(0, e);
    PowZero(x);
    while true
      invariant 0 < j <= 32 && bit == Pow2(j - 1) && bit < B
      invariant tr.Valid() && tr.Value() == Pow(x, Prefix(0, e, j)) && fresh(tr.d) && tr.d != b.d
      invariant r.Valid() && r.d == old(r.d) && b.Valid() && b.Value() == x
      decreases j
    {
      BitTest(e, bit, j);
      PrefixNext(0, e, j);
      PowBit(tr.Value(), x, Prefix(0, e, j));
      MulTo(tr, tr, tr);
      if LimbAnd(e, bit) != 0 {
        MulTo(tr, tr, b);
      }
      bit := bit / 2;
      j := j - 1;
      BitEnds(bit, j);
      if bit == 0 {
        break;
      }
    }
    MpzGcd.SwapOwned(r, tr);
  }

  lemma PowZero(b: int)
    ensures Pow(b, 0) == 1
  {
  }

  // ---------------------------------------------------------------- size in base two

  /** mpz_sizeinbase (u, 2): the number of bits of |u|, and 1 for zero. */
  method SizeInBase2(u: Mpz) returns (bits: nat)
    requires u.Valid()
    ensures bits > 0
    ensures if u.Value() == 0 then bits == 1 else Pow2(bits - 1) <= Abs(u.Value()) < Pow2(bits)
  {
    hide Pow2, Val;
    u.SizeFacts();
    var un := Abs(u.size);
    if un == 0 {
      return 1;
    }
    var top := MpnStr.LimbSizeInBase2(u.d[un - 1]);
    bits := (un - 1) * LIMB_BITS + top;
    MpnStr.BitsOfLimbs(u.d[..un], top);
  }

  // -------------------------------------------------------------- Newton's iteration

  /** The tangent of the z-th power at s lies below the curve. */
  lemma {:induction false} Tangent(w: nat, s: nat, z: nat)
    requires z > 0
    ensures Pow(w, z) >= z * (w * Pow(s, z - 1)) - (z - 1) * Pow(s, z)
  {
    PowZero(w);
    PowZero(s);
    if z > 1 {
      var k := z - 1;
      Tangent(w, s, k);
      PowPositive(s, k - 1);
      var p := Pow(s, k - 1);
      assert Pow(s, k) == s * p;
      assert Pow(s, z) == s * (s * p) && Pow(w, z) == w * Pow(w, k);
      MulMono(k * (w * p) - (k - 1) * (s * p), Pow(w, k), w);
      TangentStep(w, s, k, p);
      SquareNonNeg(w - s);
      MulNonNeg(k, p);
      MulNonNeg(k * p, (w - s) * (w - s));
    } else {
      assert Pow(w, 1) == w * Pow(w, 0);
    }
  }

  lemma SquareNonNeg(x: int)
    ensures x * x >= 0
  {
  }

  lemma TangentStep(w: int, s: int, k: int, p: int)
    ensures w * (k * (w * p) - (k - 1) * (s * p)) - (k + 1) * (w * (s * p)) + k * (s * (s * p))
         == (k * p) * ((w - s) * (w - s))
  {
    var a, b, c := w * (w * p), w * (s * p), s * (s * p);
    assert w * (k * (w * p) - (k - 1) * (s * p)) == k * a - (k - 1) * b by {
      TimesDifference(w, k, w * p, k - 1, s * p);
    }
    assert (w - s) * (w - s) == w * w - 2 * (w * s) + s * s;
    assert p * ((w - s) * (w - s)) == a - 2 * b + c by {
      Cubic(p, w, s);
    }
    assert (k * p) * ((w - s) * (w - s)) == k * (p * ((w - s) * (w - s)));
    assert k * (a - 2 * b + c) == k * a - 2 * (k * b) + k * c by { Distribute3(k, a, b, c); }
    assert (k - 1) * b == k * b - b && (k + 1) * b == k * b + b;
  }

  lemma TimesDifference(w: int, k: int, x: int, l: int, y: int)
    ensures w * (k * x - l * y) == k * (w * x) - l * (w * y)
  {
  }

  lemma Distribute3(k: int, a: int, b: int, c: int)
    ensures k * (a - 2 * b + c) == k * a - 2 * (k * b) + k * c
  {
  }

  lemma Cubic(p: int, w: int, s: int)
    ensures p * (w * w - 2 * (w * s) + s * s) == w * (w * p) - 2 * (w * (s * p)) + s * (s * p)
  {
    Distribute3(p, w * w, w * s, s * s);
    assert p * (w * w) == w * (w * p) && p * (w * s) == w * (s * p) && p * (s * s) == s * (s * p);
  }

  /** One step of the iteration on magnitudes, with its two truncations. */
  function NewtonNext(a: nat, s: nat, z: nat): (t: nat)
    requires s > 0 && z > 0
  {
    PowPositive(s, z - 1);
    MulNonNeg(z - 1, s);
    Quo(Quo(a, Pow(s, z - 1)) + (z - 1) * s, z)
  }

  /** What the two truncations of a step lose. */
  lemma NewtonFloors(a: nat, s: nat, z: nat) returns (S: nat, q: nat)
    requires s > 0 && z > 0
    ensures S == Pow(s, z - 1) > 0 && q * S <= a < (q + 1) * S
    ensures var t := NewtonNext(a, s, z); z * t <= q + (z - 1) * s < z * (t + 1)
  {
    hide Quo;
    PowPositive(s, z - 1);
    S := Pow(s, z - 1);
    q := Quo(a, S);
    MulNonNeg(z - 1, s);
    FloorBounds(a, S);
    FloorBounds(q + (z - 1) * s, z);
  }

  lemma FloorBounds(n: nat, d: nat)
    requires d > 0
    ensures d * Quo(n, d) <= n < d * (Quo(n, d) + 1)
    ensures Quo(n, d) * d <= n < (Quo(n, d) + 1) * d
  {
    DivModFacts(n, d);
    assert (n / d + 1) * d == n / d * d + d;
  }

  /** The iteration never falls below the root. */
  lemma NewtonAbove(a: nat, s: nat, z: nat)
    requires s > 0 && z > 0
    ensures Pow(NewtonNext(a, s, z) + 1, z) > a
  {
    hide NewtonNext;
    var S, q := NewtonFloors(a, s, z);
    var w := NewtonNext(a, s, z) + 1;
    MulMono(q + (z - 1) * s + 1, z * w, S);
    Regroup(q, z - 1, s, S);
    Associate(z, w, S);
    assert Pow(s, z) == s * S;
    Tangent(w, s, z);
  }

  lemma Associate(x: int, y: int, k: int)
    ensures x * y * k == x * (y * k)
  {
  }

  lemma Regroup(q: int, k: int, s: int, S: int)
    ensures (q + k * s + 1) * S == (q + 1) * S + k * (s * S)
  {
    assert (q + 1 + k * s) * S == (q + 1) * S + (k * s) * S;
  }

  /** Where the iteration stops descending, the power is at most the radicand. */
  lemma NewtonStops(a: nat, s: nat, z: nat)
    requires s > 0 && z > 0 && NewtonNext(a, s, z) >= s
    ensures Pow(s, z) <= a
  {
    hide NewtonNext;
    var S, q := NewtonFloors(a, s, z);
    MulMono(s, NewtonNext(a, s, z), z);
    assert z * s == (z - 1) * s + s;
    MulMono(s, q, S);
    assert Pow(s, z) == s * S;
  }

  // -------------------------------------------------------------------- mpz_rootrem

  /** x is the z-th root of y, truncated toward zero. */
  predicate IsRoot(x: int, y: int, z: nat) {
    if y >= 0 then x >= 0 && Pow(x, z) <= y < Pow(x + 1, z)
    else x <= 0 && Pow(-x, z) <= -y < Pow(-x + 1, z)
  }

  /** The root is determined by its bounds. */
  lemma RootUnique(x: int, x': int, y: int, z: nat)
    requires z > 0 && IsRoot(x, y, z) && IsRoot(x', y, z)
    ensures x == x'
  {
    var a, b := Abs(x), Abs(x');
    if a < b {
      PowMono(a + 1, b, z);
    } else if b < a {
      PowMono(b + 1, a, z);
    }
  }

  /** For z = 2 this is the integer square root. */
  lemma SquareRoot(x: int, y: int)
    requires y >= 0
    ensures IsRoot(x, y, 2) <==> x >= 0 && x * x <= y < (x + 1) * (x + 1)
  {
    PowTwo(x);
    PowTwo(x + 1);
  }

  lemma PowTwo(x: int)
    ensures Pow(x, 2) == x * x
  {
    assert Pow(x, 2) == x * Pow(x, 1);
    assert Pow(x, 1) == x * Pow(x, 0);
  }

  // ------------------------------------------------------------------------- signs

  lemma {:induction false} PowSign(s: nat, neg: bool, k: nat)
    ensures Pow(Signed(s, neg), k) == Signed(PowNat(s, k), neg && k % 2 == 1)
  {
    PowPositive(s, k);
    if k > 0 {
      PowSign(s, neg, k - 1);
      PowPositive(s, k - 1);
      ProductSign(s, Pow(s, k - 1), neg, neg && (k - 1) % 2 == 1);
    }
  }

  /** The truncated division of a signed number by a positive one. */
  lemma TruncSigned(a: nat, neg: bool, S: nat, q: int, r: int)
    requires S > 0 && Divides(Trunc, Signed(a, neg), S, q, r)
    ensures q == Signed(Quo(a, S), neg)
  {
    TruncatedSigns(a, S, neg, false);
    DividesUnique(Trunc, Signed(a, neg), S, q, r, Signed(Quo(a, S), neg), Signed(Rem(a, S), neg));
  }

  // ----------------------------------------------------------------------- iterations

  ghost predicate Own3(x: Mpz, y: Mpz, z: Mpz)
    reads x, y, z, x.d, y.d, z.d
  {
    && x != y && x != z && y != z && x.d != y.d && x.d != z.d && y.d != z.d
    && x.Valid() && y.Valid() && z.Valid()
  }

  /** t := (y / u + u) / 2 */
  method SqrtStep(t: Mpz, u: Mpz, y: Mpz)
    requires Own3(t, u, y) && u.Value() > 0 && y.Value() >= 0
    modifies t, t.d
    ensures Own3(t, u, y) && t.Value() == NewtonNext(y.Value(), u.Value(), 2)
    ensures u.Value() == old(u.Value()) && y.Value() == old(y.Value())
    ensures t.d == old(t.d) || fresh(t.d)
  {
    hide Val, Mpz.Value, Mpz.Mag, Divides, IsQuotient;
    ghost var a: nat, s: nat := y.Value(), u.Value();
    TdivQ(t, y, u);
    TruncSigned(a, false, s, t.Value(), a - t.Value() * s);
    MpzBase.Add(t, t, u);
    ghost var N := t.Value();
    DivQ2Exp(t, t, 1, Trunc);
    HalfOfSum(a, s, N, t.Value());
  }

  lemma HalfOfSum(a: nat, s: nat, N: int, t: int)
    requires s > 0 && N == Quo(a, s) + s && IsQuotient(Trunc, N, Pow2(1), t)
    ensures t == NewtonNext(a, s, 2)
  {
    MpnDiv.Pow2Start();
    assert Pow(s, 1) == s * Pow(s, 0);
    TruncSigned(N, false, 2, t, N - t * 2);
  }

  /** t := (y / u^(z-1) + u * (z-1)) / z */
  method RootStep(t: Mpz, u: Mpz, v: Mpz, y: Mpz, z: Limb, ghost neg: bool, ghost a: nat, ghost s: nat)
    requires MpzGcd.Own4(t, u, v, y) && z > 0 && s > 0 && (neg ==> z % 2 == 1)
    requires u.Value() == Signed(s, neg) && y.Value() == Signed(a, neg)
    modifies t, t.d, v, v.d
    ensures MpzGcd.Own4(t, u, v, y) && t.Value() == Signed(NewtonNext(a, s, z), neg)
    ensures u.Value() == old(u.Value()) && y.Value() == old(y.Value())
    ensures t.d == old(t.d) || fresh(t.d)
    ensures v.d == old(v.d) || fresh(v.d)
  {
    hide Val, Mpz.Value, Mpz.Mag, Divides, IsQuotient, Pow, NewtonNext, Quo;
    PowUi(t, u, z - 1);
    ghost var S := Pow(s, z - 1);
    PowerOfRoot(s, neg, z);
    TdivQ(t, y, t);
    TruncSigned(a, neg, S, t.Value(), y.Value() - t.Value() * S);
    SumStep(t, u, v, z, neg, a, s, S);
  }

  /** t := (t + u * (z-1)) / z */
  method SumStep(t: Mpz, u: Mpz, v: Mpz, z: Limb, ghost neg: bool, ghost a: nat, ghost s: nat, ghost S: nat)
    requires Own3(t, u, v) && z > 0 && s > 0 && S == Pow(s, z - 1) && S > 0
    requires u.Value() == Signed(s, neg) && t.Value() == Signed(Quo(a, S), neg)
    modifies t, t.d, v, v.d
    ensures Own3(t, u, v) && t.Value() == Signed(NewtonNext(a, s, z), neg)
    ensures u.Value() == old(u.Value())
    ensures t.d == old(t.d) || fresh(t.d)
    ensures v.d == old(v.d) || fresh(v.d)
  {
    hide Val, Mpz.Value, Mpz.Mag, Divides, IsQuotient, Pow, NewtonNext, Quo;
    MulUi(v, u, z - 1);
    ghost var q := t.Value();
    MpzBase.Add(t, t, v);
    ghost var N, Q := t.Value(), 0;
    var rem;
    rem, Q := DivQUi(t, null, t, z, Trunc);
    QuotientOfSum(a, s, z, neg, S, q, N, Q);
  }

  lemma PowerOfRoot(s: nat, neg: bool, z: nat)
    requires z > 0 && s > 0 && (neg ==> z % 2 == 1)
    ensures Pow(Signed(s, neg), z - 1) == Pow(s, z - 1) > 0
  {
    PowSign(s, neg, z - 1);
    PowPositive(s, z - 1);
  }

  lemma QuotientOfSum(a: nat, s: nat, z: nat, neg: bool, S: nat, q: int, N: int, Q: int)
    requires z > 0 && s > 0 && S == Pow(s, z - 1) && S > 0 && q == Signed(Quo(a, S), neg)
    requires N == q + Signed(s, neg) * (z - 1) && IsQuotient(Trunc, N, z, Q)
    ensures Q == Signed(NewtonNext(a, s, z), neg)
  {
    hide Quo;
    MulNonNeg(z - 1, s);
    SignedProduct(s, z - 1, neg);
    var M := Quo(a, S) + (z - 1) * s;
    assert N == Signed(M, neg);
    TruncSigned(M, neg, z, Q, N - Q * z);
  }

  /** What every iterate of the descent satisfies. */
  predicate AboveRoot(a: nat, s: int, z: nat) {
    s > 0 && Pow(s + 1, z) > a
  }

  lemma NextIterate(a: nat, s: nat, z: nat)
    requires AboveRoot(a, s, z) && z > 0 && a > 1
    ensures AboveRoot(a, NewtonNext(a, s, z), z)
    ensures NewtonNext(a, s, z) >= s ==> Pow(s, z) <= a < Pow(s + 1, z)
  {
    NewtonAbove(a, s, z);
    if NewtonNext(a, s, z) == 0 {
      PowOne(z);
    }
    if NewtonNext(a, s, z) >= s {
      NewtonStops(a, s, z);
    }
  }

  lemma {:induction false} PowOne(z: nat)
    ensures Pow(1, z) == 1
  {
    if z > 0 {
      PowOne(z - 1);
    }
  }

  /** The starting value: a power of two above the root. */
  lemma StartAbove(a: nat, bits: nat, z: nat)
    requires z > 0 && a < Pow2(bits)
    ensures AboveRoot(a, Pow2(bits / z + 1), z)
  {
    hide Pow2;
    var tb := bits / z + 1;
    DivModFacts(bits, z);
    DivNonNeg(bits, z);
    assert tb * z == bits / z * z + z;
    PowOfPow2(tb, z);
    Pow2Mono(bits, tb * z);
    PowMono(Pow2(tb), Pow2(tb) + 1, z);
  }

  lemma {:induction false} PowOfPow2(t: nat, z: nat)
    ensures t * z >= 0 && Pow(Pow2(t), z) == Pow2(t * z)
  {
    MulNonNeg(t, z);
    if z > 0 {
      PowOfPow2(t, z - 1);
      assert t * z == t + t * (z - 1);
      Pow2Add(t, t * (z - 1));
    } else {
      assert t * 0 == 0;
    }
  }

  lemma RootFromMagnitudes(s: nat, a: nat, neg: bool, z: nat)
    requires Pow(s, z) <= a < Pow(s + 1, z) && (neg ==> a > 0)
    ensures IsRoot(Signed(s, neg), Signed(a, neg), z)
  {
  }

  /** The square-root loop. */
  method SqrtLoop(t: Mpz, u: Mpz, y: Mpz)
    requires Own3(t, u, y) && y.Value() > 1 && AboveRoot(y.Value(), t.Value(), 2)
    modifies t, t.d, u, u.d
    ensures Own3(t, u, y) && y.Value() == old(y.Value()) && IsRoot(u.Value(), y.Value(), 2)
    ensures t.d == old(t.d) || t.d == old(u.d) || fresh(t.d)
    ensures u.d == old(t.d) || u.d == old(u.d) || fresh(u.d)
  {
    hide Val, Mpz.Value, Mpz.Mag, NewtonNext, AboveRoot, Pow;
    ghost var a: nat := y.Value();
    AbovePositive(a, t.Value(), 2);
    while true
      invariant Own3(t, u, y) && y.Value() == a && AboveRoot(a, t.Value(), 2) && t.Value() > 0
      invariant t.d == old(t.d) || t.d == old(u.d) || fresh(t.d)
      invariant u.d == old(t.d) || u.d == old(u.d) || fresh(u.d)
      decreases t.Value()
    {
      MpzGcd.SwapOwned(u, t);
      ghost var s: nat := u.Value();
      SqrtStep(t, u, y);
      NextIterate(a, s, 2);
      AbovePositive(a, t.Value(), 2);
      var c := MpzGcd.CmpAbs(t, u);
      if c >= 0 {
        RootFromMagnitudes(s, a, false, 2);
        break;
      }
    }
  }

  lemma AbovePositive(a: nat, s: int, z: nat)
    requires AboveRoot(a, s, z)
    ensures s > 0
  {
  }

  /** The loop for the other exponents. */
  method RootLoop(t: Mpz, u: Mpz, y: Mpz, z: Limb, ghost neg: bool, ghost a: nat)
    requires Own3(t, u, y) && a > 1 && y.Value() == Signed(a, neg) && z > 0 && (neg ==> z % 2 == 1)
    requires AboveRoot(a, Abs(t.Value()), z) && t.Value() == Signed(Abs(t.Value()), neg)
    modifies t, t.d, u, u.d
    ensures Own3(t, u, y) && y.Value() == old(y.Value()) && IsRoot(u.Value(), y.Value(), z)
    ensures t.d == old(t.d) || t.d == old(u.d) || fresh(t.d)
    ensures u.d == old(t.d) || u.d == old(u.d) || fresh(u.d)
  {
    hide Val, Mpz.Value, Mpz.Mag, NewtonNext, AboveRoot, Pow, IsRoot;
    var v := new Mpz.Init();
    AbovePositive(a, Abs(t.Value()), z);
    while true
      invariant MpzGcd.Own4(t, u, v, y) && y.Value() == Signed(a, neg)
      invariant AboveRoot(a, Abs(t.Value()), z) && Abs(t.Value()) > 0 && t.Value() == Signed(Abs(t.Value()), neg)
      invariant t.d == old(t.d) || t.d == old(u.d) || fresh(t.d)
      invariant u.d == old(t.d) || u.d == old(u.d) || fresh(u.d)
      invariant fresh(v.d)
      decreases Abs(t.Value())
    {
      MpzGcd.SwapOwned(u, t);
      ghost var s := Abs(u.Value());
      RootStep(t, u, v, y, z, neg, a, s);
      NextIterate(a, s, z);
      AbovePositive(a, NewtonNext(a, s, z), z);
      var c := MpzGcd.CmpAbs(t, u);
      if c >= 0 {
        RootFromMagnitudes(s, a, neg, z);
        break;
      }
    }
  }

  // ------------------------------------------------------------------------ assembly

  /** The start of the iteration and the loops. */
  method RootOf(y: Mpz, z: Limb) returns (u: Mpz)
    requires y.Valid() && z > 0 && Abs(y.Value()) > 1 && (y.Value() < 0 ==> z % 2 == 1)
    ensures u.Valid() && fresh(u) && fresh(u.d) && IsRoot(u.Value(), y.Value(), z)
  {
    hide Val, Mpz.Value, Mpz.Mag, AboveRoot, IsRoot, Pow2;
    MpzGcd.SizeSign(y);
    u := new Mpz.Init();
    var bits := SizeInBase2(y);
    StartAbove(Abs(y.Value()), bits, z);
    var tb := bits / z + 1;
    var t := new Mpz.Init2(tb);
    MpzGcd.InitPower(t, tb);
    if z == 2 {
      SqrtLoop(t, u, y);
    } else {
      if y.size < 0 {
        Neg(t, t);
      }
      RootLoop(t, u, y, z, y.size < 0, Abs(y.Value()));
    }
  }

  lemma SmallRoot(y: int, z: nat)
    requires Abs(y) <= 1 && z > 0 && (y < 0 ==> z % 2 == 1)
    ensures IsRoot(y, y, z) && y - Pow(y, z) == 0
  {
    PowOne(z);
    PowPositive(2, z);
    PowMono(1, 2, z);
    PowMono(0, 1, z);
    PowSign(1, true, z);
    assert Pow(0, z) == 0 * Pow(0, z - 1);
  }

  /** mpz_rootrem: x (if wanted) is the truncated z-th root of y, r (if wanted) is y - x^z.
      False where the C code stops the program. */
  method RootRem(x: Mpz?, r: Mpz?, y: Mpz, z: Limb) returns (ok: bool, ghost X: int)
    requires y.Valid() && (x != null ==> x.Valid() && Separate(x, y)) && (r != null ==> r.Valid() && Separate(r, y))
    requires Apart(x, r)
    modifies Footprint(x), Footprint(r)
    ensures ok == (z != 0 && (old(y.Value()) >= 0 || z % 2 == 1))
    ensures ok ==> IsRoot(X, old(y.Value()), z)
    ensures ok && x != null ==> x.Valid() && x.Value() == X
    ensures ok && r != null ==> r.Valid() && r.Value() == old(y.Value()) - Pow(X, z)
  {
    hide Val, Mpz.Value, Mpz.Mag, IsRoot, Pow;
    MpzGcd.SizeSign(y);
    if (y.size < 0 && z % 2 == 0) || z == 0 {
      return false, 0;
    }
    ok, X := true, y.Value();
    var c := CmpAbsUi(y, 1);
    if c <= 0 {
      SmallRoot(X, z);
      if x != null {
        Set(x, y);
      }
      if r != null {
        SetZero(r);
      }
      return;
    }
    var u := RootOf(y, z);
    X := u.Value();
    if r != null {
      Remainder(r, y, u, z);
    }
    MpzGcd.PutSwap(x, u);
  }

  /** r := y - u^z */
  method Remainder(r: Mpz, y: Mpz, u: Mpz, z: Limb)
    requires r.Valid() && y.Valid() && u.Valid() && Separate(r, y) && r != u && r.d != u.d && y != u && y.d != u.d
    modifies r, r.d
    ensures r.Valid() && r.Value() == old(y.Value()) - Pow(u.Value(), z) && u.Value() == old(u.Value())
    ensures r.d == old(r.d) || fresh(r.d)
  {
    hide Val, Mpz.Value, Mpz.Mag, Pow;
    var t := new Mpz.Init();
    PowUi(t, u, z);
    Sub(r, y, t);
  }
}
