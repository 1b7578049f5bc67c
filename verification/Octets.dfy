/** Integers as octet strings (bignum.c), and mpz_import as that file uses it: big-endian
    strings, unsigned or in two's complement. */
module Octets {
  import opened Limbs
  import opened Bits
  import opened MpzBase
  import opened MpnStr
  import MpzGcd
  import MpzPowm
  import MpzRoot
  import MpzShift
  import Mpn
  import MpnDiv

  const BYTE_BASE := 256

  /** The unsigned integer of a big-endian octet string. */
  function Unsigned(s: seq<Byte>): nat {
    BE(s, BYTE_BASE)
  }

  /** The two's-complement integer of a big-endian octet string. */
  function TwosComplement(s: seq<Byte>): int {
    Unsigned(s) - (if |s| > 0 && s[0] >= 128 then PowNat(BYTE_BASE, |s|) else 0)
  }

  lemma BaseIsPow2()
    ensures Pow2(8) == BYTE_BASE
  {
    Pow2Of32();
  }

  // ------------------------------------------------------------------------- mpz_import

  /** The bytes read so far: i whole limbs and a partial limb of the given number of bytes. */
  predicate Imported(r: seq<Limb>, limb: Limb, bytes: nat, t: seq<Byte>) {
    bytes < 4 && Packed(if bytes == 0 then r else r + [limb], 8 * bytes, 8, t) && (bytes == 0 ==> limb == 0)
  }

  lemma ImportedNext(r: seq<Limb>, limb: Limb, bytes: nat, t: seq<Byte>, d: Byte, limb': Limb)
    requires Imported(r, limb, bytes, t) && limb' == LimbOr(limb, Shl(d, 8 * bytes))
    ensures if bytes == 3 then Imported(r + [limb'], 0, 0, [d] + t) else Imported(r, limb', bytes + 1, [d] + t)
  {
    hide Packed, Shl, LimbOr;
    BaseIsPow2();
    if bytes == 0 {
      PackNew(r, 8, t, d);
      FirstByte(d);
    } else {
      var w := r + [limb];
      PackJoin(w, 8 * bytes, 8, t, d);
      assert w[..|w| - 1] == r;
    }
  }

  lemma FirstByte(d: Byte)
    ensures LimbOr(0, Shl(d, 0)) == d
  {
    assert Pow2(0) == 1;
    OrZero(d);
    OrCommutes(0, d);
  }

  /** The limb count that mpz_import reserves. */
  lemma ImportRoom(r: seq<Limb>, limb: Limb, bytes: nat, t: seq<Byte>, count: nat, rn: nat)
    requires Imported(r, limb, bytes, t) && |t| <= count && rn == (count + 3) / 4
    ensures 4 * |r| + bytes == |t| && |r| <= rn && (bytes > 0 ==> |r| < rn)
  {
  }

  lemma ImportedEnd(r: seq<Limb>, limb: Limb, bytes: nat, t: seq<Byte>)
    requires Imported(r, limb, bytes, t)
    ensures limb == 0 ==> Val(r) == BE(t, BYTE_BASE)
    ensures limb != 0 ==> Val(r + [limb]) == BE(t, BYTE_BASE)
  {
    hide Val, BE, Pow2;
    BaseIsPow2();
    if bytes > 0 && limb == 0 {
      ValTrim(r + [limb], |r|);
      assert (r + [limb])[..|r|] == r;
    }
  }

  /** mpz_import with count octets, most significant first (nettle_mpz_from_octets). */
  method FromOctets(x: Mpz, count: nat, s: array<Byte>)
    requires x.Valid() && count <= s.Length
    modifies x, x.d
    ensures x.Valid() && x.Value() == Unsigned(s[..count]) && (x.d == old(x.d) || fresh(x.d))
  {
    hide Val, BE, Imported, LimbOr, Shl;
    EmptyValues();
    var rn := (count + 3) / 4;
    Grow(x, rn);
    var rp := x.d;
    var limb: Limb := 0;
    var bytes, i, k: nat := 0, 0, count;
    ImportStart();
    assert rp[..0] == [] && s[count..count] == [];
    while k > 0
      invariant 0 <= k <= count && bytes >= 0 && 0 <= i <= rn && x.d == rp
      invariant Imported(rp[..i], limb, bytes, s[k..count])
    {
      ghost var r, t := rp[..i], s[k..count];
      ImportRoom(r, limb, bytes, t, count, rn);
      k := k - 1;
      assert s[k..count] == [s[k]] + t;
      ghost var limb0, bytes0 := limb, bytes;
      limb := LimbOr(limb, Shl(s[k], bytes * 8));
      ImportedNext(r, limb0, bytes0, t, s[k], limb);
      bytes := bytes + 1;
      if bytes == 4 {
        ImportRoomFull(|t|, count, |r|, rn);
        rp[i] := limb;
        i := i + 1;
        bytes := 0;
        limb := 0;
        assert rp[..i] == r + [rp[i - 1]];
      }
    }
    ghost var t := s[0..count];
    assert t == s[..count];
    ImportRoom(rp[..i], limb, bytes, t, count, rn);
    ImportedEnd(rp[..i], limb, bytes, t);
    ghost var r := rp[..i];
    if limb != 0 {
      ImportedPartial(r, limb, bytes, t);
      rp[i] := limb;
      i := i + 1;
      assert rp[..i] == r + [limb];
    } else {
      i := Mpn.NormalizedSize(rp, i);
    }
    x.size := i;
    Stored(x, i, BE(t, BYTE_BASE));
  }

  lemma ImportStart()
    ensures Imported([], 0, 0, [])
  {
    PackedStart(8);
  }

  lemma ImportRoomFull(t: nat, count: nat, r: nat, rn: nat)
    requires 4 * r + 3 == t < count && rn == (count + 3) / 4
    ensures r < rn
  {
  }

  lemma ImportedPartial(r: seq<Limb>, limb: Limb, bytes: nat, t: seq<Byte>)
    requires Imported(r, limb, bytes, t) && limb != 0
    ensures bytes > 0
  {
  }

  // -------------------------------------------------------------- nettle_mpz_to_octets

  /** sign ^ d for the two signs the callers pass. */
  function SignedOctet(d: Byte, neg: bool): Byte {
    if neg then 255 - d else d
  }

  function SignedOctets(t: seq<Byte>, neg: bool): (r: seq<Byte>)
    ensures |r| == |t|
  {
    seq(|t|, i requires 0 <= i < |t| => SignedOctet(t[i], neg))
  }

  lemma SignedOctetsCons(d: Byte, t: seq<Byte>, neg: bool)
    ensures SignedOctets([d] + t, neg) == [SignedOctet(d, neg)] + SignedOctets(t, neg)
  {
  }

  /** `sign ^ (limb & 0xff)` */
  method OutputOctet(limb: Limb, sign: Byte) returns (o: Byte)
    requires sign in {0, 255}
    ensures o == SignedOctet(limb % 256, sign == 255)
  {
    hide Pow2, Bitwise;
    BaseIsPow2();
    AndMask(limb, 8);
    ByteXor(limb % 256, sign);
    o := LimbOp(Xor, sign, LimbAnd(limb, 255));
  }

  lemma ByteXor(d: Byte, sign: Byte)
    requires sign in {0, 255}
    ensures LimbOp(Xor, sign, d) == SignedOctet(d, sign == 255)
  {
    BaseIsPow2();
    if sign == 255 {
      XorOnes(d, 8);
    } else {
      XorZero(d);
    }
    XorCommutes(d, sign);
  }

  lemma {:induction false} XorCommutes(x: nat, y: nat)
    ensures Bitwise(Xor, x, y) == Bitwise(Xor, y, x)
    decreases x + y
  {
    if x > 0 || y > 0 {
      XorCommutes(x / 2, y / 2);
    }
  }

  /** A byte of the magnitude, from its limb. */
  lemma OctetOfValue(s: seq<Limb>, i: nat, j: nat, m: nat, limb: Limb)
    requires i < |s| && j < 4 && m == 4 * i + j && limb == s[i] / Pow2(8 * j)
    ensures limb % 256 == Quo(Val(s), PowNat1(BYTE_BASE, m)) % BYTE_BASE
    ensures limb / 256 == s[i] / Pow2(8 * (j + 1))
  {
    hide Val, Pow2, PowNat, Quo;
    BaseIsPow2();
    DigitOfValue(s, i, 8 * j, 8, m);
    TopLimbs(s[i..]);
    DigitInLimb(s[i], Val(s[i..][1..]), 8 * j, 8);
    Pow2Add(8 * j, 8);
    DivDiv(s[i], Pow2(8 * j), 256);
  }

  /** Beyond the limbs only zero digits are left. */
  lemma OctetBeyond(X: nat, size: nat, m: nat)
    requires X < PowB(size) && m >= 4 * size
    ensures 0 == Quo(X, PowNat1(BYTE_BASE, m)) % BYTE_BASE
  {
    hide Pow2, PowNat, PowB;
    BaseIsPow2();
    PowNatOfPow2(8, m);
    PowBIsPow2(size);
    Pow2Mono(32 * size, 8 * m);
    DivModUnique(X, PowNat1(BYTE_BASE, m), 0, X);
  }

  /** nettle_mpz_to_octets for a non-negative x: the low `length` octets, each xored with sign. */
  method ToOctets(length: nat, s: array<Byte>, x: Mpz, sign: Byte) returns (ghost t: seq<Byte>)
    requires x.Valid() && x.size >= 0 && length <= s.Length && sign in {0, 255}
    modifies s
    ensures |t| == length && LowDigits(x.Value(), BYTE_BASE, t) && s[..length] == SignedOctets(t, sign == 255)
  {
    hide Val, Pow2, PowNat, BE, LowDigits;
    ghost var u, X := x.d[..x.size], x.Value();
    var rest, i: nat := length, 0;
    t := [];
    LowDigitsStart(X, BYTE_BASE);
    assert s[length..length] == SignedOctets(t, sign == 255);
    while i < x.size
      invariant 0 <= i <= x.size && 0 <= rest <= length && |t| == length - rest
      invariant LowDigits(X, BYTE_BASE, t) && s[rest..length] == SignedOctets(t, sign == 255)
      invariant rest > 0 ==> |t| == 4 * i
    {
      rest, t := LimbOctets(rest, length, s, x.d[i], sign, u, i, t, X);
      i := i + 1;
    }
    while rest > 0
      invariant 0 <= rest <= length && |t| == length - rest && (rest > 0 ==> |t| >= 4 * x.size)
      invariant LowDigits(X, BYTE_BASE, t) && s[rest..length] == SignedOctets(t, sign == 255)
    {
      rest := rest - 1;
      ValBound(u);
      OctetBeyond(X, x.size, |t|);
      LowDigitsNext(X, BYTE_BASE, t, 0);
      SignedOctetsCons(0, t, sign == 255);
      s[rest] := sign;
      assert s[rest..length] == [sign] + SignedOctets(t, sign == 255);
      t := [0] + t;
    }
    assert s[0..length] == s[..length];
  }

  /** The inner loop: up to four octets of one limb. */
  method LimbOctets(rest0: nat, length: nat, s: array<Byte>, limb0: Limb, sign: Byte,
                    ghost u: seq<Limb>, ghost i: nat, ghost t0: seq<Byte>, ghost X: nat)
    returns (rest: nat, ghost t: seq<Byte>)
    requires rest0 <= length <= s.Length && sign in {0, 255} && i < |u| && limb0 == u[i] && X == Val(u)
    requires |t0| == length - rest0 && (rest0 > 0 ==> |t0| == 4 * i)
    requires LowDigits(X, BYTE_BASE, t0) && s[rest0..length] == SignedOctets(t0, sign == 255)
    modifies s
    ensures rest <= length && |t| == length - rest && (rest > 0 ==> |t| == 4 * (i + 1))
    ensures LowDigits(X, BYTE_BASE, t) && s[rest..length] == SignedOctets(t, sign == 255)
  {
    hide Val, Pow2, PowNat, BE, LowDigits;
    rest, t := rest0, t0;
    var limb, j: nat := limb0, 0;
    MpnDiv.Pow2Start();
    DivModUnique(limb0, 1, limb0, 0);
    while rest > 0 && j < 4
      invariant 0 <= j <= 4 && 0 <= rest <= length && |t| == length - rest
      invariant rest > 0 ==> |t| == 4 * i + j && limb == u[i] / Pow2(8 * j)
      invariant LowDigits(X, BYTE_BASE, t) && s[rest..length] == SignedOctets(t, sign == 255)
    {
      OctetOfValue(u, i, j, |t|, limb);
      rest := rest - 1;
      var o := OutputOctet(limb, sign);
      LowDigitsNext(X, BYTE_BASE, t, limb % 256);
      SignedOctetsCons(limb % 256, t, sign == 255);
      s[rest] := o;
      assert s[rest..length] == [o] + SignedOctets(t, sign == 255);
      t := [limb % 256] + t;
      limb := limb / 256;
      j := j + 1;
    }
  }

  // ------------------------------------------------------------------------ the sizes

  /** x fits in n octets as an unsigned number. */
  predicate FitsUnsigned(x: int, n: nat) {
    0 <= x < PowNat(BYTE_BASE, n)
  }

  /** x fits in n octets in two's complement. */
  predicate FitsSigned(x: int, n: nat) {
    n > 0 && -(Pow2(8 * n - 1) as int) <= x < Pow2(8 * n - 1)
  }

  /** mpz_com */
  method Com(r: Mpz, u: Mpz)
    requires r.Valid() && u.Valid() && Separate(r, u)
    modifies r, r.d
    ensures r.Valid() && r.Value() == -old(u.Value()) - 1 && (r.d == old(r.d) || fresh(r.d))
  {
    hide Val, Mpz.Value, Mpz.Mag;
    Neg(r, u);
    SubUi(r, r, 1);
  }

  /** nettle_mpz_sizeinbase_256_u: the least number of octets that holds x, and 1 for zero. */
  method SizeInBase256U(x: Mpz) returns (n: nat)
    requires x.Valid()
    ensures n > 0 && FitsUnsigned(Abs(x.Value()), n)
    ensures forall k: nat :: k > 0 && FitsUnsigned(Abs(x.Value()), k) ==> n <= k
  {
    hide Val, Mpz.Value, Mpz.Mag, FitsUnsigned, Pow2;
    var bits := MpzRoot.SizeInBase2(x);
    n := (bits + 7) / 8;
    ghost var X := Abs(x.Value());
    OctetSize(X, bits, n, n);
    forall k: nat | k > 0 && FitsUnsigned(X, k)
      ensures n <= k
    {
      OctetSize(X, bits, n, k);
    }
  }

  /** bits is the bit length of x (1 for zero). */
  predicate BitLength(x: nat, bits: nat) {
    bits > 0 && (if x == 0 then bits == 1 else Pow2(bits - 1) <= x < Pow2(bits))
  }

  lemma OctetSize(X: nat, bits: nat, n: nat, k: nat)
    requires BitLength(X, bits) && n == (bits + 7) / 8 && k > 0
    ensures FitsUnsigned(X, k) <==> n <= k
  {
    hide Pow2, PowNat;
    BaseIsPow2();
    PowNatOfPow2(8, k);
    if bits <= 8 * k {
      Pow2Mono(bits, 8 * k);
    } else {
      Pow2Mono(8 * k, bits - 1);
    }
  }

  /** nettle_mpz_sizeinbase_256_s: the least number of octets that holds x in two's complement. */
  method SizeInBase256S(x: Mpz) returns (n: nat)
    requires x.Valid()
    ensures forall k: nat :: FitsSigned(x.Value(), k) <==> n <= k
  {
    hide Val, Mpz.Value, Mpz.Mag, FitsSigned, Pow2;
    MpzGcd.SizeSign(x);
    ghost var X := x.Value();
    var bits;
    if x.size >= 0 {
      bits := MpzRoot.SizeInBase2(x);
    } else {
      var c := new Mpz.Init();
      Com(c, x);
      bits := MpzRoot.SizeInBase2(c);
    }
    n := 1 + bits / 8;
    forall k: nat
      ensures FitsSigned(X, k) <==> n <= k
    {
      SignedSize(X, bits, n, k);
    }
  }

  lemma SignedSize(x: int, bits: nat, n: nat, k: nat)
    requires BitLength(if x >= 0 then x else -x - 1, bits) && n == 1 + bits / 8
    ensures FitsSigned(x, k) <==> n <= k
  {
    hide Pow2;
    if k > 0 {
      if bits <= 8 * k - 1 {
        Pow2Mono(bits, 8 * k - 1);
      } else {
        Pow2Mono(8 * k - 1, bits - 1);
      }
    }
  }

  // --------------------------------------------------------------------- integers out

  lemma {:induction false} ComplementValue(t: seq<Byte>)
    ensures BE(SignedOctets(t, true), BYTE_BASE) == PowNat(BYTE_BASE, |t|) - 1 - BE(t, BYTE_BASE)
    ensures SignedOctets(t, false) == t
  {
    hide PowNat;
    if |t| == 0 {
      PowNatNext(BYTE_BASE, 0);
    } else {
      var n := |t| - 1;
      ComplementValue(t[..n]);
      PowNatNext(BYTE_BASE, n);
      assert SignedOctets(t, true)[..n] == SignedOctets(t[..n], true);
    }
  }

  /** nettle_mpz_get_str_256: x modulo 256^length, as octets; x must fit, as the assertions of
      the C code demand. */
  method GetStr256(length: nat, s: array<Byte>, x: Mpz)
    requires x.Valid() && length <= s.Length
    requires length == 0 ==> x.Value() == 0
    requires FitsUnsigned(if x.Value() >= 0 then x.Value() else -x.Value() - 1, length)
    modifies s
    ensures x.Value() >= 0 ==> Unsigned(s[..length]) == x.Value()
    ensures x.Value() < 0 ==> Unsigned(s[..length]) == PowNat(BYTE_BASE, length) + x.Value()
  {
    hide Val, Mpz.Value, Mpz.Mag, BE, PowNat, LowDigits;
    MpzGcd.SizeSign(x);
    ghost var X := x.Value();
    if length == 0 {
      EmptyBE(BYTE_BASE);
      assert s[..0] == [];
      return;
    }
    if x.size >= 0 {
      ghost var t := ToOctets(length, s, x, 0);
      LowDigitsEnd(X, BYTE_BASE, t);
      ComplementValue(t);
    } else {
      var c := new Mpz.Init();
      Com(c, x);
      MpzGcd.SizeSign(c);
      ghost var t := ToOctets(length, s, c, 255);
      LowDigitsEnd(-X - 1, BYTE_BASE, t);
      ComplementValue(t);
    }
  }

  // ---------------------------------------------------------------------- integers in

  /** nettle_mpz_set_str_256_s */
  method SetStr256S(x: Mpz, length: nat, s: array<Byte>)
    requires x.Valid() && length <= s.Length
    modifies x, x.d
    ensures x.Valid() && x.Value() == TwosComplement(s[..length]) && (x.d == old(x.d) || fresh(x.d))
  {
    hide Val, Mpz.Value, Mpz.Mag, BE, PowNat, Pow2;
    if length == 0 {
      EmptyBE(BYTE_BASE);
      assert s[..0] == [];
      SetUi(x, 0);
      return;
    }
    FromOctets(x, length, s);
    TopBit(s[0]);
    assert s[..length][0] == s[0];
    if LimbAnd(s[0], 0x80) != 0 {
      var t := new Mpz.Init();
      SetUi(t, 1);
      MpzShift.Mul2Exp(t, t, length * 8);
      BaseIsPow2();
      PowNatOfPow2(8, length);
      Sub(x, x, t);
    }
  }

  lemma TopBit(d: Byte)
    ensures LimbAnd(d, 0x80) != 0 <==> d >= 128
  {
    BitSeven(d);
  }

  lemma BitSeven(d: Byte)
    ensures LimbAnd(d, 0x80) == if d / 128 % 2 == 1 then 128 else 0
  {
    assert Pow2(7) == 128 by { Pow2Small(); }
    MpzPowm.AndBit(d, 7);
  }

  // ---------------------------------------------------------------------- round trips

  /** Equally long octet strings of the same unsigned value are equal. */
  lemma {:induction false} UnsignedInjective(s: seq<Byte>, t: seq<Byte>)
    requires |s| == |t| && Unsigned(s) == Unsigned(t)
    ensures s == t
  {
    if |s| > 0 {
      var n := |s| - 1;
      DivModUnique(Unsigned(s), BYTE_BASE, Unsigned(s[..n]), s[n]);
      DivModUnique(Unsigned(t), BYTE_BASE, Unsigned(t[..n]), t[n]);
      UnsignedInjective(s[..n], t[..n]);
      assert s == s[..n] + [s[n]] && t == t[..n] + [t[n]];
    }
  }

  lemma HalfPower(n: nat)
    requires n > 0
    ensures PowNat(BYTE_BASE, n) == 2 * Pow2(8 * n - 1) == 256 * PowNat(BYTE_BASE, n - 1)
  {
    hide Pow2, PowNat;
    BaseIsPow2();
    PowNatOfPow2(8, n);
    MpzShift.Pow2Next(8 * n - 1);
    PowNatNext(BYTE_BASE, n - 1);
  }

  /** The top bit of an octet string says in which half its value lies. */
  lemma TopHalf(s: seq<Byte>)
    requires |s| > 0
    ensures s[0] >= 128 <==> Unsigned(s) >= Pow2(8 * |s| - 1)
  {
    hide BE, PowNat, Pow2;
    var n := |s| - 1;
    HalfPower(|s|);
    assert s == [s[0]] + s[1..];
    BECons(s[0], s[1..], BYTE_BASE);
    BEBound(s[1..], BYTE_BASE);
    if s[0] >= 128 {
      MulMono(128, s[0], PowNat(BYTE_BASE, n));
    } else {
      MulMono(s[0], 127, PowNat(BYTE_BASE, n));
    }
  }

  /** The octets that nettle_mpz_get_str_256 writes for a number that fits the signed format
      denote that number in two's complement. */
  lemma SignedOctetsDenote(s: seq<Byte>, x: int)
    requires FitsSigned(x, |s|) && Unsigned(s) == (if x >= 0 then x else PowNat(BYTE_BASE, |s|) + x)
    ensures TwosComplement(s) == x
  {
    hide BE, PowNat, Pow2;
    TopHalf(s);
    HalfPower(|s|);
  }

  /** Two's complement covers exactly the numbers that fit, and no other string has the value. */
  lemma TwosComplementInjective(s: seq<Byte>, t: seq<Byte>)
    requires |s| == |t| && TwosComplement(s) == TwosComplement(t)
    ensures s == t
    ensures |s| > 0 ==> FitsSigned(TwosComplement(s), |s|)
  {
    hide BE, PowNat, Pow2;
    if |s| > 0 {
      TopHalf(s);
      TopHalf(t);
      HalfPower(|s|);
      BEBound(s, BYTE_BASE);
      BEBound(t, BYTE_BASE);
    }
    UnsignedInjective(s, t);
  }

  /** Writing a number that fits in two's complement and reading it back. */
  method SignedRoundTrip(x: Mpz, y: Mpz, length: nat, s: array<Byte>)
    requires x.Valid() && y.Valid() && length <= s.Length && x != y && x.d != y.d
    requires FitsSigned(x.Value(), length)
    modifies y, y.d, s
    ensures y.Valid() && y.Value() == x.Value() == old(x.Value())
  {
    hide Val, Mpz.Value, Mpz.Mag, BE, PowNat, Pow2;
    ghost var X := x.Value();
    HalfPower(length);
    GetStr256(length, s, x);
    SignedOctetsDenote(s[..length], X);
    SetStr256S(y, length, s);
  }

  /** Reading octets as an unsigned number and writing it to the same length. */
  method OctetRoundTrip(x: Mpz, length: nat, s: array<Byte>, out: array<Byte>)
    requires x.Valid() && length <= s.Length && length <= out.Length && s != out
    modifies x, x.d, out
    ensures out[..length] == s[..length]
  {
    hide Val, Mpz.Value, Mpz.Mag, BE, PowNat;
    BEBound(s[..length], BYTE_BASE);
    if length == 0 {
      EmptyBE(BYTE_BASE);
      assert s[..0] == [];
    }
    FromOctets(x, length, s);
    GetStr256(length, out, x);
    UnsignedInjective(out[..length], s[..length]);
  }
}
