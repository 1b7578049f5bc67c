/** Radix conversion of limb vectors (mini-gmp.c, MPN base conversion): digits out, digits in,
    on the bit-packing path of the power-of-two bases and on the chunked path of the others. */
module MpnStr {
  import opened Limbs
  import opened Bits
  import opened Mpn
  import opened MpnDiv
  import opened Invert
  import MpzShift

  // -------------------------------------------------------------- values of digit strings

  /** The number a digit string stands for, least significant digit first. */
  function LE(s: seq<Byte>, b: nat): nat {
    if |s| == 0 then 0 else s[0] + b * LE(s[1..], b)
  }

  /** The number a digit string stands for, most significant digit first. */
  function BE(s: seq<Byte>, b: nat): nat {
    if |s| == 0 then 0 else BE(s[..|s| - 1], b) * b + s[|s| - 1]
  }

  predicate Digits(s: seq<Byte>, b: nat) {
    forall i :: 0 <= i < |s| ==> s[i] < b
  }

  function Reverse(s: seq<Byte>): (r: seq<Byte>)
    ensures |r| == |s|
    ensures forall i :: 0 <= i < |s| ==> r[i] == s[|s| - 1 - i]
  {
    if |s| == 0 then [] else Reverse(s[1..]) + [s[0]]
  }

  lemma {:induction false} ReverseValue(s: seq<Byte>, b: nat)
    ensures BE(Reverse(s), b) == LE(s, b)
  {
    if |s| > 0 {
      ReverseValue(s[1..], b);
      assert Reverse(s)[..|s| - 1] == Reverse(s[1..]);
    }
  }

  lemma {:induction false} LEAppend(s: seq<Byte>, t: seq<Byte>, b: nat)
    ensures LE(s + t, b) == LE(s, b) + PowNat(b, |s|) * LE(t, b)
  {
    hide PowNat;
    PowNatNext(b, 0);
    if |s| == 0 {
      assert s + t == t;
    } else {
      LEAppend(s[1..], t, b);
      assert (s + t)[1..] == s[1..] + t;
      PowNatNext(b, |s| - 1);
      LEStep(s[0], b, LE(s[1..], b), PowNat(b, |s| - 1), LE(t, b));
    }
  }

  lemma LEStep(d: int, b: int, x: int, p: int, y: int)
    ensures d + b * (x + p * y) == d + b * x + b * p * y
  {
  }

  lemma {:induction false} LEZeros(s: seq<Byte>, b: nat)
    requires forall i :: 0 <= i < |s| ==> s[i] == 0
    ensures LE(s, b) == 0
  {
    if |s| > 0 {
      LEZeros(s[1..], b);
    }
  }

  lemma BESnoc(s: seq<Byte>, d: Byte, b: nat)
    ensures BE(s + [d], b) == BE(s, b) * b + d
  {
    assert (s + [d])[..|s|] == s;
  }

  lemma {:induction false} BECons(d: Byte, s: seq<Byte>, b: nat)
    ensures BE([d] + s, b) == d * PowNat(b, |s|) + BE(s, b)
  {
    if |s| == 0 {
      assert ([d] + s)[..0] == [] && [d] + s == [d];
    } else {
      hide PowNat, BE;
      var s', x := s[..|s| - 1], s[|s| - 1];
      BECons(d, s', b);
      BESnoc([d] + s', x, b);
      BESnoc(s', x, b);
      assert [d] + s == [d] + s' + [x] && s == s' + [x];
      PowNatNext(b, |s'|);
      ConsStep(d, PowNat(b, |s'|), BE(s', b), b);
    }
  }

  lemma ConsStep(d: int, p: int, x: int, b: int)
    ensures (d * p + x) * b == d * (b * p) + x * b
  {
  }

  lemma {:induction false} BEAppend(s: seq<Byte>, t: seq<Byte>, b: nat)
    ensures BE(s + t, b) == BE(s, b) * PowNat(b, |t|) + BE(t, b)
  {
    if |t| == 0 {
      assert s + t == s;
    } else {
      var t' := t[..|t| - 1];
      BEAppend(s, t', b);
      assert (s + t)[..|s + t| - 1] == s + t';
      assert PowNat(b, |t|) == b * PowNat(b, |t'|);
      AppendStep(BE(s, b), PowNat(b, |t'|), BE(t', b), b);
    }
  }

  lemma AppendStep(x: int, p: int, y: int, b: int)
    ensures (x * p + y) * b == x * (b * p) + y * b
  {
    assert x * p * b == x * (b * p);
  }

  lemma {:induction false} BEBound(s: seq<Byte>, b: nat)
    requires Digits(s, b) && b > 0
    ensures BE(s, b) < PowNat(b, |s|)
  {
    hide PowNat;
    if |s| > 0 {
      var s' := s[..|s| - 1];
      BEBound(s', b);
      MulMono(BE(s', b) + 1, PowNat(b, |s'|), b);
      assert (BE(s', b) + 1) * b == BE(s', b) * b + b;
      assert PowNat(b, |s|) == b * PowNat(b, |s'|);
    }
  }

  lemma BELower(s: seq<Byte>, b: nat)
    requires |s| > 0 && s[0] != 0
    ensures BE(s, b) >= PowNat(b, |s| - 1)
  {
    hide PowNat, BE;
    assert s == [s[0]] + s[1..];
    BECons(s[0], s[1..], b);
    MulMono(1, s[0], PowNat(b, |s| - 1));
  }

  lemma PowNatMono(b: nat, i: nat, j: nat)
    requires i <= j && b > 0
    ensures PowNat(b, i) <= PowNat(b, j)
    decreases j
  {
    hide PowNat;
    if i < j {
      PowNatMono(b, i, j - 1);
      MulMono(1, b, PowNat(b, j - 1));
      assert PowNat(b, j) == b * PowNat(b, j - 1);
    }
  }

  /** Digit strings without leading zeros are determined by their value. */
  lemma {:induction false} DigitsUnique(s: seq<Byte>, t: seq<Byte>, b: nat)
    requires b > 1 && Digits(s, b) && Digits(t, b) && BE(s, b) == BE(t, b)
    requires (|s| > 0 ==> s[0] != 0) && (|t| > 0 ==> t[0] != 0)
    ensures s == t
    decreases |s|
  {
    BEBound(s, b);
    BEBound(t, b);
    if |s| > 0 { BELower(s, b); }
    if |t| > 0 { BELower(t, b); }
    if |s| < |t| { PowNatMono(b, |s|, |t| - 1); }
    if |t| < |s| { PowNatMono(b, |t|, |s| - 1); }
    if |s| > 0 {
      var n := |s| - 1;
      DivModUnique(BE(s, b), b, BE(s[..n], b), s[n]);
      DivModUnique(BE(t, b), b, BE(t[..n], b), t[n]);
      DigitsUnique(s[..n], t[..n], b);
      assert s == s[..n] + [s[n]] && t == t[..n] + [t[n]];
    }
  }

  // ----------------------------------------------------------------- bases and chunks

  /** mpn_base_power_of_two_p */
  function BasePowerOfTwo(b: nat): (bits: nat)
    ensures bits <= 8 && (bits > 0 ==> b == Pow2(bits))
  {
    Pow2Small();
    if b == 2 then 1 else if b == 4 then 2 else if b == 8 then 3 else if b == 16 then 4
    else if b == 32 then 5 else if b == 64 then 6 else if b == 128 then 7 else if b == 256 then 8
    else 0
  }

  lemma Pow2Small()
    ensures Pow2(0) == 1 && Pow2(1) == 2 && Pow2(2) == 4 && Pow2(3) == 8 && Pow2(4) == 16 && Pow2(5) == 32
    ensures Pow2(6) == 64 && Pow2(7) == 128 && Pow2(8) == 256
  {
  }

  datatype BaseInfo = BaseInfo(exp: nat, bb: Limb)

  /** bb is the largest power of b that fits a limb. */
  predicate InfoFor(info: BaseInfo, b: nat) {
    info.exp > 0 && info.bb == PowNat(b, info.exp) && info.bb * b >= B
  }

  /** mpn_get_base_info */
  method GetBaseInfo(b: Limb) returns (info: BaseInfo)
    requires b >= 2
    ensures InfoFor(info, b)
  {
    hide PowNat;
    var m := (B - 1) / b;
    var exp, p := 1, b;
    PowNatNext(b, 0);
    while p <= m
      invariant exp > 0 && 0 < p < B && p == PowNat(b, exp)
      decreases B - p
    {
      LargestQuotient(p, b);
      PowNatNext(b, exp);
      p := p * b % B;
      exp := exp + 1;
    }
    LargestQuotient(p, b);
    info := BaseInfo(exp, p);
  }

  lemma PowNatNext(b: nat, e: nat)
    ensures PowNat(b, e + 1) == b * PowNat(b, e) && PowNat(b, 0) == 1
  {
  }

  lemma LargestQuotient(p: nat, b: nat)
    requires p > 0 && 2 <= b < B
    ensures p <= (B - 1) / b <==> p * b < B
    ensures p * b == b * p && p * b > p
  {
    var m := (B - 1) / b;
    DivModFacts(B - 1, b);
    assert (m + 1) * b == m * b + b;
    if p <= m { MulMono(p, m, b); } else { MulMono(m + 1, p, b); }
    MulMono(2, b, p);
  }

  /** mpn_limb_size_in_base_2 */
  method LimbSizeInBase2(u: Limb) returns (n: nat)
    requires u > 0
    ensures 0 < n <= LIMB_BITS && Pow2(n - 1) <= u < Pow2(n)
  {
    hide Pow2;
    var shift := Clz(u);
    n := LIMB_BITS - shift;
    SizeOfShifted(u, shift);
  }

  lemma SizeOfShifted(u: Limb, c: nat)
    requires c < LIMB_BITS && HIGHBIT <= u * Pow2(c) < B
    ensures Pow2(31 - c) <= u < Pow2(32 - c)
  {
    hide Pow2;
    Pow2Of32();
    Pow2Add(31 - c, c);
    Pow2Add(32 - c, c);
    if u < Pow2(31 - c) { MulStrict(u, Pow2(31 - c), Pow2(c)); }
    if u >= Pow2(32 - c) { MulMono(Pow2(32 - c), u, Pow2(c)); }
  }

  lemma BitsOfLimbs(s: seq<Limb>, top: nat)
    requires |s| > 0 && 0 < top && Pow2(top - 1) <= s[|s| - 1] < Pow2(top)
    ensures Pow2((|s| - 1) * LIMB_BITS + top - 1) <= Val(s) < Pow2((|s| - 1) * LIMB_BITS + top)
  {
    hide Val, Pow2, PowB;
    var n := |s| - 1;
    var P, x: nat := PowB(n), s[n];
    ValPrefixNext(s, n);
    assert s[..n + 1] == s;
    ValBound(s[..n]);
    ShiftIsMul(x, n);
    MpzShift.Pow2Limbs(n, top - 1);
    MpzShift.Pow2Limbs(n, top);
    MulMono(Pow2(top - 1), x, P);
    MulMono(x + 1, Pow2(top), P);
    assert (x + 1) * P == x * P + P;
  }

  // ---------------------------------------------------------------- get_str, by bits

  lemma DigitInLimb(x: nat, H: nat, sh: nat, bits: nat)
    requires sh + bits <= 32
    ensures (x + B * H) / Pow2(sh) % Pow2(bits) == x / Pow2(sh) % Pow2(bits)
  {
    hide Pow2;
    var p, q, r := Pow2(sh), Pow2(bits), Pow2(32 - sh - bits);
    Pow2Of32();
    Pow2Add(sh, bits);
    Pow2Add(sh + bits, 32 - sh - bits);
    InLimbProducts(H, p, q, r);
    QuotientAcross(x, H, p, q * r);
    ModAddMultiple(x / p, r * H, q);
  }

  lemma InLimbProducts(H: int, p: int, q: int, r: int)
    requires p * q * r == B
    ensures p * (q * r) * H == B * H && q * r * H == (r * H) * q
  {
    assert p * (q * r) == p * q * r;
  }

  /** (x + p*m*H) / p == x/p + m*H */
  lemma QuotientAcross(x: nat, H: nat, p: nat, m: nat)
    requires p > 0
    ensures (x + p * m * H) / p == x / p + m * H
  {
    DivModFacts(x, p);
    AcrossProducts(x / p, H, p, m);
    DivModUnique(x + p * m * H, p, x / p + m * H, x % p);
  }

  lemma AcrossProducts(k: int, H: int, p: int, m: int)
    ensures (k + m * H) * p == k * p + p * m * H
  {
    assert m * H * p == p * m * H;
  }

  lemma DigitAcross(x: nat, y: nat, H: nat, sh: nat, bits: nat)
    requires sh < 32 <= sh + bits && bits <= 32
    ensures (x + B * (y + B * H)) / Pow2(sh) % Pow2(bits) == (x / Pow2(sh) + Pow2(32 - sh) * y) % Pow2(bits)
  {
    hide Pow2;
    var p, m, q, k := Pow2(sh), Pow2(32 - sh), Pow2(bits), Pow2(32 - bits);
    Pow2Of32();
    Pow2Add(sh, 32 - sh);
    Pow2Add(bits, 32 - bits);
    QuotientAcross(x, y + B * H, p, m);
    AcrossDigits(y, H, m, q, k);
    ModAddMultiple(x / p + m * y, m * k * H, q);
  }

  lemma AcrossDigits(y: int, H: int, m: int, q: int, k: int)
    requires q * k == B
    ensures m * (y + B * H) == m * y + m * k * H * q
  {
    var t := q * k * H;
    assert m * (y + t) == m * y + m * t;
    assert m * t == m * k * H * q;
  }

  lemma {:induction false} PowNatOfPow2(bits: nat, m: nat)
    ensures PowNat(Pow2(bits), m) == Pow2(bits * m)
  {
    hide Pow2, PowNat;
    if m > 0 {
      PowNatOfPow2(bits, m - 1);
      PowNatNext(Pow2(bits), m - 1);
      assert bits * m == bits + bits * (m - 1);
      Pow2Add(bits, bits * (m - 1));
    } else {
      PowNatNext(Pow2(bits), 0);
      assert bits * 0 == 0;
      Pow2Start();
    }
  }

  lemma MaskByte(d: nat, bits: nat)
    requires d < 256 && 0 < bits <= 8
    ensures 0 < Pow2(bits) <= 256 && LimbAnd(d, Pow2(bits) - 1) == d % Pow2(bits) < 256
  {
    hide Pow2, Bitwise;
    Pow2Of32();
    Pow2Mono(bits, 8);
    AndMask(d, bits);
  }

  /** Masking after the truncation to a byte is masking. */
  lemma MaskedByte(s: nat, bits: nat)
    requires bits <= 8
    ensures s % 256 % Pow2(bits) == s % Pow2(bits)
  {
    hide Pow2;
    var q, r := Pow2(bits), Pow2(8 - bits);
    Pow2Of32();
    Pow2Add(bits, 8 - bits);
    var t := s / 256;
    assert s == s % 256 + t * r * q by { assert t * r * q == t * (q * r); }
    ModAddMultiple(s % 256, t * r, q);
  }

  /** The bits of the next limb join the digit above those of the current one. */
  lemma JoinedDigit(a: Limb, y: Limb, k: nat, bits: nat)
    requires k <= bits <= 8 && a < Pow2(k)
    ensures a % 256 == a
    ensures LimbOr(a, Shl(y, k)) % 256 % Pow2(bits) == (a + Pow2(k) * y) % Pow2(bits)
  {
    hide Pow2, LimbOr;
    Pow2Of32();
    Pow2Mono(k, 8);
    var p, q, m, r := Pow2(k), Pow2(bits), Pow2(32 - k), Pow2(32 - bits);
    Pow2Add(k, 32 - k);
    Pow2Add(bits, 32 - bits);
    var s := y * p % B;
    var t := WrappedShift(y, p, m, q, r);
    LimbOrCommutes(a, s);
    LimbOrDisjoint(s, a, k);
    MaskedByte(a + s, bits);
    ModAddMultiple(a + s, t * r, q);
  }

  /** A limb shifted left by wrapping multiplication. */
  lemma WrappedShift(y: Limb, p: nat, m: nat, q: nat, r: nat) returns (t: int)
    requires p > 0 && p * m == B && q * r == B
    ensures y * p % B % p == 0 && p * y == y * p % B + t * r * q
  {
    t := y * p / B;
    var s := y * p % B;
    DivModFacts(y * p, B);
    WrappedProducts(t, p, m, q, r);
    assert s == (y - t * m) * p by { Distribute(y, 0 - t * m, p); }
    DivModUnique(s, p, y - t * m, 0);
  }

  lemma WrappedProducts(t: int, p: int, m: int, q: int, r: int)
    requires p * m == B && q * r == B
    ensures t * B == t * m * p && t * B == t * r * q
    ensures (0 - t * m) * p == 0 - t * B
  {
    assert t * (p * m) == t * m * p && t * (q * r) == t * r * q;
  }

  /** The body of the mpn_get_str_bits loop: the next digit and the position behind it. */
  method NextDigit(up: array<Limb>, un: nat, i: nat, shift: nat, bits: nat)
    returns (digit: Byte, i': nat, shift': nat)
    requires i < un <= up.Length && shift < LIMB_BITS && 0 < bits <= 8
    ensures digit == Val(up[i..un]) / Pow2(shift) % Pow2(bits)
    ensures i' < un ==> shift' < LIMB_BITS && 32 * i' + shift' == 32 * i + shift + bits
    ensures i' == un ==> 32 * un <= 32 * i + shift + bits
    ensures i' <= un
  {
    hide Pow2, Val, LimbOr, LimbAnd;
    ghost var s := up[i..un];
    var x := up[i];
    TopLimbs(s);
    var d: Byte := Shr(x, shift) % 256;
    i', shift' := i, shift + bits;
    if shift' >= LIMB_BITS {
      ShrBelow(x, shift);
      i' := i' + 1;
      if i' < un {
        shift' := shift' - LIMB_BITS;
        DigitAcross(x, up[i'], Val(s[2..]), shift, bits);
        JoinedDigit(Shr(x, shift), up[i'], bits - shift', bits);
        d := LimbOr(d, Shl(up[i'], bits - shift')) % 256;
      } else {
        assert s[1..] == [];
        EmptyValues();
        MaskedByte(Shr(x, shift), bits);
      }
    } else {
      DigitInLimb(x, Val(s[1..]), shift, bits);
      MaskedByte(Shr(x, shift), bits);
    }
    MaskByte(d, bits);
    SmallMask(bits);
    digit := LimbAnd(d, Shl(1, bits) - 1);
  }

  lemma SmallMask(bits: nat)
    requires bits <= 8
    ensures Shl(1, bits) == Pow2(bits) >= 1
  {
    hide Pow2;
    Pow2Of32();
    Pow2Mono(bits, 8);
  }

  lemma TopLimbs(s: seq<Limb>)
    requires |s| > 0
    ensures Val(s) == s[0] + B * Val(s[1..])
    ensures |s| > 1 ==> Val(s) == s[0] + B * (s[1] + B * Val(s[2..]))
  {
    if |s| > 1 {
      assert s[1..][0] == s[1] && s[1..][1..] == s[2..];
    }
  }

  lemma ShrBelow(x: Limb, sh: nat)
    requires sh < LIMB_BITS
    ensures Shr(x, sh) < Pow2(32 - sh)
  {
    hide Pow2;
    Pow2Of32();
    Pow2Add(sh, 32 - sh);
    DivModFacts(x, Pow2(sh));
    if x / Pow2(sh) >= Pow2(32 - sh) {
      MulMono(Pow2(32 - sh), x / Pow2(sh), Pow2(sh));
    }
  }

  /** The digits found so far, below the quotient that is still to be written. */
  predicate LowDigits(V: nat, b: nat, t: seq<Byte>) {
    b > 0 && Digits(t, b) && V == BE(t, b) + PowNat(b, |t|) * Quo(V, PowNat1(b, |t|))
  }

  function PowNat1(b: nat, m: nat): (p: nat)
    requires b > 0
    ensures p == PowNat(b, m) && p > 0
  {
    PowPositive(b, m);
    PowNat(b, m)
  }

  lemma LowDigitsStart(V: nat, b: nat)
    requires b > 0
    ensures LowDigits(V, b, [])
  {
    PowNatNext(b, 0);
    DivModUnique(V, 1, V, 0);
  }

  lemma LowDigitsNext(V: nat, b: nat, t: seq<Byte>, d: Byte)
    requires LowDigits(V, b, t) && d == Quo(V, PowNat1(b, |t|)) % b
    ensures LowDigits(V, b, [d] + t)
  {
    hide PowNat, BE, Quo;
    var m := |t|;
    var p, X := PowNat1(b, m), Quo(V, PowNat1(b, m));
    BECons(d, t, b);
    PowNatNext(b, m);
    DivModFacts(X, b);
    DivDiv(V, p, b);
    NextQuotient(V, b, p, X, BE(t, b), d);
  }

  lemma NextQuotient(V: nat, b: nat, p: nat, X: nat, t: nat, d: nat)
    requires b > 0 && p > 0 && V == t + p * X && d == X % b && X / b == V / (p * b)
    ensures V == d * p + t + (b * p) * (V / (b * p))
  {
    var Y := X / b;
    assert p * (Y * b + d) == (b * p) * Y + d * p;
    DivModFacts(X, b);
    assert p * b == b * p;
  }

  /** When no quotient is left, the digits are the number and the first one is not zero. */
  lemma LowDigitsEnd(V: nat, b: nat, t: seq<Byte>)
    requires LowDigits(V, b, t) && V < PowNat(b, |t|)
    ensures BE(t, b) == V
    ensures |t| > 0 && V >= PowNat(b, |t| - 1) ==> t[0] != 0
  {
    hide PowNat, BE;
    DivModUnique(V, PowNat1(b, |t|), 0, V);
    assert PowNat(b, |t|) * 0 == 0;
    if |t| > 0 && t[0] == 0 {
      assert t == [t[0]] + t[1..];
      BECons(t[0], t[1..], b);
      BEBound(t[1..], b);
    }
  }

  /** The digit count of mpn_get_str_bits. */
  lemma DigitCount(V: nat, nbits: nat, bits: nat, sn: nat)
    requires 0 < bits && 0 < nbits && Pow2(nbits - 1) <= V < Pow2(nbits) && sn == (nbits + bits - 1) / bits
    ensures sn > 0 && PowNat(Pow2(bits), sn - 1) <= V < PowNat(Pow2(bits), sn)
    ensures Position(bits, sn - 1) < nbits <= Position(bits, sn) && Position(bits, 0) == 0
  {
    hide Pow2, PowNat;
    DivModFacts(nbits + bits - 1, bits);
    assert bits * (sn - 1) == sn * bits - bits;
    if sn <= 0 { MulMono(sn, 0, bits); }
    PowNatOfPow2(bits, sn);
    PowNatOfPow2(bits, sn - 1);
    Pow2Mono(nbits, bits * sn);
    Pow2Mono(bits * (sn - 1), nbits - 1);
  }

  /** The bit position of a digit. */
  function Position(bits: nat, m: nat): (p: nat) {
    MulNonNeg(bits, m);
    bits * m
  }

  /** The digit at position m, from the limbs. */
  lemma DigitOfValue(s: seq<Limb>, i: nat, shift: nat, bits: nat, m: nat)
    requires i < |s| && shift < LIMB_BITS && 32 * i + shift == Position(bits, m)
    ensures Quo(Val(s), PowNat1(Pow2(bits), m)) == Val(s[i..]) / Pow2(shift)
  {
    hide Pow2, Val, PowNat;
    MpzShift.SplitByBits(s, i, shift);
    PowNatOfPow2(bits, m);
  }

  predicate DigitsOf(t: seq<Byte>, b: nat, V: nat) {
    Digits(t, b) && BE(t, b) == V && |t| > 0 && t[0] != 0
  }

  /** mpn_get_str_bits */
  method GetStrBits(sp: array<Byte>, bits: nat, up: array<Limb>, un: nat) returns (sn: nat)
    requires 0 < bits <= 8 && 0 < un <= up.Length && up[un - 1] != 0
    requires Val(up[..un]) < PowNat(Pow2(bits), sp.Length)
    modifies sp
    ensures sn <= sp.Length && DigitsOf(sp[..sn], Pow2(bits), Val(up[..un]))
  {
    hide Pow2, Val, PowNat, BE, LowDigits, Position;
    var top := LimbSizeInBase2(up[un - 1]);
    ghost var u, b := up[..un], Pow2(bits);
    ghost var V := Val(u);
    BitsOfLimbs(u, top);
    var nbits := (un - 1) * LIMB_BITS + top;
    sn := (nbits + bits - 1) / bits;
    DigitCount(V, nbits, bits, sn);
    if sn > sp.Length { PowNatMono(b, sp.Length, sn - 1); }
    var i: nat, j: nat, shift: nat := 0, sn, 0;
    LowDigitsStart(V, b);
    assert sp[sn..sn] == [];
    while j > 0
      invariant 0 <= j <= sn
      invariant j > 0 ==> i < un && shift < LIMB_BITS && 32 * i + shift == Position(bits, sn - j)
      invariant LowDigits(V, b, sp[j..sn])
    {
      j := j - 1;
      ghost var t := sp[j + 1..sn];
      var digit;
      DigitOfValue(u, i, shift, bits, |t|);
      assert u[i..] == up[i..un];
      DigitPosition(bits, |t|, sn, nbits, un);
      digit, i, shift := NextDigit(up, un, i, shift, bits);
      LowDigitsNext(V, b, t, digit);
      sp[j] := digit;
      assert sp[j..sn] == [digit] + t;
    }
    LowDigitsEnd(V, b, sp[0..sn]);
    LowDigitsAre(V, b, sp[0..sn]);
    assert sp[0..sn] == sp[..sn];
  }

  lemma LowDigitsAre(V: nat, b: nat, t: seq<Byte>)
    requires LowDigits(V, b, t)
    ensures Digits(t, b)
  {
  }

  /** Only after the last digit does the position pass the last limb. */
  lemma DigitPosition(bits: nat, m: nat, sn: nat, nbits: nat, un: nat)
    requires m < sn && Position(bits, sn - 1) < nbits <= 32 * un
    ensures Position(bits, m + 1) == Position(bits, m) + bits
    ensures m + 1 < sn ==> Position(bits, m) + bits < 32 * un
  {
    assert bits * (m + 1) == bits * m + bits;
    if m + 1 < sn { MulMono(m + 1, sn - 1, bits); }
  }

  // ------------------------------------------------------------- get_str, other bases

  /** One digit of a limb: division by the normalised base. */
  method LimbDigit(w: Limb, binv: DivInverse, ghost b: nat) returns (q: Limb, r: Limb)
    requires Inverse1(binv, b) && binv.shift > 0
    ensures w == q * b + r && r < b
  {
    hide Pow2, IsInverse2by1, Shr, Shl;
    DivisorAboveShift(binv, b);
    Inverse1Positive(binv, b);
    ShlShr(w, binv.shift);
    var h, l := Shr(w, LIMB_BITS - binv.shift), Shl(w, binv.shift);
    q, r := UdivQrnndPreinv(h, l, binv.d1, binv.di);
    Unnormalize(w, b, Pow2(binv.shift), q, r);
    ShrIsDiv(r, binv.shift);
    r := Shr(r, binv.shift);
  }

  lemma LESnoc(t: seq<Byte>, d: Byte, b: nat)
    ensures LE(t + [d], b) == LE(t, b) + PowNat(b, |t|) * d
  {
    LEAppend(t, [d], b);
    assert LE([d], b) == d + b * LE([], b);
  }

  /** The digits below the part of the number that is left. */
  predicate Below(V: nat, b: nat, t: seq<Byte>, rest: nat) {
    Digits(t, b) && V == LE(t, b) + PowNat(b, |t|) * rest
  }

  lemma BelowStart(V: nat, b: nat)
    ensures Below(V, b, [], V)
  {
    PowNatNext(b, 0);
  }

  lemma BelowNext(V: nat, b: nat, t: seq<Byte>, rest: nat, q: nat, d: Byte)
    requires Below(V, b, t, rest) && rest == q * b + d && d < b
    ensures Below(V, b, t + [d], q)
  {
    hide PowNat, LE;
    LESnoc(t, d, b);
    PowNatNext(b, |t|);
    var p := PowNat(b, |t|);
    assert p * (q * b + d) == (b * p) * q + p * d;
  }

  /** A further digit fits while something is left. */
  lemma RoomForDigit(V: nat, b: nat, t: seq<Byte>, rest: nat, m: nat)
    requires Below(V, b, t, rest) && rest > 0 && V < PowNat(b, m) && b > 1
    ensures |t| < m
  {
    hide PowNat, LE;
    MulMono(1, rest, PowNat(b, |t|));
    if |t| >= m { PowNatMono(b, m, |t|); }
  }

  /** mpn_limb_get_str: digits from the least significant end. */
  method LimbGetStr(sp: array<Byte>, off: nat, w0: Limb, binv: DivInverse, ghost b: nat) returns (i: nat)
    requires 2 <= b <= 256 && Inverse1(binv, b) && binv.shift > 0
    requires off <= sp.Length && w0 < PowNat(b, sp.Length - off)
    modifies sp
    ensures off + i <= sp.Length && Digits(sp[off..off + i], b) && LE(sp[off..off + i], b) == w0
    ensures i > 0 ==> sp[off + i - 1] != 0
    ensures sp[..off] == old(sp[..off])
  {
    hide Pow2, PowNat, LE, Inverse1, Below;
    var w := w0;
    i := 0;
    BelowStart(w0, b);
    assert sp[off..off] == [];
    while w > 0
      invariant off + i <= sp.Length && Below(w0, b, sp[off..off + i], w)
      invariant i > 0 && w == 0 ==> sp[off + i - 1] != 0
      invariant sp[..off] == old(sp[..off])
      decreases w
    {
      ghost var t, rest := sp[off..off + i], w;
      RoomForDigit(w0, b, t, w, sp.Length - off);
      var r;
      w, r := LimbDigit(w, binv, b);
      QuotientSmaller(rest, b, w, r);
      BelowNext(w0, b, t, rest, w, r);
      sp[off + i] := r;
      assert sp[off..off + (i + 1)] == t + [r];
      i := i + 1;
    }
    BelowEnd(w0, b, sp[off..off + i]);
  }

  lemma QuotientSmaller(w: nat, b: nat, q: nat, r: nat)
    requires w > 0 && b >= 2 && w == q * b + r
    ensures q < w && (q == 0 ==> r == w)
  {
    MulMono(2, b, q);
  }

  lemma BelowEnd(V: nat, b: nat, t: seq<Byte>)
    requires Below(V, b, t, 0)
    ensures Digits(t, b) && LE(t, b) == V
  {
    assert PowNat(b, |t|) * 0 == 0;
  }

  lemma LELower(t: seq<Byte>, b: nat)
    requires |t| > 0 && t[|t| - 1] != 0
    ensures LE(t, b) >= PowNat(b, |t| - 1)
  {
    hide PowNat, LE;
    var n := |t| - 1;
    assert t == t[..n] + [t[n]];
    LESnoc(t[..n], t[n], b);
    MulMono(1, t[n], PowNat(b, n));
  }

  /** The digits of one chunk, filled with zeros to its full width. */
  method ChunkDigits(sp: array<Byte>, sn: nat, w: Limb, exp: nat, binv: DivInverse, ghost b: nat) returns (sn': nat)
    requires 2 <= b <= 256 && Inverse1(binv, b) && binv.shift > 0
    requires sn + exp <= sp.Length && w < PowNat(b, exp)
    modifies sp
    ensures sn' == sn + exp && sp[..sn] == old(sp[..sn])
    ensures Digits(sp[sn..sn'], b) && LE(sp[sn..sn'], b) == w
  {
    hide Pow2, PowNat, LE, Inverse1;
    PowNatMono(b, exp, sp.Length - sn);
    var done := LimbGetStr(sp, sn, w, binv, b);
    ghost var t := sp[sn..sn + done];
    if done > exp {
      LELower(t, b);
      PowNatMono(b, exp, done - 1);
    }
    sn' := sn + done;
    while done < exp
      invariant |t| <= done <= exp && sn' == sn + done
      invariant sp[..sn] == old(sp[..sn]) && sp[sn..sn + |t|] == t
      invariant forall j :: sn + |t| <= j < sn' ==> sp[j] == 0
    {
      sp[sn'] := 0;
      sn' := sn' + 1;
      done := done + 1;
    }
    ghost var z := sp[sn + |t|..sn'];
    assert sp[sn..sn'] == t + z;
    LEAppend(t, z, b);
    LEZeros(z, b);
  }

  /** A chunk of digits joins those below it. */
  lemma BelowChunk(V: nat, b: nat, t: seq<Byte>, rest: nat, q: nat, c: seq<Byte>, bb: nat)
    requires Below(V, b, t, rest) && rest == q * bb + LE(c, b) && Digits(c, b) && bb == PowNat(b, |c|)
    ensures Below(V, b, t + c, q)
  {
    hide PowNat, LE;
    LEAppend(t, c, b);
    PowNatAdd(b, |t|, |c|);
    var p := PowNat(b, |t|);
    assert p * (q * bb + LE(c, b)) == p * bb * q + p * LE(c, b);
  }

  lemma PowNatAdd(b: nat, x: nat, y: nat)
    ensures PowNat(b, x + y) == PowNat(b, x) * PowNat(b, y)
  {
    PowAdd(b, x, y);
  }

  /** The quotient of a number of at least two limbs by one limb keeps all but at most one limb. */
  method DivideChunk(up: array<Limb>, un: nat, bbinv: DivInverse, ghost bb: Limb) returns (w: Limb, un': nat)
    requires 1 < un <= up.Length && up[un - 1] != 0 && Inverse1(bbinv, bb) && bb > 0
    modifies up
    ensures 0 < un' <= un && up[un' - 1] != 0 && w < bb
    ensures old(Val(up[..un])) == Val(up[..un']) * bb + w
    decreases un
  {
    hide Val, Pow2, Inverse1, PowB;
    ghost var V := Val(up[..un]);
    ValLower(up[..un]);
    w := DivQr1Preinv(up, up, un, bbinv, bb);
    DivModFacts(V, bb);
    un' := un - Bool(up[un - 1] == 0);
    ghost var s := up[..un];
    ChunkQuotientSize(s, V, bb);
    assert up[..un'] == s[..un'];
  }

  lemma ChunkQuotientSize(s: seq<Limb>, V: nat, bb: Limb)
    requires |s| > 1 && bb > 0 && Val(s) == V / bb && V >= PowB(|s| - 1)
    ensures s[|s| - 1] == 0 ==> s[|s| - 2] != 0 && Val(s[..|s| - 1]) == V / bb
    ensures s[..|s|] == s
  {
    hide Val, PowB;
    var n := |s| - 1;
    if s[n] == 0 {
      ValTrim(s, n);
      PowBStep(n - 1);
      MulMono(bb, B, PowB(n - 1));
      DivAtLeast(V, bb, PowB(n - 1));
      TopLimbNonZero(s[..n]);
      assert s[..n][n - 1] == s[n - 1];
    }
  }

  lemma PowBStep(n: nat)
    ensures PowB(n + 1) == B * PowB(n)
  {
  }

  /** The in-place reversal. */
  method ReverseInPlace(sp: array<Byte>, sn: nat)
    requires sn <= sp.Length
    modifies sp
    ensures sp[..sn] == Reverse(old(sp[..sn]))
  {
    ghost var t := sp[..sn];
    var i: nat := 0;
    while 2 * i + 1 < sn
      invariant 2 * i <= sn + 1
      invariant forall k :: 0 <= k < i && k < sn ==> sp[k] == t[sn - 1 - k] && sp[sn - 1 - k] == t[k]
      invariant forall k :: i <= k < sn - i ==> sp[k] == t[k]
    {
      sp[i], sp[sn - i - 1] := sp[sn - i - 1], sp[i];
      i := i + 1;
    }
    assert forall k :: 0 <= k < sn ==> sp[k] == t[sn - 1 - k];
  }

  /** mpn_get_str_other: chunks of info.exp digits, then the last limb, then the reversal. */
  method GetStrOther(sp: array<Byte>, b: nat, info: BaseInfo, up: array<Limb>, un0: nat) returns (sn: nat)
    requires 2 <= b <= 256 && InfoFor(info, b) && 0 < un0 <= up.Length && up[un0 - 1] != 0
    requires Val(up[..un0]) < PowNat(b, sp.Length)
    modifies sp, up
    ensures sn <= sp.Length && DigitsOf(sp[..sn], b, old(Val(up[..un0])))
  {
    hide Val, Pow2, PowNat, LE, BE, Inverse1, Below;
    ghost var V := Val(up[..un0]);
    var binv := Div1Invert(b);
    SmallBaseShift(binv, b);
    sn := 0;
    var un := un0;
    BelowStart(V, b);
    InfoPositive(info, b);
    assert sp[..0] == [];
    if un > 1 {
      var bbinv := Div1Invert(info.bb);
      while un > 1
        invariant 0 < un <= un0 && up[un - 1] != 0
        invariant sn <= sp.Length && Below(V, b, sp[..sn], Val(up[..un]))
        decreases Val(up[..un])
      {
        ghost var rest, t := Val(up[..un]), sp[..sn];
        var w;
        w, un := DivideChunk(up, un, bbinv, info.bb);
        ghost var q := Val(up[..un]);
        NonZeroValue(up[..un]);
        ChunkSmaller(rest, info.bb, q, w);
        RoomForChunk(V, b, t, rest, q, info, w, sp.Length);
        ghost var sn0 := sn;
        sn := ChunkDigits(sp, sn, w, info.exp, binv, b);
        BelowChunk(V, b, t, rest, q, sp[sn0..sn], info.bb);
        assert sp[..sn] == sp[..sn0] + sp[sn0..sn];
      }
    }
    sn := LastLimb(sp, sn, up, binv, b, V);
    ReverseValue(sp[..sn], b);
    ReverseInPlace(sp, sn);
  }

  lemma SmallBaseShift(binv: DivInverse, b: nat)
    requires Inverse1(binv, b) && b <= 256
    ensures binv.shift > 0
  {
    assert Pow2(0) == 1;
  }

  lemma InfoPositive(info: BaseInfo, b: nat)
    requires InfoFor(info, b) && b >= 2
    ensures info.bb >= 2 && info.exp > 0
  {
    hide PowNat;
    PowNatMono(b, 1, info.exp);
    PowNatNext(b, 0);
  }

  lemma NonZeroValue(s: seq<Limb>)
    requires |s| > 0 && s[|s| - 1] != 0
    ensures Val(s) > 0
  {
    ValLower(s);
  }

  lemma ChunkSmaller(rest: nat, bb: nat, q: nat, w: nat)
    requires rest == q * bb + w && bb >= 2 && q > 0
    ensures q < rest
  {
    MulMono(2, bb, q);
  }

  lemma RoomForChunk(V: nat, b: nat, t: seq<Byte>, rest: nat, q: nat, info: BaseInfo, w: nat, m: nat)
    requires Below(V, b, t, rest) && rest == q * info.bb + w && q > 0 && V < PowNat(b, m) && InfoFor(info, b) && b > 1
    ensures |t| + info.exp <= m
  {
    hide PowNat, LE;
    MulMono(1, q, info.bb);
    MulMono(info.bb, rest, PowNat(b, |t|));
    PowNatAdd(b, |t|, info.exp);
    if |t| + info.exp > m { PowNatMono(b, m, |t| + info.exp); }
  }

  /** The digits of the last limb, which has no leading zeros. */
  method LastLimb(sp: array<Byte>, sn: nat, up: array<Limb>, binv: DivInverse, ghost b: nat,
                  ghost V: nat) returns (sn': nat)
    requires 2 <= b <= 256 && Inverse1(binv, b) && binv.shift > 0
    requires 0 < up.Length && up[0] != 0 && sn <= sp.Length && Below(V, b, sp[..sn], Val(up[..1])) && V < PowNat(b,
            sp.Length)
    modifies sp
    ensures sn < sn' <= sp.Length && Digits(sp[..sn'], b) && LE(sp[..sn'], b) == V && sp[sn' - 1] != 0
  {
    hide Val, Pow2, PowNat, LE, BE, Inverse1, Below;
    assert up[..1] == [up[0]];
    ValSingle(up[0]);
    ghost var t := sp[..sn];
    RoomForLimb(V, b, t, up[0], sp.Length);
    var done := LimbGetStr(sp, sn, up[0], binv, b);
    ghost var c := sp[sn..sn + done];
    sn' := sn + done;
    assert sp[..sn'] == t + c;
    if done == 0 { EmptyLE(c, b); }
    BelowLast(V, b, t, c);
  }

  lemma EmptyLE(c: seq<Byte>, b: nat)
    requires |c| == 0
    ensures LE(c, b) == 0
  {
  }

  lemma BelowLast(V: nat, b: nat, t: seq<Byte>, c: seq<Byte>)
    requires Below(V, b, t, LE(c, b)) && Digits(c, b)
    ensures Digits(t + c, b) && LE(t + c, b) == V
  {
    LEAppend(t, c, b);
  }

  lemma RoomForLimb(V: nat, b: nat, t: seq<Byte>, w: nat, m: nat)
    requires Below(V, b, t, w) && w > 0 && V < PowNat(b, m) && |t| <= m && b > 1
    ensures w < PowNat(b, m - |t|)
  {
    hide PowNat, LE;
    PowNatAdd(b, |t|, m - |t|);
    if w >= PowNat(b, m - |t|) { MulMono(PowNat(b, m - |t|), w, PowNat(b, |t|)); }
  }

  /** mpn_get_str: the digits of a normalised nonzero vector, most significant first and without
      leading zeros, in any base up to 256. */
  method GetStr(sp: array<Byte>, b: nat, up: array<Limb>, un: nat) returns (sn: nat)
    requires 2 <= b <= 256 && 0 < un <= up.Length && up[un - 1] != 0
    requires Val(up[..un]) < PowNat(b, sp.Length)
    modifies sp, up
    ensures sn <= sp.Length && DigitsOf(sp[..sn], b, old(Val(up[..un])))
  {
    hide Val, Pow2, PowNat, BE, BasePowerOfTwo;
    var bits := BasePowerOfTwo(b);
    if bits != 0 {
      sn := GetStrBits(sp, bits, up, un);
    } else {
      var info := GetBaseInfo(b);
      sn := GetStrOther(sp, b, info, up, un);
    }
  }

  // ---------------------------------------------------------------- set_str, by bits

  /** r[..rn] holds the value of the digits read so far, which fill rn limbs up to shift bits
      of the top one (all of it if shift is 0). */
  predicate Packed(r: seq<Limb>, shift: nat, bits: nat, t: seq<Byte>) {
    && shift < LIMB_BITS && Val(r) == BE(t, Pow2(bits)) && Digits(t, Pow2(bits))
    && Position(bits, |t|) + (if shift == 0 then 0 else LIMB_BITS - shift) == 32 * |r|
  }

  /** Digits read from the top: the next one goes above those packed so far. */
  lemma PackedValue(t: seq<Byte>, d: Byte, bits: nat)
    requires Digits(t, Pow2(bits)) && d < Pow2(bits)
    ensures Digits([d] + t, Pow2(bits)) && BE([d] + t, Pow2(bits)) == d * Pow2(Position(bits, |t|)) + BE(t, Pow2(bits))
    ensures BE(t, Pow2(bits)) < Pow2(Position(bits, |t|))
    ensures Position(bits, |t| + 1) == Position(bits, |t|) + bits
  {
    hide Pow2, PowNat, BE;
    BECons(d, t, Pow2(bits));
    BEBound(t, Pow2(bits));
    PowNatOfPow2(bits, |t|);
    assert bits * (|t| + 1) == bits * |t| + bits;
  }

  /** A digit that starts a new limb. */
  lemma PackNew(r: seq<Limb>, bits: nat, t: seq<Byte>, d: Byte)
    requires Packed(r, 0, bits, t) && 0 < bits <= 8 && d < Pow2(bits)
    ensures Packed(r + [d], bits, bits, [d] + t)
  {
    hide Pow2, PowNat, BE, Val, Shift, PowB, Position;
    PackedValue(t, d, bits);
    ValSnoc(r, d);
    ShiftIsMul(d, |r|);
    PowBIsPow2(|r|);
  }

  /** The top limb before and after a digit is or-ed in. */
  lemma PackTop(r: seq<Limb>, shift: nat, bits: nat, t: seq<Byte>)
    requires Packed(r, shift, bits, t) && 0 < shift && 0 < bits
    ensures |r| > 0 && r[|r| - 1] < Pow2(shift)
    ensures Pow2(Position(bits, |t|)) == PowB(|r| - 1) * Pow2(shift)
    ensures Val(r) == Val(r[..|r| - 1]) + Shift(r[|r| - 1], |r| - 1)
  {
    hide Pow2, PowNat, BE, Val, Shift, PowB;
    MulNonNeg(bits, |t|);
    var n := |r| - 1;
    ValPrefixNext(r, n);
    assert r[..n + 1] == r;
    MpzShift.Pow2Limbs(n, shift);
    BEBound(t, Pow2(bits));
    PowNatOfPow2(bits, |t|);
    ShiftIsMul(r[n], n);
    if r[n] >= Pow2(shift) { MulMono(Pow2(shift), r[n], PowB(n)); }
  }

  /** A digit shifted into the top limb, and its part beyond that limb. */
  lemma DigitParts(x: Limb, d: Byte, shift: nat, bits: nat)
    requires 0 < shift < LIMB_BITS && 0 < bits <= 8 && d < Pow2(bits) && x < Pow2(shift)
    ensures LimbOr(x, Shl(d, shift)) == x + Shl(d, shift)
    ensures d * Pow2(shift) == Shl(d, shift) + B * (if shift + bits > LIMB_BITS then Shr(d, LIMB_BITS - shift) else 0)
  {
    hide Pow2, LimbOr, Shr, Shl;
    ShlShr(d, shift);
    LimbOrCommutes(x, Shl(d, shift));
    LimbOrDisjoint(Shl(d, shift), x, shift);
    if shift + bits <= LIMB_BITS {
      Pow2Mono(bits, 32 - shift);
      NoHighBits(d, shift);
    }
  }

  lemma NoHighBits(d: Limb, shift: nat)
    requires shift < LIMB_BITS && d < Pow2(32 - shift)
    ensures Shr(d, LIMB_BITS - shift) == 0
  {
    hide Pow2;
    DivModUnique(d, Pow2(32 - shift), 0, d);
  }

  /** A digit that joins the top limb. */
  lemma PackJoin(r: seq<Limb>, shift: nat, bits: nat, t: seq<Byte>, d: Byte)
    requires Packed(r, shift, bits, t) && 0 < shift && 0 < bits <= 8 && d < Pow2(bits)
    ensures |r| > 0
    ensures var n := |r| - 1; var x := LimbOr(r[n], Shl(d, shift));
      if shift + bits > LIMB_BITS
      then Packed(r[..n] + [x, Shr(d, LIMB_BITS - shift)], shift + bits - LIMB_BITS, bits, [d] + t)
      else Packed(r[..n] + [x], if shift + bits == LIMB_BITS then 0 else shift + bits, bits, [d] + t)
  {
    hide Pow2, PowNat, BE, Val, Shift, PowB, Position, LimbOr, Shr, Shl;
    PackedValue(t, d, bits);
    PackTop(r, shift, bits, t);
    var n := |r| - 1;
    DigitParts(r[n], d, shift, bits);
    var x, y := LimbOr(r[n], Shl(d, shift)), if shift + bits > LIMB_BITS then Shr(d, LIMB_BITS - shift) else 0;
    var low := r[..n];
    JoinedValue(low, r[n], d, x, y, Pow2(shift), Pow2(Position(bits, |t|)));
    assert low + [x] + [y] == low + [x, y];
  }

  lemma JoinedValue(low: seq<Limb>, x0: Limb, d: nat, x: Limb, y: Limb, p: nat, P: nat)
    requires P == PowB(|low|) * p && x - x0 + B * y == d * p
    ensures Val(low + [x]) + Shift(y, |low| + 1) == Val(low) + Shift(x0, |low|) + d * P
    ensures y == 0 ==> Val(low + [x]) == Val(low) + Shift(x0, |low|) + d * P
    ensures Val(low + [x] + [y]) == Val(low) + Shift(x0, |low|) + d * P
  {
    hide Val, Shift, PowB;
    var n := |low|;
    ValSnoc(low, x);
    ValSnoc(low + [x], y);
    ShiftNext(y, n);
    ShiftIsMul(x, n);
    ShiftIsMul(x0, n);
    ShiftIsMul(B * y, n);
    ShiftZero(n + 1);
    var q := PowB(n);
    assert d * P == (d * p) * q;
    assert (x - x0 + B * y) * q == x * q - x0 * q + B * y * q;
  }

  /** mpn_set_str_bits */
  method SetStrBits(rp: array<Limb>, sp: array<Byte>, sn: nat, bits: nat) returns (rn: nat)
    requires 0 < bits <= 8 && sn <= sp.Length && Digits(sp[..sn], Pow2(bits))
    requires bits * sn <= 32 * rp.Length
    modifies rp
    ensures rn <= rp.Length && Normalized(rp[..rn]) && Val(rp[..rn]) == BE(sp[..sn], Pow2(bits))
  {
    hide Pow2, Val, BE, Packed, LimbOr, Shr, Shl;
    var j, shift: nat := sn, 0;
    rn := 0;
    PackedStart(bits);
    assert sp[sn..sn] == [] && rp[..0] == [];
    while j > 0
      invariant 0 <= j <= sn && rn <= rp.Length
      invariant Packed(rp[..rn], shift, bits, sp[j..sn])
    {
      j := j - 1;
      ghost var r, t, d := rp[..rn], sp[j + 1..sn], sp[j];
      assert d == sp[..sn][j];
      assert sp[j..sn] == [d] + t;
      RoomForBits(r, shift, bits, t, sn, rp.Length);
      if shift == 0 {
        PackNew(r, bits, t, d);
        rp[rn] := sp[j];
        rn := rn + 1;
        shift := shift + bits;
        assert rp[..rn] == r + [d];
      } else {
        PackJoin(r, shift, bits, t, d);
        rp[rn - 1] := LimbOr(rp[rn - 1], Shl(sp[j], shift));
        assert rp[..rn] == r[..rn - 1] + [rp[rn - 1]];
        shift := shift + bits;
        if shift >= LIMB_BITS {
          shift := shift - LIMB_BITS;
          if shift > 0 {
            rp[rn] := Shr(sp[j], bits - shift);
            rn := rn + 1;
            assert rp[..rn] == r[..rn - 2] + [rp[rn - 2], rp[rn - 1]];
          }
        }
      }
    }
    PackedEnd(rp[..rn], shift, bits, sp[0..sn]);
    assert sp[0..sn] == sp[..sn];
    rn := NormalizedSize(rp, rn);
  }

  lemma PackedStart(bits: nat)
    ensures Packed([], 0, bits, [])
  {
    assert bits * 0 == 0;
  }

  lemma PackedEnd(r: seq<Limb>, shift: nat, bits: nat, t: seq<Byte>)
    requires Packed(r, shift, bits, t)
    ensures Val(r) == BE(t, Pow2(bits))
  {
  }

  lemma RoomForBits(r: seq<Limb>, shift: nat, bits: nat, t: seq<Byte>, sn: nat, m: nat)
    requires Packed(r, shift, bits, t) && 0 < bits <= 8 && |t| < sn && bits * sn <= 32 * m
    ensures shift < LIMB_BITS
    ensures shift == 0 ==> |r| < m
    ensures shift + bits > LIMB_BITS ==> |r| < m
  {
    assert bits * (|t| + 1) == bits * |t| + bits;
    MulMono(|t| + 1, sn, bits);
  }

  // ------------------------------------------------------------- set_str, other bases

  /** A chunk of digits read into a limb. */
  method ReadChunk(sp: array<Byte>, j0: nat, k: nat, b: Limb) returns (w: Limb, j: nat)
    requires 0 < k && j0 + k <= sp.Length && 2 <= b <= 256 && Digits(sp[j0..j0 + k], b) && PowNat(b, k) <= B
    ensures j == j0 + k && w == BE(sp[j0..j0 + k], b)
  {
    hide PowNat, BE;
    w := sp[j0];
    j := j0 + 1;
    SingleDigit(sp[j0], b);
    assert sp[j0..j0 + 1] == [sp[j0]];
    var i := 1;
    while i < k
      invariant 1 <= i <= k && j == j0 + i && w == BE(sp[j0..j], b)
    {
      ghost var t := sp[j0..j];
      assert sp[j0..j + 1] == t + [sp[j]];
      assert sp[j] == sp[j0..j0 + k][i];
      BESnoc(t, sp[j], b);
      ChunkBound(sp[j0..j0 + k], i + 1, b);
      assert sp[j0..j0 + k][..i + 1] == sp[j0..j + 1];
      w := (w * b % B + sp[j]) % B;
      ghost var v := BE(t, b) * b;
      DivModUnique(v, B, 0, v);
      j := j + 1;
      i := i + 1;
    }
  }

  lemma SingleDigit(d: Byte, b: nat)
    ensures BE([d], b) == d
  {
    assert BE([], b) == 0 && [d][..0] == [];
  }

  lemma ChunkBound(s: seq<Byte>, i: nat, b: nat)
    requires i <= |s| && Digits(s, b) && b > 0 && PowNat(b, |s|) <= B
    ensures BE(s[..i], b) < B
  {
    hide PowNat, BE;
    BEBound(s[..i], b);
    PowNatMono(b, i, |s|);
  }

  /** rp := rp * bb + w, growing by at most one limb. */
  method MulAddLimb(rp: array<Limb>, rn: nat, bb: Limb, w: Limb) returns (rn': nat)
    requires 0 < rn <= rp.Length && rp[rn - 1] != 0 && 0 < bb && w < bb
    requires rn < rp.Length || Val(rp[..rn]) * bb + w < PowB(rn)
    modifies rp
    ensures rn <= rn' <= rp.Length && rn' <= rn + 1 && rp[rn' - 1] != 0
    ensures Val(rp[..rn']) == old(Val(rp[..rn])) * bb + w
  {
    hide Val, Shift, PowB;
    ghost var V := Val(rp[..rn]);
    assert rp[0..0 + rn] == rp[..rn];
    ValBound(rp[..rn]);
    ValLower(rp[..rn]);
    var cy := Mul1(rp, 0, rp, 0, rn, bb);
    assert rp[0..0 + rn] == rp[..rn];
    var c2 := Add1(rp, 0, rp, 0, rn, w);
    assert rp[0..0 + rn] == rp[..rn];
    ghost var s := rp[..rn];
    CarryFits(s, V, bb, w, cy, c2);
    cy := (cy + c2) % B;
    rn' := rn;
    if cy > 0 {
      rp[rn] := cy;
      rn' := rn + 1;
      assert rp[..rn'] == s + [cy];
      ValSnoc(s, cy);
    }
  }

  lemma CarryFits(s: seq<Limb>, V: nat, bb: Limb, w: Limb, cy: int, c2: int)
    requires |s| > 0 && PowB(|s| - 1) <= V < PowB(|s|) && 0 < bb && w < bb && cy >= 0 && 0 <= c2
    requires Val(s) + Shift(c2, |s|) + Shift(cy, |s|) == V * bb + w
    ensures 0 <= cy + c2 < B && Val(s) + Shift(cy + c2, |s|) == V * bb + w
    ensures cy + c2 == 0 ==> Val(s) == V * bb + w && s[|s| - 1] != 0
    ensures V * bb + w < PowB(|s|) ==> cy + c2 == 0
  {
    hide Val, Shift, PowB;
    var n, c, P := |s|, cy + c2, PowB(|s|);
    ShiftAdd(cy, c2, n);
    ShiftIsMul(c, n);
    ShiftZero(n);
    ValBound(s);
    MulMono(V + 1, P, bb);
    assert (V + 1) * bb == V * bb + bb;
    if c >= B { MulMono(bb, c, P); }
    if c > 0 { MulMono(1, c, P); }
    MulMono(1, bb, V);
    if c == 0 { TopLimbNonZero(s); }
  }

  /** The first chunk is not zero, unless it is the only one. */
  predicate FirstChunkNonZero(s: seq<Byte>, b: nat, exp: nat) {
    exp > 0 && |s| > 0 && (|s| > exp ==> BE(s[..1 + (|s| - 1) % exp], b) > 0)
  }

  lemma ChunkOf(sp: array<Byte>, sn: nat, i: nat, j: nat)
    requires i <= j <= sn <= sp.Length
    ensures sp[i..j] == sp[..sn][i..j]
  {
  }

  lemma SlicesJoin(s: seq<Byte>, i: nat, j: nat)
    requires i <= j <= |s|
    ensures s[..j] == s[..i] + s[i..j]
  {
  }

  /** mpn_set_str_other.  The C code multiplies a vector of no limbs if the first of several
      chunks is zero, so that case is excluded. */
  method SetStrOther(rp: array<Limb>, sp: array<Byte>, sn: nat, b: Limb, info: BaseInfo) returns (rn: nat)
    requires 2 <= b <= 256 && InfoFor(info, b) && 0 < sn <= sp.Length && Digits(sp[..sn], b)
    requires FirstChunkNonZero(sp[..sn], b, info.exp)
    requires 0 < rp.Length && BE(sp[..sn], b) < PowB(rp.Length)
    modifies rp
    ensures rn <= rp.Length && Normalized(rp[..rn]) && Val(rp[..rn]) == BE(sp[..sn], b)
  {
    hide Val, PowNat, BE, Position, FirstChunkNonZero;
    InfoPositive(info, b);
    ghost var s := sp[..sn];
    var k; ghost var left;
    k, left := FirstChunk(sn, info.exp, s, b);
    PowNatMono(b, k, info.exp);
    assert sp[0..0 + k] == s[..k];
    var w, j := ReadChunk(sp, 0, k, b);
    rp[0] := w;
    rn := Bool(w > 0);
    assert rp[..1] == [w];
    ValSingle(w);
    EmptyValues();
    assert rp[..0] == [];
    while j < sn
      invariant 0 <= j <= sn && left >= 0 && j + Position(info.exp, left) == sn && rn <= rp.Length
      invariant Val(rp[..rn]) == BE(s[..j], b)
      invariant rn > 0 ==> rp[rn - 1] != 0
      invariant j < sn ==> rn > 0
      decreases left
    {
      NextChunk(j, info.exp, left, sn);
      ghost var t := s[..j];
      ChunkOf(sp, sn, j, j + info.exp);
      var j';
      w, j' := ReadChunk(sp, j, info.exp, b);
      BEBound(s[j..j'], b);
      BEAppend(t, s[j..j'], b);
      SlicesJoin(s, j, j');
      BEPrefix(s, j', b);
      rn := MulAddLimb(rp, rn, info.bb, w);
      j := j';
      left := left - 1;
    }
    assert s[..sn] == s;
  }

  lemma BEPrefix(s: seq<Byte>, j: nat, b: nat)
    requires j <= |s| && b > 0
    ensures BE(s[..j], b) <= BE(s, b)
  {
    hide BE, PowNat;
    assert s == s[..j] + s[j..];
    BEAppend(s[..j], s[j..], b);
    PowPositive(b, |s| - j);
    MulMono(1, PowNat(b, |s| - j), BE(s[..j], b));
  }

  /** The first chunk takes the digits that do not fill a whole one. */
  method FirstChunk(sn: nat, exp: nat, ghost s: seq<Byte>, ghost b: nat) returns (k: nat, ghost left: nat)
    requires sn == |s| > 0 && FirstChunkNonZero(s, b, exp)
    ensures 0 < k <= exp && k <= sn && k + Position(exp, left) == sn
    ensures k < sn ==> BE(s[..k], b) > 0
  {
    hide BE;
    k := 1 + (sn - 1) % exp;
    left := Quo(sn - 1, exp);
    DivModFacts(sn - 1, exp);
    assert exp * left == left * exp;
    if left > 0 { MulMono(1, left, exp); } else { assert 0 * exp == 0; }
  }

  lemma NextChunk(j: nat, exp: nat, left: nat, sn: nat)
    requires j < sn && j + Position(exp, left) == sn
    ensures left > 0 && j + exp + Position(exp, left - 1) == sn && j + exp <= sn
  {
    assert exp * 0 == 0;
    if left > 0 {
      assert exp * left == exp + exp * (left - 1);
      MulNonNeg(exp, left - 1);
    }
  }

  // ---------------------------------------------------------------------- round trips

  /** The limbs that the result may use. */
  predicate RoomFor(len: nat, s: seq<Byte>, b: nat) {
    if BasePowerOfTwo(b) > 0 then BasePowerOfTwo(b) * |s| <= 32 * len
    else |s| > 0 ==> len > 0 && BE(s, b) < PowB(len)
  }

  /** The digits that mpn_set_str can read: outside powers of two, the first chunk is not zero
      unless it is the only one. */
  ghost predicate Readable(s: seq<Byte>, b: nat) {
    |s| == 0 || BasePowerOfTwo(b) > 0 || forall info: BaseInfo :: InfoFor(info, b) ==> FirstChunkNonZero(s, b, info.exp)
  }

  /** mpn_set_str: the limbs of a digit string in any base up to 256. */
  method SetStr(rp: array<Limb>, sp: array<Byte>, sn: nat, b: Limb) returns (rn: nat)
    requires 2 <= b <= 256 && sn <= sp.Length && Digits(sp[..sn], b)
    requires RoomFor(rp.Length, sp[..sn], b)
    requires Readable(sp[..sn], b)
    modifies rp
    ensures rn <= rp.Length && Normalized(rp[..rn]) && Val(rp[..rn]) == BE(sp[..sn], b)
  {
    hide Val, PowNat, BE, Pow2, BasePowerOfTwo;
    if sn == 0 {
      assert rp[..0] == [] && sp[..0] == [];
      EmptyValues();
      EmptyBE(b);
      return 0;
    }
    var bits := BasePowerOfTwo(b);
    if bits != 0 {
      rn := SetStrBits(rp, sp, sn, bits);
    } else {
      var info := GetBaseInfo(b);
      rn := SetStrOther(rp, sp, sn, b, info);
    }
  }

  lemma EmptyBE(b: nat)
    ensures BE([], b) == 0
  {
  }

  /** A nonzero leading digit is enough. */
  lemma LeadingDigit(s: seq<Byte>, b: nat)
    requires |s| > 0 && s[0] != 0 && b > 0
    ensures Readable(s, b)
  {
    hide BE, PowNat, BasePowerOfTwo;
    forall info: BaseInfo | InfoFor(info, b)
      ensures FirstChunkNonZero(s, b, info.exp)
    {
      if |s| > info.exp {
        var k := 1 + (|s| - 1) % info.exp;
        BELower(s[..k], b);
        PowPositive(b, k - 1);
      }
    }
  }

  /** mpn_set_str undoes mpn_get_str: the digits of a normalised nonzero vector, read back, are
      that vector, in every base and on both paths. */
  method RoundTrip(sp: array<Byte>, rp: array<Limb>, up: array<Limb>, un: nat, b: Limb) returns (sn: nat, rn: nat)
    requires 2 <= b <= 256 && 0 < un <= up.Length && up[un - 1] != 0 && rp != up && rp.Length > un
    requires Val(up[..un]) < PowNat(b, sp.Length)
    modifies sp, up, rp
    ensures sn <= sp.Length && DigitsOf(sp[..sn], b, old(Val(up[..un])))
    ensures rn <= rp.Length && rp[..rn] == old(up[..un])
  {
    hide Val, PowNat, BE, Pow2, BasePowerOfTwo, PowB, DigitsOf;
    ghost var u := up[..un];
    ValBound(u);
    sn := GetStr(sp, b, up, un);
    DigitsRoom(sp[..sn], b, Val(u), un, rp.Length);
    DigitsOfAre(sp[..sn], b, Val(u));
    LeadingDigit(sp[..sn], b);
    rn := SetStr(rp, sp, sn, b);
    NormalizedUnique(rp[..rn], u);
  }

  lemma DigitsOfAre(t: seq<Byte>, b: nat, V: nat)
    requires DigitsOf(t, b, V)
    ensures Digits(t, b) && |t| > 0 && t[0] != 0 && BE(t, b) == V
  {
  }

  lemma DigitsRoom(t: seq<Byte>, b: nat, V: nat, un: nat, len: nat)
    requires DigitsOf(t, b, V) && V < PowB(un) && un < len
    ensures RoomFor(len, t, b)
  {
    hide BE, PowNat, Pow2, PowB, BasePowerOfTwo;
    PowBMono(un, len);
    var bits := BasePowerOfTwo(b);
    if bits > 0 {
      BELower(t, b);
      PowNatOfPow2(bits, |t| - 1);
      PowBIsPow2(un);
      if bits * (|t| - 1) >= 32 * un { Pow2Mono(32 * un, bits * (|t| - 1)); }
      assert bits * |t| == bits * (|t| - 1) + bits;
    }
  }

  /** And mpn_get_str undoes mpn_set_str: a digit string without leading zero is the one digit
      string of its number. */
  lemma DigitsDetermined(t: seq<Byte>, t': seq<Byte>, b: nat, r: seq<Limb>)
    requires b > 1 && DigitsOf(t, b, Val(r)) && DigitsOf(t', b, Val(r))
    ensures t == t'
  {
    DigitsUnique(t, t', b);
  }
}
