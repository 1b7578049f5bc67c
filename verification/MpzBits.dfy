/** Two's-complement bit operations on sign-magnitude integers
    (mini-gmp.c, logical operations and bit manipulation). */
module MpzBits {
  import opened Limbs
  import opened Bits
  import opened MpzBase
  import MpzShift
  import Mpn
  import MpnDiv

  /** Bit i of x in infinite two's complement: floor(x / 2^i) is odd. */
  predicate TwosBit(x: int, i: nat) {
    x / Pow2(i) % 2 == 1
  }

  // ---------------------------------------------------------------------- mpz_tstbit

  /** A negative number's bit: complemented as soon as a lower bit is set. */
  lemma NegativeBit(m: nat, p: nat)
    requires p > 0
    ensures (0 - m) / p % 2 == (if m % p == 0 then m / p % 2 else 1 - m / p % 2)
  {
    var h, l := m / p, m % p;
    DivModFacts(m, p);
    if l == 0 {
      DivModUnique(0 - m, p, -h, 0);
    } else {
      assert (-h - 1) * p == -(h * p) - p;
      DivModUnique(0 - m, p, -h - 1, p - l);
    }
  }

  lemma BitAboveTop(m: nat, un: nat, i: nat)
    requires m < PowB(un) && i / 32 >= un
    ensures !TwosBit(m, i) && (m > 0 ==> TwosBit(0 - m, i))
  {
    PowBIsPow2(un);
    Pow2Mono(32 * un, i);
    DivModUnique(m, Pow2(i), 0, m);
    NegativeBit(m, Pow2(i));
  }

  /** mpz_tstbit: the bit of the two's complement, for any sign. */
  method TstBit(d: Mpz, i: nat) returns (bit: bool)
    requires d.Valid()
    ensures bit == TwosBit(d.Value(), i)
  {
    hide Val, PowB, Pow2, Shl, Shr;
    d.SizeFacts();
    var ds, dn := d.size, Abs(d.size);
    ghost var m := d.Mag();
    var li, shift := i / LIMB_BITS, i % LIMB_BITS;
    if li >= dn {
      BitAboveTop(m, dn, i);
      return ds < 0;
    }
    var w := d.d[li];
    ghost var s := d.d[..dn];
    MpzShift.SplitByBits(s, li, shift);
    MpzShift.BitOfTail(s[li..], shift);
    NegativeBit(m, Pow2(i));
    MpnDiv.ShrIsDiv(w, shift);
    bit := Shr(w, shift) % 2 == 1;
    if ds < 0 {
      LowPartTest(w, shift);
      if shift > 0 && Shl(w, LIMB_BITS - shift) > 0 {
        return !bit;
      }
      var j := li;
      while j > 0
        invariant 0 <= j <= li
        invariant forall k :: j <= k < li ==> d.d[k] == 0
      {
        j := j - 1;
        if d.d[j] > 0 {
          NonZeroLimb(s[..li], j);
          return !bit;
        }
      }
      ValZeros(s[..li]);
    }
  }

  lemma LowPartTest(w: Limb, shift: nat)
    requires shift < LIMB_BITS
    ensures shift > 0 ==> (Shl(w, LIMB_BITS - shift) > 0 <==> w % Pow2(shift) != 0)
    ensures shift == 0 ==> w % Pow2(shift) == 0
  {
    if shift > 0 {
      hide Pow2, Shl, Shr;
      ShlShr(w, LIMB_BITS - shift);
      MpnDiv.ShrIsDiv(w, shift);
      Pow2Of32();
      Pow2Add(shift, LIMB_BITS - shift);
      LowPart(w, Pow2(shift), Pow2(LIMB_BITS - shift), Shl(w, LIMB_BITS - shift));
    }
  }

  lemma LowPart(w: nat, p: nat, q: nat, l: nat)
    requires p > 0 && q > 0 && p * q == B && w * q == l + B * (w / p)
    ensures l > 0 <==> w % p != 0
  {
    DivModFacts(w, p);
    assert w / p * p * q == w / p * (p * q);
    Distribute(w / p * p, w % p, q);
    assert l == q * (w % p);
    if w % p > 0 { MulMono(1, w % p, q); }
  }

  lemma NonZeroLimb(s: seq<Limb>, j: nat)
    requires j < |s| && s[j] != 0
    ensures Val(s) != 0
  {
    hide Val, Shift;
    ValSplit(s, j + 1);
    ValPrefixNext(s, j);
    ShiftMono(1, s[j], j);
    ShiftOne(j);
    ShiftMono(0, Val(s[j + 1..]), j + 1);
    ShiftZero(j + 1);
  }

  // ------------------------------------------------------- setting and clearing a bit

  lemma BitValue(i: nat)
    ensures Shift(Pow2(i % 32), i / 32) == Pow2(i) && Pow2(i % 32) < B
  {
    hide Pow2, Shift, PowB;
    ShiftIsMul(Pow2(i % 32), i / 32);
    MpzShift.Pow2Limbs(i / 32, i % 32);
    Pow2Of32();
    Pow2Mono(i % 32, 31);
  }

  /** Adding 2^i to a limb vector long enough: the carry runs up from limb i/32. */
  method AddBitInto(dp: array<Limb>, dn: nat, i: nat) returns (cy: Limb)
    requires i / 32 < dn <= dp.Length
    modifies dp
    ensures Val(dp[..dn]) + Shift(cy, dn) == old(Val(dp[..dn])) + Pow2(i) && cy <= 1
    ensures Mpn.Kept(dp, 0, dn)
  {
    hide Val, Shift, Pow2;
    var li := i / LIMB_BITS;
    BitValue(i);
    var bit := Pow2(i % 32);
    ghost var a := dp[..dn];
    assert dp[li..li + (dn - li)] == a[li..];
    cy := Mpn.Add1(dp, li, dp, li, dn - li, bit);
    ghost var low, high := dp[..li], dp[li..li + (dn - li)];
    assert low == a[..li] && dp[..dn] == low + high;
    Mpn.CarryJoin(low, high, a, li, dn - li, Shift(bit, li), bit, cy);
  }

  method SubBitInto(dp: array<Limb>, dn: nat, i: nat) returns (cy: Limb)
    requires i / 32 < dn <= dp.Length
    modifies dp
    ensures Val(dp[..dn]) - Shift(cy, dn) == old(Val(dp[..dn])) - Pow2(i) && cy <= 1
    ensures Mpn.Kept(dp, 0, dn)
  {
    hide Val, Shift, Pow2;
    var li := i / LIMB_BITS;
    BitValue(i);
    var bit := Pow2(i % 32);
    ghost var a := dp[..dn];
    assert dp[li..li + (dn - li)] == a[li..];
    cy := Mpn.Sub1(dp, li, dp, li, dn - li, bit);
    ghost var low, high := dp[..li], dp[li..li + (dn - li)];
    assert low == a[..li] && dp[..dn] == low + high;
    Mpn.BorrowJoin(low, high, a, li, dn - li, Shift(bit, li), bit, cy);
  }

  /** mpz_abs_add_bit: |d| += 2^i, extending the number if the bit lies above it. */
  method AbsAddBit(d: Mpz, i: nat)
    requires d.Valid()
    modifies d, d.d
    ensures d.Valid() && d.Value() == Signed(old(d.Mag()) + Pow2(i), old(d.size) < 0)
    ensures d.d == old(d.d) || fresh(d.d)
  {
    hide Val, Shift, Pow2, PowB;
    d.SizeFacts();
    var dn, li, neg := Abs(d.size), i / LIMB_BITS, d.size < 0;
    ghost var m := d.Mag();
    if li >= dn {
      Grow(d, li + 1);
      GrowKeeps(d);
      BitValue(i);
      var bit := Pow2(i % 32);
      ExtendWithBit(d.d, dn, li, bit);
      dn := li + 1;
    } else {
      var cy := AddBitInto(d.d, dn, i);
      ghost var s := d.d[..dn];
      if cy > 0 {
        Grow(d, dn + 1);
        assert d.d[..dn] == s;
        d.d[dn] := cy;
        assert d.d[..dn] == s && d.d[..dn + 1] == s + [cy];
        dn := dn + 1;
      }
      MpzShift.ShiftedNormalized(s, cy, m + Pow2(i));
    }
    d.size := Signed(dn, neg);
    Stored(d, dn, m + Pow2(i));
  }

  method ExtendWithBit(dp: array<Limb>, dn: nat, li: nat, bit: Limb)
    requires dn <= li < dp.Length && bit != 0
    modifies dp
    ensures Normalized(dp[..li + 1]) && Val(dp[..li + 1]) == old(Val(dp[..dn])) + Shift(bit, li)
  {
    hide Val, Shift;
    ghost var s := dp[..dn];
    dp[li] := bit;
    var j := dn;
    while j < li
      invariant dn <= j <= li
      invariant forall k :: dn <= k < j ==> dp[k] == 0
      invariant dp[..dn] == s && dp[li] == bit
    {
      dp[j] := 0;
      j := j + 1;
    }
    ValTrim(dp[..li], dn);
    assert dp[..li][..dn] == s;
    assert dp[..li + 1] == dp[..li] + [bit];
    ValSnoc(dp[..li], bit);
  }

  /** mpz_abs_sub_bit: |d| -= 2^i, which must not underflow. */
  method AbsSubBit(d: Mpz, i: nat)
    requires d.Valid() && d.Mag() >= Pow2(i)
    modifies d, d.d
    ensures d.Valid() && d.Value() == Signed(old(d.Mag()) - Pow2(i), old(d.size) < 0)
    ensures d.d == old(d.d)
  {
    hide Val, Shift, Pow2, PowB;
    EmptyValues();
    d.SizeFacts();
    var dn, neg := Abs(d.size), d.size < 0;
    ghost var m := d.Mag();
    if i / 32 >= dn {
      PowBIsPow2(dn);
      Pow2Mono(32 * dn, i);
      assert false;
    }
    var cy := SubBitInto(d.d, dn, i);
    NoBorrow(d.d[..dn], cy, m - Pow2(i));
    dn := Mpn.NormalizedSize(d.d, dn);
    d.size := Signed(dn, neg);
    Stored(d, dn, m - Pow2(i));
  }

  /** A clear bit of a negative number, or a set bit of a positive one, is covered by its magnitude. */
  lemma BitCovered(x: int, i: nat)
    requires if x < 0 then !TwosBit(x, i) else TwosBit(x, i)
    ensures Abs(x) >= Pow2(i)
  {
    var m, p := Abs(x), Pow2(i);
    if m < p {
      DivModUnique(m, p, 0, m);
      NegativeBit(m, p);
    }
  }

  /** mpz_setbit */
  method SetBit(d: Mpz, i: nat)
    requires d.Valid()
    modifies d, d.d
    ensures d.Valid() && d.Value() == old(d.Value()) + (if TwosBit(old(d.Value()), i) then 0 else Pow2(i))
    ensures d.d == old(d.d) || fresh(d.d)
  {
    hide Val, Pow2, TwosBit;
    d.SizeFacts();
    var bit := TstBit(d, i);
    if !bit {
      if d.size >= 0 {
        AbsAddBit(d, i);
      } else {
        BitCovered(d.Value(), i);
        AbsSubBit(d, i);
      }
    }
  }

  /** mpz_clrbit */
  method ClrBit(d: Mpz, i: nat)
    requires d.Valid()
    modifies d, d.d
    ensures d.Valid() && d.Value() == old(d.Value()) - (if TwosBit(old(d.Value()), i) then Pow2(i) else 0)
    ensures d.d == old(d.d) || fresh(d.d)
  {
    hide Val, Pow2, TwosBit;
    d.SizeFacts();
    var bit := TstBit(d, i);
    if bit {
      if d.size >= 0 {
        BitCovered(d.Value(), i);
        AbsSubBit(d, i);
      } else {
        AbsAddBit(d, i);
      }
    }
  }

  /** Adding 2^i to a number whose bit i is clear changes that bit and no other. */
  lemma AddClearBit(x: int, i: nat, j: nat)
    requires !TwosBit(x, i)
    ensures TwosBit(x + Pow2(i), j) == (j == i || TwosBit(x, j))
  {
    hide Pow2;
    if j < i {
      Pow2Add(j + 1, i - j - 1);
      MpzShift.Pow2Next(j);
      LowBitSame(x, Pow2(j), Pow2(i - j - 1));
    } else if j == i {
      SameBitFlips(x, Pow2(i));
    } else {
      Pow2Add(i, j - i);
      MpzShift.Pow2Next(j - i - 1);
      HighBitSame(x, Pow2(i), Pow2(j - i - 1), Pow2(j));
    }
  }

  lemma SameBitFlips(x: int, p: nat)
    requires p > 0
    ensures (x + p) / p == x / p + 1
  {
    DivModFacts(x, p);
    assert (x / p + 1) * p == x / p * p + p;
    DivModUnique(x + p, p, x / p + 1, x % p);
  }

  lemma HighBitSame(x: int, p: nat, q: nat, P: nat)
    requires p > 0 && q > 0 && P == p * (2 * q) && x / p % 2 == 0
    ensures P > 0 && (x + p) / P == x / P
  {
    DivDivInt(x, p, 2 * q);
    DivDivInt(x + p, p, 2 * q);
    SameBitFlips(x, p);
    EvenPlusOne(x / p, q);
  }

  lemma LowBitSame(x: int, p: nat, q: int)
    requires p > 0
    ensures (x + 2 * p * q) / p % 2 == x / p % 2
  {
    var a := x / p;
    assert x + 2 * p * q == (a + 2 * q) * p + x % p;
    DivModUnique(x + 2 * p * q, p, a + 2 * q, x % p);
  }

  lemma DivDivInt(x: int, a: nat, b: nat)
    requires a > 0 && b > 0
    ensures a * b > 0 && x / (a * b) == x / a / b
  {
    var q, r := x / a, x % a;
    var q2, r2 := q / b, q % b;
    MulStrict(0, a, b);
    MulNonNeg(a, r2);
    assert x == q2 * (a * b) + (a * r2 + r) by {
      assert (q2 * b + r2) * a == q2 * (a * b) + a * r2;
    }
    assert a * r2 + r < a * b by {
      MulMono(r2, b - 1, a);
      assert a * (b - 1) == a * b - a;
    }
    DivModUnique(x, a * b, q2, a * r2 + r);
  }

  /** An even number and its successor agree above bit 0. */
  lemma EvenPlusOne(h: int, p: nat)
    requires h % 2 == 0 && p > 0
    ensures (h + 1) / (2 * p) == h / (2 * p)
  {
    var q, r := h / (2 * p), h % (2 * p);
    DivModFacts(h, 2 * p);
    assert h == 2 * (q * p) + r by { assert q * (2 * p) == 2 * (q * p); }
    DivModUnique(h + 1, 2 * p, q, r + 1);
  }
}
