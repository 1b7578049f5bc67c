/** Limbs and their values.

    A limb is a 32-bit unsigned word of the target; a number is a little-endian
    sequence of limbs.  Wrap-around of a limb operation is written out as `% B`
    by the code that relies on it. */
module Limbs {

  const B := 0x1_0000_0000
  const HALF := 0x1_0000
  const HIGHBIT := 0x8000_0000
  const LIMB_BITS := 32

  type Limb = x: int | 0 <= x < B
  type Byte = x: int | 0 <= x < 256

  function Pow2(n: nat): (p: nat)
    ensures p >= 1
  {
    if n == 0 then 1 else 2 * Pow2(n - 1)
  }

  function PowB(n: nat): (p: nat)
    ensures p >= 1
  {
    if n == 0 then 1 else B * PowB(n - 1)
  }

  /** x * B^n, as "x followed by n zero limbs": linear where a product with PowB is not. */
  function Shift(x: int, n: nat): int
  {
    if n == 0 then x else B * Shift(x, n - 1)
  }

  /** The number a limb vector stands for. */
  function Val(s: seq<Limb>): (v: nat)
  {
    if |s| == 0 then 0 else s[0] + B * Val(s[1..])
  }

  predicate Normalized(s: seq<Limb>) {
    |s| == 0 || s[|s| - 1] != 0
  }

  function Bool(b: bool): (x: Limb) {
    if b then 1 else 0
  }

  function Abs(x: int): (a: nat) {
    if x < 0 then -x else x
  }

  /** A magnitude with a sign. */
  function Signed(m: nat, neg: bool): (x: int)
    ensures Abs(x) == m
  {
    var i: int := m;
    if neg then -i else i
  }

  // ---------------------------------------------------------------- products

  lemma MulMono(x: int, y: int, k: nat)
    requires x <= y
    ensures x * k <= y * k && k * x <= k * y
  {
  }

  lemma MulStrict(x: int, y: int, k: nat)
    requires x < y && k > 0
    ensures x * k < y * k && k * x < k * y
  {
  }

  lemma MulNonNeg(x: nat, y: nat)
    ensures 0 <= x * y
  {
  }

  /** The quotient and remainder of a division are determined by their bounds. */
  lemma DivModUnique(n: int, d: int, q: int, r: int)
    requires d > 0 && n == q * d + r && 0 <= r < d
    ensures q == n / d && r == n % d
  {
    var q', r' := n / d, n % d;
    assert n == d * q' + r';
    assert (q - q') * d == r' - r;
    if q > q' {
      MulMono(1, q - q', d);
    } else if q < q' {
      MulMono(q - q', -1, d);
    }
  }

  /** A numerator below b*d has its quotient by d below b. */
  lemma QuotientRange(n: nat, d: int, b: int, q: int, r: int)
    requires d > 0 && n < b * d && n == q * d + r && 0 <= r < d
    ensures 0 <= q < b
  {
    if q >= b {
      MulMono(b, q, d);
    } else if q <= -1 {
      MulMono(q, -1, d);
    }
  }

  lemma DivModFacts(n: int, d: int)
    requires d > 0
    ensures n == (n / d) * d + n % d && 0 <= n % d < d
  {
  }

  /** Quotient and remainder of naturals. */
  function Quo(n: nat, d: nat): (q: nat)
    requires d > 0
    ensures q == n / d
  {
    DivNonNeg(n, d);
    n / d
  }

  function Rem(n: int, d: nat): (r: nat)
    requires d > 0
    ensures r == n % d && r < d
  {
    n % d
  }

  lemma Commute(x: int, y: int)
    ensures x * y == y * x
  {
  }

  lemma Distribute(x: int, y: int, p: int)
    ensures (x + y) * p == x * p + p * y
  {
  }

  lemma DivAtLeast(n: nat, d: nat, k: nat)
    requires d > 0 && k * d <= n
    ensures n / d >= k
  {
    DivModFacts(n, d);
    assert (n / d + 1) * d == n / d * d + d;
    if n / d < k {
      MulMono(n / d + 1, k, d);
    }
  }

  lemma DivNonNeg(n: nat, d: nat)
    requires d > 0
    ensures n / d >= 0
  {
    DivModFacts(n, d);
    if n / d <= -1 {
      MulMono(n / d, -1, d);
    }
  }

  // ------------------------------------------------------------------ powers

  lemma {:induction false} Pow2Add(a: nat, b: nat)
    ensures Pow2(a + b) == Pow2(a) * Pow2(b)
  {
    if a > 0 {
      Pow2Add(a - 1, b);
      assert Pow2(a + b) == 2 * Pow2(a - 1 + b);
    }
  }

  lemma {:induction false} Pow2Mono(a: nat, b: nat)
    requires a <= b
    ensures Pow2(a) <= Pow2(b)
  {
    if a < b {
      Pow2Mono(a, b - 1);
    }
  }

  lemma {:induction false} PowBAdd(a: nat, b: nat)
    ensures PowB(a + b) == PowB(a) * PowB(b)
  {
    if a > 0 {
      PowBAdd(a - 1, b);
      assert PowB(a + b) == B * PowB(a - 1 + b);
    }
  }

  lemma {:induction false} PowBMono(a: nat, b: nat)
    requires a <= b
    ensures PowB(a) <= PowB(b)
  {
    if a < b {
      PowBMono(a, b - 1);
    }
  }

  lemma Pow2Of32()
    ensures Pow2(8) == 256 && Pow2(16) == HALF && Pow2(31) == HIGHBIT && Pow2(32) == B
  {
    assert Pow2(4) == 16;
    Pow2Add(4, 4);
    Pow2Add(8, 8);
    Pow2Add(8, 7);
    assert Pow2(7) == 128 by { assert Pow2(5) == 32; assert Pow2(6) == 64; }
    Pow2Add(15, 16);
    Pow2Add(16, 16);
  }

  lemma {:induction false} PowBIsPow2(n: nat)
    ensures PowB(n) == Pow2(32 * n)
  {
    if n > 0 {
      PowBIsPow2(n - 1);
      Pow2Of32();
      Pow2Add(32, 32 * (n - 1));
    }
  }

  // --------------------------------------------------------- powers of any number

  function Pow(b: int, e: nat): int {
    if e == 0 then 1 else b * Pow(b, e - 1)
  }

  lemma {:induction false} PowAdd(b: int, x: nat, y: nat)
    ensures Pow(b, x + y) == Pow(b, x) * Pow(b, y)
  {
    if x > 0 {
      PowAdd(b, x - 1, y);
      assert b * (Pow(b, x - 1) * Pow(b, y)) == (b * Pow(b, x - 1)) * Pow(b, y);
    }
  }

  lemma {:induction false} PowPositive(s: int, k: nat)
    requires s >= 0
    ensures Pow(s, k) >= 0 && (s > 0 ==> Pow(s, k) > 0)
  {
    if k > 0 {
      PowPositive(s, k - 1);
      MulNonNeg(s, Pow(s, k - 1));
      if s > 0 { MulStrict(0, s, Pow(s, k - 1)); }
    }
  }

  function PowNat(s: nat, k: nat): (p: nat)
    ensures p == Pow(s, k)
  {
    PowPositive(s, k);
    Pow(s, k)
  }

  lemma {:induction false} PowMono(s: int, t: int, k: nat)
    requires 0 <= s <= t
    ensures Pow(s, k) <= Pow(t, k)
    ensures s < t && k > 0 ==> Pow(s, k) < Pow(t, k)
  {
    if k > 0 {
      PowMono(s, t, k - 1);
      PowPositive(s, k - 1);
      PowPositive(t, k - 1);
      MulMono(s, t, Pow(t, k - 1));
      MulMono(Pow(s, k - 1), Pow(t, k - 1), s);
      if s < t { MulStrict(s, t, Pow(t, k - 1)); }
    }
  }

  // ------------------------------------------------------------------ shifts

  /** The values every carry loop starts from. */
  lemma EmptyValues()
    ensures forall s: seq<Limb> {:trigger Val(s)} :: |s| == 0 ==> Val(s) == 0
    ensures forall x: int {:trigger Shift(x, 0)} :: Shift(x, 0) == x
    ensures PowB(0) == 1
  {
  }

  lemma {:induction false} ShiftAdd(x: int, y: int, n: nat)
    ensures Shift(x + y, n) == Shift(x, n) + Shift(y, n)
    ensures Shift(x - y, n) == Shift(x, n) - Shift(y, n)
  {
    if n > 0 {
      ShiftAdd(x, y, n - 1);
    }
  }

  lemma {:induction false} ShiftNext(x: int, n: nat)
    ensures Shift(B * x, n) == Shift(x, n + 1)
  {
    if n > 0 {
      ShiftNext(x, n - 1);
    }
  }

  lemma {:induction false} ShiftIsMul(x: int, n: nat)
    ensures Shift(x, n) == x * PowB(n)
  {
    if n > 0 {
      ShiftIsMul(x, n - 1);
      assert B * (x * PowB(n - 1)) == x * (B * PowB(n - 1));
    }
  }

  lemma {:induction false} ShiftMono(x: int, y: int, n: nat)
    ensures x <= y ==> Shift(x, n) <= Shift(y, n)
    ensures x < y ==> Shift(x, n) < Shift(y, n)
  {
    if n > 0 {
      ShiftMono(x, y, n - 1);
    }
  }

  lemma {:induction false} ShiftZero(n: nat)
    ensures Shift(0, n) == 0
  {
    if n > 0 {
      ShiftZero(n - 1);
    }
  }

  lemma {:induction false} ShiftOne(n: nat)
    ensures Shift(1, n) == PowB(n)
  {
    if n > 0 {
      ShiftOne(n - 1);
    }
  }

  lemma {:induction false} ShiftShift(x: int, a: nat, b: nat)
    ensures Shift(Shift(x, a), b) == Shift(x, a + b)
  {
    if b > 0 {
      ShiftShift(x, a, b - 1);
    }
  }

  lemma {:induction false} ShiftTimes(k: int, x: int, n: nat)
    ensures Shift(k * x, n) == k * Shift(x, n)
  {
    if n > 0 {
      ShiftTimes(k, x, n - 1);
      assert B * (k * Shift(x, n - 1)) == k * (B * Shift(x, n - 1));
    }
  }

  // ------------------------------------------------------------------ values

  lemma {:induction false} ValSnoc(s: seq<Limb>, x: Limb)
    ensures Val(s + [x]) == Val(s) + Shift(x, |s|)
  {
    if |s| == 0 {
      assert s + [x] == [x];
    } else {
      ValSnoc(s[1..], x);
      assert (s + [x])[1..] == s[1..] + [x];
    }
  }

  lemma ValPrefixNext(s: seq<Limb>, i: nat)
    requires i < |s|
    ensures Val(s[..i + 1]) == Val(s[..i]) + Shift(s[i], i)
  {
    assert s[..i + 1] == s[..i] + [s[i]];
    ValSnoc(s[..i], s[i]);
  }

  lemma {:induction false} ValAppend(s: seq<Limb>, t: seq<Limb>)
    ensures Val(s + t) == Val(s) + Shift(Val(t), |s|)
  {
    if |s| == 0 {
      assert s + t == t;
    } else {
      ValAppend(s[1..], t);
      assert (s + t)[1..] == s[1..] + t;
    }
  }

  lemma ValSplit(s: seq<Limb>, i: nat)
    requires i <= |s|
    ensures Val(s) == Val(s[..i]) + Shift(Val(s[i..]), i)
  {
    var low, high := s[..i], s[i..];
    assert s == low + high;
    ValAppend(low, high);
  }

  lemma {:induction false} ValBound(s: seq<Limb>)
    ensures Val(s) < PowB(|s|)
  {
    if |s| > 0 {
      ValBound(s[1..]);
    }
  }

  lemma {:induction false} ValInjective(s: seq<Limb>, t: seq<Limb>)
    requires |s| == |t| && Val(s) == Val(t)
    ensures s == t
  {
    if |s| > 0 {
      assert s[0] == t[0] && Val(s[1..]) == Val(t[1..]);
      ValInjective(s[1..], t[1..]);
      assert s == [s[0]] + s[1..];
      assert t == [t[0]] + t[1..];
    }
  }

  lemma ValLower(s: seq<Limb>)
    requires |s| > 0 && s[|s| - 1] != 0
    ensures Val(s) >= PowB(|s| - 1)
  {
    var n := |s| - 1;
    ValPrefixNext(s, n);
    assert s[..n + 1] == s;
    ShiftMono(1, s[n], n);
    ShiftOne(n);
  }

  /** Two normalised vectors of the same value are the same vector. */
  lemma NormalizedUnique(s: seq<Limb>, t: seq<Limb>)
    requires Normalized(s) && Normalized(t) && Val(s) == Val(t)
    ensures s == t
  {
    if |s| < |t| {
      LongerIsLarger(s, t);
    } else if |t| < |s| {
      LongerIsLarger(t, s);
    }
    ValInjective(s, t);
  }

  lemma LongerIsLarger(s: seq<Limb>, t: seq<Limb>)
    requires |s| < |t| && t[|t| - 1] != 0
    ensures Val(s) < Val(t)
  {
    ValBound(s);
    ValLower(t);
    PowBMono(|s|, |t| - 1);
  }

  lemma {:induction false} ValZeros(s: seq<Limb>)
    requires forall i :: 0 <= i < |s| ==> s[i] == 0
    ensures Val(s) == 0
  {
    if |s| > 0 {
      ValZeros(s[1..]);
    }
  }

  /** Dropping high zero limbs keeps the value. */
  lemma ValTrim(s: seq<Limb>, n: nat)
    requires n <= |s| && forall i :: n <= i < |s| ==> s[i] == 0
    ensures Val(s[..n]) == Val(s)
  {
    ValSplit(s, n);
    ValZeros(s[n..]);
    ShiftZero(n);
  }

  lemma ValSingle(x: Limb)
    ensures Val([x]) == x
  {
    assert [x][1..] == [];
  }

  lemma ValPair(x: Limb, y: Limb)
    ensures Val([x, y]) == x + B * y
  {
    assert [x, y][1..] == [y];
    ValSingle(y);
  }

  lemma WrapSum(a: Limb, b: Limb)
    ensures (a + b) % B == if a + b >= B then a + b - B else a + b
  {
  }

  lemma WrapDiff(a: Limb, b: Limb)
    ensures (a - b) % B == if a >= b then a - b else a - b + B
  {
  }

  /** A value that needs all the limbs has a nonzero top limb. */
  lemma TopLimbNonZero(s: seq<Limb>)
    requires |s| > 0 && Val(s) >= PowB(|s| - 1)
    ensures s[|s| - 1] != 0
  {
    var n := |s| - 1;
    ValPrefixNext(s, n);
    assert s[..n + 1] == s;
    ValBound(s[..n]);
    ShiftZero(n);
  }
}
