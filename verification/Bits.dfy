/** Bitwise operators on unsigned words, bit by bit. */
module Bits {
  import opened Limbs

  datatype LogicOp = And | Or | Xor {
    predicate Eval(a: bool, b: bool) {
      match this
      case And => a && b
      case Or => a || b
      case Xor => a != b
    }
  }

  predicate Bit(x: nat, i: nat) {
    x / Pow2(i) % 2 == 1
  }

  /** `x & y`, `x | y`, `x ^ y` on words of any width. */
  function Bitwise(op: LogicOp, x: nat, y: nat): (r: nat)
    decreases x + y
  {
    if x == 0 && y == 0 then 0
    else
      (if op.Eval(x % 2 == 1, y % 2 == 1) then 1 else 0) + 2 * Bitwise(op, x / 2, y / 2)
  }

  lemma BitZero(x: nat)
    ensures Bit(x, 0) == (x % 2 == 1)
  {
    assert Pow2(0) == 1;
  }

  lemma DivDiv(x: nat, a: nat, b: nat)
    requires a > 0 && b > 0
    ensures a * b > 0 && x / a / b == x / (a * b)
  {
    var q, r := x / a, x % a;
    var q2, r2 := q / b, q % b;
    assert a * b > 0 by { MulStrict(0, a, b); }
    var r3 := a * r2 + r;
    assert x == q2 * (a * b) + r3;
    assert 0 <= r3 < a * b by {
      MulMono(r2, b - 1, a);
      MulNonNeg(a, r2);
    }
    DivModUnique(x, a * b, q2, r3);
  }

  lemma BitShift(x: nat, i: nat)
    ensures Bit(x, i + 1) == Bit(x / 2, i)
  {
    DivDiv(x, 2, Pow2(i));
  }

  lemma {:induction false} BitwiseBit(op: LogicOp, x: nat, y: nat, i: nat)
    ensures Bit(Bitwise(op, x, y), i) == op.Eval(Bit(x, i), Bit(y, i))
  {
    var r := Bitwise(op, x, y);
    if x == 0 && y == 0 {
      assert forall p: nat :: p > 0 ==> 0 / p == 0;
    } else if i == 0 {
      BitZero(x);
      BitZero(y);
      BitZero(r);
    } else {
      BitShift(x, i - 1);
      BitShift(y, i - 1);
      BitShift(r, i - 1);
      BitwiseBit(op, x / 2, y / 2, i - 1);
    }
  }

  lemma {:induction false} BitwiseBound(op: LogicOp, x: nat, y: nat, n: nat)
    requires x < Pow2(n) && y < Pow2(n)
    ensures Bitwise(op, x, y) < Pow2(n)
  {
    if n > 0 && !(x == 0 && y == 0) {
      BitwiseBound(op, x / 2, y / 2, n - 1);
    }
  }

  /** An `|` of a multiple of 2^k with something below 2^k is a sum. */
  lemma {:induction false} OrDisjoint(x: nat, y: nat, k: nat)
    requires x % Pow2(k) == 0 && y < Pow2(k)
    ensures Bitwise(Or, x, y) == x + y
  {
    if k == 0 {
      OrZero(x);
    } else if !(x == 0 && y == 0) {
      var p := Pow2(k - 1);
      DivModFacts(x, Pow2(k));
      assert x == 2 * (x / Pow2(k) * p);
      assert x / 2 == x / Pow2(k) * p;
      DivModUnique(x / 2, p, x / Pow2(k), 0);
      OrDisjoint(x / 2, y / 2, k - 1);
    }
  }

  lemma {:induction false} OrZero(x: nat)
    ensures Bitwise(Or, x, 0) == x
  {
    if x > 0 {
      OrZero(x / 2);
    }
  }

  // ------------------------------------------------------- trailing zeros, powers of two

  /** The number of trailing zero bits. */
  function TrailingZeros(x: nat): nat
    requires x > 0
  {
    if x % 2 == 1 then 0 else 1 + TrailingZeros(x / 2)
  }

  lemma {:induction false} TrailingZerosFactor(x: nat)
    requires x > 0
    ensures var p := Pow2(TrailingZeros(x)); x == x / p * p && x / p % 2 == 1
  {
    if x % 2 == 1 {
      assert x / 1 * 1 == x;
    } else {
      TrailingZerosFactor(x / 2);
      var p := Pow2(TrailingZeros(x / 2));
      var o := x / 2 / p;
      assert x == o * (2 * p);
      DivModUnique(x, 2 * p, o, 0);
    }
  }

  lemma {:induction false} AndSelf(x: nat)
    ensures Bitwise(And, x, x) == x
  {
    if x > 0 {
      AndSelf(x / 2);
    }
  }

  /** `x & (x - 1)` is zero exactly for powers of two. */
  lemma {:induction false} PowerOfTwoTest(x: nat)
    requires x > 0
    ensures Bitwise(And, x, x - 1) == 0 <==> x == Pow2(TrailingZeros(x))
  {
    if x % 2 == 1 {
      assert (x - 1) / 2 == x / 2;
      AndSelf(x / 2);
    } else {
      assert (x - 1) / 2 == x / 2 - 1;
      PowerOfTwoTest(x / 2);
    }
  }

  /** `x & -x` in n bits is the lowest set bit. */
  lemma {:induction false} LowestBit(x: nat, n: nat)
    requires 0 < x < Pow2(n)
    ensures Bitwise(And, x, Pow2(n) - x) == Pow2(TrailingZeros(x))
  {
    var y := Pow2(n) - x;
    assert Pow2(n) == 2 * Pow2(n - 1);
    if x % 2 == 1 {
      assert y / 2 == Pow2(n - 1) - 1 - x / 2;
      AndComplement(x / 2, n - 1);
    } else {
      assert y / 2 == Pow2(n - 1) - x / 2;
      LowestBit(x / 2, n - 1);
    }
  }

  lemma {:induction false} AndComplement(x: nat, n: nat)
    requires x < Pow2(n)
    ensures Bitwise(And, x, Pow2(n) - 1 - x) == 0
  {
    if n > 0 {
      var y := Pow2(n) - 1 - x;
      assert y / 2 == Pow2(n - 1) - 1 - x / 2;
      AndComplement(x / 2, n - 1);
    }
  }

  /** `x & (2^k - 1)` keeps the low k bits. */
  lemma {:induction false} AndMask(x: nat, k: nat)
    ensures Bitwise(And, x, Pow2(k) - 1) == x % Pow2(k)
    decreases k
  {
    hide Bitwise;
    if k == 0 {
      AndZero(x);
    } else {
      AndMask(x / 2, k - 1);
      MaskTwice(x, Pow2(k - 1));
      ModTwice(x, Pow2(k - 1));
      assert Pow2(k) == 2 * Pow2(k - 1);
    }
  }

  lemma MaskTwice(x: nat, p: nat)
    requires p > 0
    ensures Bitwise(And, x, 2 * p - 1) == x % 2 + 2 * Bitwise(And, x / 2, p - 1)
  {
    assert (2 * p - 1) / 2 == p - 1 && (2 * p - 1) % 2 == 1;
  }

  lemma ModTwice(x: nat, p: nat)
    requires p > 0
    ensures x % (2 * p) == 2 * (x / 2 % p) + x % 2
  {
    var q, r := x / 2 / p, x / 2 % p;
    DivModFacts(x / 2, p);
    assert q * (2 * p) == 2 * (q * p);
    DivModUnique(x, 2 * p, q, 2 * r + x % 2);
  }

  lemma {:induction false} AndZero(x: nat)
    ensures Bitwise(And, x, 0) == 0
  {
    if x > 0 {
      AndZero(x / 2);
    }
  }

  /** The 32-bit operator on two limbs. */
  function LimbOp(op: LogicOp, x: Limb, y: Limb): (r: Limb)
  {
    Pow2Of32();
    BitwiseBound(op, x, y, 32);
    Bitwise(op, x, y)
  }

  lemma LimbOpBit(op: LogicOp, x: Limb, y: Limb, i: nat)
    ensures Bit(LimbOp(op, x, y), i) == op.Eval(Bit(x, i), Bit(y, i))
  {
    BitwiseBit(op, x, y, i);
  }

  function LimbAnd(x: Limb, y: Limb): (r: Limb) {
    LimbOp(And, x, y)
  }

  function LimbOr(x: Limb, y: Limb): (r: Limb) {
    LimbOp(Or, x, y)
  }

  /** `x ^ 0` and `x ^ -1` on a limb. */
  lemma XorMask(x: Limb, ones: bool)
    ensures LimbOp(Xor, x, if ones then B - 1 else 0) == if ones then B - 1 - x else x
  {
    Pow2Of32();
    if ones {
      XorOnes(x, 32);
    } else {
      XorZero(x);
    }
  }

  lemma {:induction false} XorOnes(x: nat, n: nat)
    requires x < Pow2(n)
    ensures Bitwise(Xor, x, Pow2(n) - 1) == Pow2(n) - 1 - x
  {
    if n > 0 {
      assert (Pow2(n) - 1) / 2 == Pow2(n - 1) - 1;
      XorOnes(x / 2, n - 1);
    }
  }

  lemma {:induction false} XorZero(x: nat)
    ensures Bitwise(Xor, x, 0) == x
  {
    if x > 0 {
      XorZero(x / 2);
    }
  }

  lemma LimbOrDisjoint(x: Limb, y: Limb, c: nat)
    requires x % Pow2(c) == 0 && y < Pow2(c)
    ensures LimbOr(x, y) == x + y
  {
    OrDisjoint(x, y, c);
  }

  lemma {:induction false} OrCommutes(x: nat, y: nat)
    ensures Bitwise(Or, x, y) == Bitwise(Or, y, x)
    decreases x + y
  {
    if !(x == 0 && y == 0) {
      OrCommutes(x / 2, y / 2);
    }
  }

  /** `x << c` and `x >> c` on a limb. */
  function Shl(x: Limb, c: nat): Limb {
    x * Pow2(c) % B
  }

  function Shr(x: Limb, c: nat): (r: Limb) {
    DivShrinks(x, Pow2(c));
    x / Pow2(c)
  }

  lemma DivShrinks(x: nat, d: nat)
    requires d > 0
    ensures 0 <= x / d <= x
  {
    DivModFacts(x, d);
    if x / d > x {
      MulMono(1, d, x / d);
    }
  }

  lemma ShiftSplit(x: nat, p: nat, q: nat)
    requires p > 0 && q > 0 && p * q == B && x < B
    ensures x * p % B == x % q * p && x * p / B == x / q
    ensures x % q * p % p == 0 && x / q < p
  {
    var h, l := x / q, x % q;
    DivModFacts(x, q);
    assert x * p == h * B + l * p by {
      assert h * q * p == h * (p * q);
    }
    assert 0 <= l * p < B by { MulStrict(l, q, p); MulNonNeg(l, p); }
    DivModUnique(x * p, B, h, l * p);
    DivModUnique(l * p, p, l, 0);
    if h >= p {
      MulMono(p, h, q);
    }
  }

  /** Shifting left by c splits a limb into the part that stays and the part that leaves. */
  lemma ShlShr(x: Limb, c: nat)
    requires 1 <= c < 32
    ensures x * Pow2(c) == Shl(x, c) + B * Shr(x, 32 - c)
    ensures Shl(x, c) % Pow2(c) == 0
    ensures Shr(x, 32 - c) < Pow2(c)
  {
    Pow2Of32();
    Pow2Add(c, 32 - c);
    ShiftSplit(x, Pow2(c), Pow2(32 - c));
    DivModFacts(x * Pow2(c), B);
  }
}
