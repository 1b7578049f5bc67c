/** The packet-identifier generator of the MQTT client (mqtt.c, __mqtt_next_pid): a 16-bit
    linear feedback shift register whose cycle runs through all nonzero values.

    The step is linear over the two-element field; its powers are handled as polynomials of
    degree below 16, modulo the polynomial that the step satisfies. */
module MqttPid {
  import opened Limbs

  type PacketId = bv16

  // ------------------------------------------------------------------ operations on words

  function Plus(a: bv16, b: bv16): bv16 {
    a ^ b
  }

  function Select(p: bool, x: bv16): bv16 {
    if p then x else 0
  }

  function ShiftOne(a: bv16): bv16 {
    a >> 1
  }

  predicate LowBit(a: bv16) {
    a & 1 == 1
  }

  /** One shift of the register: taps 0xB400. */
  function Step(s: bv16): bv16 {
    Plus(ShiftOne(s), Select(LowBit(s), 0xB400))
  }

  function Iter(k: nat, s: bv16): bv16 {
    if k == 0 then s else Step(Iter(k - 1, s))
  }

  lemma IterStart(s: bv16)
    ensures Iter(0, s) == s
  {
  }

  lemma IterNext(k: nat, s: bv16)
    ensures Iter(k + 1, s) == Step(Iter(k, s))
  {
    hide Step;
  }

  lemma PlusIsXor(a: bv16, b: bv16)
    ensures Plus(a, b) == a ^ b
  {
  }

  lemma XorRules(a: bv16, b: bv16)
    ensures a ^ a == 0 && a ^ 0 == a && 0 ^ a == a && a ^ b == b ^ a
  {
  }

  lemma PlusRules(a: bv16, b: bv16)
    ensures Plus(a, a) == 0 && Plus(a, 0) == a && Plus(0, a) == a && Plus(a, b) == Plus(b, a)
  {
    XorRules(a, b);
  }

  lemma XorFour(a: bv16, b: bv16, c: bv16, d: bv16, ab: bv16, cd: bv16, ac: bv16, bd: bv16)
    requires ab == a ^ b && cd == c ^ d && ac == a ^ c && bd == b ^ d
    ensures ab ^ cd == ac ^ bd
  {
  }

  lemma PlusFour(a: bv16, b: bv16, c: bv16, d: bv16)
    ensures Plus(Plus(a, b), Plus(c, d)) == Plus(Plus(a, c), Plus(b, d))
  {
    hide Plus;
    PlusIsXor(a, b);
    PlusIsXor(c, d);
    PlusIsXor(a, c);
    PlusIsXor(b, d);
    PlusIsXor(Plus(a, b), Plus(c, d));
    PlusIsXor(Plus(a, c), Plus(b, d));
    XorFour(a, b, c, d, Plus(a, b), Plus(c, d), Plus(a, c), Plus(b, d));
  }

  lemma PlusZeroEqual(a: bv16, b: bv16)
    requires Plus(a, b) == 0
    ensures a == b
  {
  }

  lemma XorShift(a: bv16, b: bv16)
    ensures (a ^ b) >> 1 == (a >> 1) ^ (b >> 1)
  {
  }

  lemma PlusShift(a: bv16, b: bv16)
    ensures ShiftOne(Plus(a, b)) == Plus(ShiftOne(a), ShiftOne(b))
  {
    XorShift(a, b);
  }

  lemma XorLowBit(s: bv16, t: bv16)
    ensures ((s ^ t) & 1 == 1) == ((s & 1 == 1) != (t & 1 == 1))
  {
  }

  lemma PlusLowBit(a: bv16, b: bv16)
    ensures LowBit(Plus(a, b)) == (LowBit(a) != LowBit(b))
  {
    XorLowBit(a, b);
  }

  lemma PlusSelected(p: bool, q: bool, x: bv16)
    ensures Select(p != q, x) == Plus(Select(p, x), Select(q, x))
  {
    hide Plus;
    PlusRules(x, x);
    PlusRules(0, 0);
  }

  lemma StepParts(s: bv16)
    ensures Step(s) == Plus(ShiftOne(s), Select(LowBit(s), 0xB400))
  {
    hide Plus, ShiftOne, Select, LowBit;
  }

  lemma StepZero()
    ensures Step(0) == 0 && ShiftOne(0) == 0 && !LowBit(0)
  {
  }

  lemma StepPlus(s: bv16, t: bv16)
    ensures Step(Plus(s, t)) == Plus(Step(s), Step(t))
  {
    hide Step, Plus, ShiftOne, LowBit, Select;
    StepParts(s);
    StepParts(t);
    StepParts(Plus(s, t));
    PlusShift(s, t);
    PlusLowBit(s, t);
    PlusSelected(LowBit(s), LowBit(t), 0xB400);
    PlusFour(ShiftOne(s), ShiftOne(t), Select(LowBit(s), 0xB400), Select(LowBit(t), 0xB400));
  }

  lemma ShiftOneBits(s: bv16)
    ensures s >> 1 != 0xB400 && (s >> 1 == 0 && s & 1 != 1 ==> s == 0)
  {
  }

  lemma ShiftOneFacts(s: bv16)
    ensures ShiftOne(s) != 0xB400 && (ShiftOne(s) == 0 && !LowBit(s) ==> s == 0)
  {
    ShiftOneBits(s);
  }

  lemma StepNonZero(s: bv16)
    requires Step(s) == 0
    ensures s == 0
  {
    hide Plus, ShiftOne, LowBit;
    ShiftOneFacts(s);
    PlusZeroEqual(ShiftOne(s), Select(LowBit(s), 0xB400));
  }

  lemma StepInjective(s: bv16, t: bv16)
    requires Step(s) == Step(t)
    ensures s == t
  {
    hide Step, Plus;
    StepPlus(s, t);
    PlusRules(Step(s), Step(s));
    StepNonZero(Plus(s, t));
    PlusZeroEqual(s, t);
  }

  lemma {:induction false} IterPlus(k: nat, s: bv16, t: bv16)
    ensures Iter(k, Plus(s, t)) == Plus(Iter(k, s), Iter(k, t))
  {
    hide Step, Plus;
    if k > 0 {
      IterPlus(k - 1, s, t);
      StepPlus(Iter(k - 1, s), Iter(k - 1, t));
    }
  }

  lemma {:induction false} IterAdd(j: nat, k: nat, s: bv16)
    ensures Iter(j + k, s) == Iter(j, Iter(k, s))
  {
    hide Step;
    if j > 0 {
      IterAdd(j - 1, k, s);
    }
  }

  lemma {:induction false} IterInjective(k: nat, s: bv16, t: bv16)
    requires Iter(k, s) == Iter(k, t)
    ensures s == t
  {
    hide Step;
    if k > 0 {
      StepInjective(Iter(k - 1, s), Iter(k - 1, t));
      IterInjective(k - 1, s, t);
    }
  }

  lemma IterOne(s: bv16)
    ensures Iter(1, s) == Step(s) && Iter(0, s) == s
  {
    hide Step;
    assert Iter(1, s) == Step(Iter(0, s));
  }

  lemma {:induction false} IterZero(k: nat)
    ensures Iter(k, 0) == 0
  {
    hide Step;
    if k > 0 {
      IterZero(k - 1);
      StepZero();
    }
  }

  lemma StepIter(k: nat, s: bv16)
    ensures Iter(k, Step(s)) == Step(Iter(k, s)) == Iter(k + 1, s)
  {
    hide Iter, Step;
    IterAdd(k, 1, s);
    IterAdd(1, k, s);
    IterOne(s);
    IterOne(Iter(k, s));
  }

  // ----------------------------------------------- the step satisfies its polynomial

  /** x^16 + x^5 + x^3 + x^2 + 1, with the step for x, applied to a state. */
  function Defect(s: bv16): bv16 {
    Plus(Plus(Iter(16, s), s), Plus(Iter(2, s), Plus(Iter(3, s), Iter(5, s))))
  }

  lemma DefectPlus(s: bv16, t: bv16)
    ensures Defect(Plus(s, t)) == Plus(Defect(s), Defect(t))
  {
    hide Iter, Plus;
    IterPlus(16, s, t);
    IterPlus(2, s, t);
    IterPlus(3, s, t);
    IterPlus(5, s, t);
    PlusFour(Iter(3, s), Iter(3, t), Iter(5, s), Iter(5, t));
    PlusFour(Iter(2, s), Iter(2, t), Plus(Iter(3, s), Iter(5, s)), Plus(Iter(3, t), Iter(5, t)));
    PlusFour(Iter(16, s), Iter(16, t), s, t);
    PlusFour(Plus(Iter(16, s), s), Plus(Iter(16, t), t), Plus(Iter(2, s), Plus(Iter(3, s), Iter(5, s))),
             Plus(Iter(2, t), Plus(Iter(3, t), Iter(5, t))));
  }

  lemma DefectStep(s: bv16)
    ensures Defect(Step(s)) == Step(Defect(s))
  {
    hide Iter, Plus, Step;
    StepIter(16, s);
    StepIter(2, s);
    StepIter(3, s);
    StepIter(5, s);
    StepPlus(Iter(3, s), Iter(5, s));
    StepPlus(Iter(2, s), Plus(Iter(3, s), Iter(5, s)));
    StepPlus(Iter(16, s), s);
    StepPlus(Plus(Iter(16, s), s), Plus(Iter(2, s), Plus(Iter(3, s), Iter(5, s))));
  }

  lemma DefectOne()
    ensures Defect(1) == 0
  {
    assert Iter(2, 1) == 0x5A00 && Iter(3, 1) == 0x2D00;
    assert Iter(5, 1) == 0x0B40;
    assert Iter(8, 1) == 0x0168;
    assert Iter(16, 1) == 0x7C41;
  }

  lemma DefectNought()
    ensures Defect(0) == 0
  {
    hide Iter, Plus;
    IterZero(16);
    IterZero(2);
    IterZero(3);
    IterZero(5);
    PlusRules(0, 0);
  }

  /** n shifts empty the word. */
  predicate Within(s: bv16, n: nat)
    decreases n
  {
    if n == 0 then s == 0 else Within(ShiftOne(s), n - 1)
  }

  lemma OneWord()
    ensures LowBit(1) && ShiftOne(1) == 0
  {
  }

  lemma DropLowBit(s: bv16)
    requires LowBit(s)
    ensures !LowBit(Plus(s, 1)) && ShiftOne(Plus(s, 1)) == ShiftOne(s) && Plus(Plus(s, 1), 1) == s
  {
    hide Plus, LowBit, ShiftOne;
    OneWord();
    PlusLowBit(s, 1);
    PlusShift(s, 1);
    PlusRules(ShiftOne(s), 0);
    PlusFour(s, 1, 0, 1);
    PlusRules(s, 0);
    PlusRules(1, 0);
  }

  lemma WithinStep(s: bv16, n: nat)
    requires n > 0
    ensures Within(s, n) == Within(ShiftOne(s), n - 1)
  {
  }

  lemma {:induction false} DefectWithin(s: bv16, n: nat)
    requires Within(s, n)
    ensures Defect(s) == 0
    decreases n
  {
    hide Defect, Plus, Step, ShiftOne, LowBit, Select;
    if n == 0 {
      DefectNought();
    } else {
      WithinStep(s, n);
      DefectWithin(ShiftOne(s), n - 1);
      if LowBit(s) {
        DropLowBit(s);
        DefectEven(Plus(s, 1));
        DefectPlus(Plus(s, 1), 1);
        DefectOne();
        PlusRules(0, 0);
      } else {
        DefectEven(s);
      }
    }
  }

  lemma DefectEven(s: bv16)
    requires !LowBit(s) && Defect(ShiftOne(s)) == 0
    ensures Defect(s) == 0
  {
    hide Defect, Plus, Step, ShiftOne, LowBit;
    StepParts(s);
    PlusRules(ShiftOne(s), 0);
    DefectStep(s);
    StepNonZero(Defect(s));
  }

  function ShiftFour(s: bv16): bv16 {
    ShiftOne(ShiftOne(ShiftOne(ShiftOne(s))))
  }

  lemma WithinFour(s: bv16, n: nat)
    requires n >= 4
    ensures Within(s, n) == Within(ShiftFour(s), n - 4)
  {
    hide Within, ShiftOne;
    WithinStep(s, n);
    WithinStep(ShiftOne(s), n - 1);
    WithinStep(ShiftOne(ShiftOne(s)), n - 2);
    WithinStep(ShiftOne(ShiftOne(ShiftOne(s))), n - 3);
  }

  lemma SixteenShifts(s: bv16, t: bv16, u: bv16, v: bv16, w: bv16)
    requires t == s >> 1 >> 1 >> 1 >> 1 && u == t >> 1 >> 1 >> 1 >> 1
    requires v == u >> 1 >> 1 >> 1 >> 1 && w == v >> 1 >> 1 >> 1 >> 1
    ensures w == 0
  {
  }

  lemma ShiftFourIs(s: bv16)
    ensures ShiftFour(s) == s >> 1 >> 1 >> 1 >> 1
  {
  }

  lemma WithinSixteen(s: bv16)
    ensures Within(s, 16)
  {
    hide ShiftFour, Within, ShiftOne;
    var t := ShiftFour(s);
    var u := ShiftFour(t);
    var v := ShiftFour(u);
    var w := ShiftFour(v);
    ShiftFourIs(s);
    ShiftFourIs(t);
    ShiftFourIs(u);
    ShiftFourIs(v);
    SixteenShifts(s, t, u, v, w);
    WithinFour(s, 16);
    WithinFour(t, 12);
    WithinFour(u, 8);
    WithinFour(v, 4);
    WithinNone();
  }

  lemma WithinNone()
    ensures Within(0, 0)
  {
  }

  /** Every state satisfies the polynomial. */
  lemma DefectZero(s: bv16)
    ensures Defect(s) == 0
  {
    WithinSixteen(s);
    DefectWithin(s, 16);
  }

  // -------------------------------------------------- polynomials as 16-bit words

  /** The polynomial with coefficient word a, with the step for x, applied to a state. */
  function Apply(a: bv16, s: bv16): bv16
    decreases a
  {
    if a == 0 then 0 else Plus(Step(Apply(ShiftOne(a), s)), Select(LowBit(a), s))
  }

  predicate TopBit(a: bv16) {
    a & 0x8000 == 0x8000
  }

  function ShiftLeft(a: bv16): bv16 {
    a << 1
  }

  /** Multiplication by x, with x^16 replaced by x^5 + x^3 + x^2 + 1. */
  function TimesX(a: bv16): bv16 {
    (a << 1) ^ (if a & 0x8000 == 0x8000 then 0x2D else 0)
  }

  lemma TimesXTop(a: bv16)
    requires a & 0x8000 == 0x8000
    ensures TimesX(a) == Plus(ShiftLeft(a), 0x2D) && TopBit(a)
  {
  }

  lemma XorNought(a: bv16)
    ensures a ^ 0 == a
  {
  }

  lemma TimesXLow(a: bv16)
    requires a & 0x8000 != 0x8000
    ensures TimesX(a) == ShiftLeft(a) && !TopBit(a)
  {
    XorNought(a << 1);
  }

  lemma TimesXParts(a: bv16)
    ensures TimesX(a) == Plus(ShiftLeft(a), Select(TopBit(a), 0x2D))
  {
    hide TimesX, Plus, ShiftLeft, TopBit;
    PlusRules(ShiftLeft(a), 0);
    if a & 0x8000 == 0x8000 {
      TimesXTop(a);
    } else {
      TimesXLow(a);
    }
  }

  /** The product of two polynomials, the second of degree below n. */
  function Mul(a: bv16, b: bv16, n: nat): bv16
    decreases n
  {
    if n == 0 then 0 else Plus(TimesX(Mul(a, ShiftOne(b), n - 1)), Select(LowBit(b), a))
  }

  lemma ApplyUnfold(a: bv16, s: bv16)
    ensures Apply(a, s) == Plus(Step(Apply(ShiftOne(a), s)), Select(LowBit(a), s))
    ensures Apply(0, s) == 0
  {
    hide Plus, Step, ShiftOne, LowBit;
    StepZero();
    PlusRules(0, 0);
  }

  // ----------------------------------------------------------- products of given polynomials

  function ShiftBy(b: bv16, i: nat): bv16 {
    if i == 0 then b else ShiftOne(ShiftBy(b, i - 1))
  }

  /** Coefficient k of a word. */
  predicate Coefficient(b: bv16, k: nat) {
    if k == 0 then b & 0x1 == 0x1
    else if k == 1 then b & 0x2 == 0x2
    else if k == 2 then b & 0x4 == 0x4
    else if k == 3 then b & 0x8 == 0x8
    else if k == 4 then b & 0x10 == 0x10
    else if k == 5 then b & 0x20 == 0x20
    else if k == 6 then b & 0x40 == 0x40
    else if k == 7 then b & 0x80 == 0x80
    else if k == 8 then b & 0x100 == 0x100
    else if k == 9 then b & 0x200 == 0x200
    else if k == 10 then b & 0x400 == 0x400
    else if k == 11 then b & 0x800 == 0x800
    else if k == 12 then b & 0x1000 == 0x1000
    else if k == 13 then b & 0x2000 == 0x2000
    else if k == 14 then b & 0x4000 == 0x4000
    else if k == 15 then b & 0x8000 == 0x8000
    else false
  }

  lemma CoefficientShift(b: bv16, k: nat)
    requires 0 < k < 16
    ensures Coefficient(b, k) == Coefficient(ShiftOne(b), k - 1)
  {
    hide Coefficient, ShiftOne;
    if k < 5 {
      CoefficientShift1(b);
    } else if k < 9 {
      CoefficientShift5(b);
    } else if k < 13 {
      CoefficientShift9(b);
    } else {
      CoefficientShift13(b);
    }
  }

  lemma MaskShift1(b: bv16, c: bv16)
    requires c == b >> 1
    ensures (b & 0x2 == 0x2) == (c & 0x1 == 0x1)
    ensures (b & 0x4 == 0x4) == (c & 0x2 == 0x2)
    ensures (b & 0x8 == 0x8) == (c & 0x4 == 0x4)
    ensures (b & 0x10 == 0x10) == (c & 0x8 == 0x8)
  {
  }

  lemma CoefficientShift1(b: bv16)
    ensures Coefficient(b, 1) == Coefficient(ShiftOne(b), 0)
    ensures Coefficient(b, 2) == Coefficient(ShiftOne(b), 1)
    ensures Coefficient(b, 3) == Coefficient(ShiftOne(b), 2)
    ensures Coefficient(b, 4) == Coefficient(ShiftOne(b), 3)
  {
    MaskShift1(b, ShiftOne(b));
  }

  lemma MaskShift5(b: bv16, c: bv16)
    requires c == b >> 1
    ensures (b & 0x20 == 0x20) == (c & 0x10 == 0x10)
    ensures (b & 0x40 == 0x40) == (c & 0x20 == 0x20)
    ensures (b & 0x80 == 0x80) == (c & 0x40 == 0x40)
    ensures (b & 0x100 == 0x100) == (c & 0x80 == 0x80)
  {
  }

  lemma CoefficientShift5(b: bv16)
    ensures Coefficient(b, 5) == Coefficient(ShiftOne(b), 4)
    ensures Coefficient(b, 6) == Coefficient(ShiftOne(b), 5)
    ensures Coefficient(b, 7) == Coefficient(ShiftOne(b), 6)
    ensures Coefficient(b, 8) == Coefficient(ShiftOne(b), 7)
  {
    MaskShift5(b, ShiftOne(b));
  }

  lemma MaskShift9(b: bv16, c: bv16)
    requires c == b >> 1
    ensures (b & 0x200 == 0x200) == (c & 0x100 == 0x100)
    ensures (b & 0x400 == 0x400) == (c & 0x200 == 0x200)
    ensures (b & 0x800 == 0x800) == (c & 0x400 == 0x400)
    ensures (b & 0x1000 == 0x1000) == (c & 0x800 == 0x800)
  {
  }

  lemma CoefficientShift9(b: bv16)
    ensures Coefficient(b, 9) == Coefficient(ShiftOne(b), 8)
    ensures Coefficient(b, 10) == Coefficient(ShiftOne(b), 9)
    ensures Coefficient(b, 11) == Coefficient(ShiftOne(b), 10)
    ensures Coefficient(b, 12) == Coefficient(ShiftOne(b), 11)
  {
    MaskShift9(b, ShiftOne(b));
  }

  lemma MaskShift13(b: bv16, c: bv16)
    requires c == b >> 1
    ensures (b & 0x2000 == 0x2000) == (c & 0x1000 == 0x1000)
    ensures (b & 0x4000 == 0x4000) == (c & 0x2000 == 0x2000)
    ensures (b & 0x8000 == 0x8000) == (c & 0x4000 == 0x4000)
  {
  }

  lemma CoefficientShift13(b: bv16)
    ensures Coefficient(b, 13) == Coefficient(ShiftOne(b), 12)
    ensures Coefficient(b, 14) == Coefficient(ShiftOne(b), 13)
    ensures Coefficient(b, 15) == Coefficient(ShiftOne(b), 14)
  {
    MaskShift13(b, ShiftOne(b));
  }

  lemma {:induction false} ShiftByInside(b: bv16, k: nat)
    requires k > 0
    ensures ShiftBy(b, k) == ShiftBy(ShiftOne(b), k - 1)
  {
    hide ShiftOne;
    if k > 1 {
      ShiftByInside(b, k - 1);
    }
  }

  lemma LowCoefficient(b: bv16)
    ensures Coefficient(b, 0) == LowBit(b)
  {
  }

  lemma {:induction false} CoefficientIs(b: bv16, k: nat)
    requires k < 16
    ensures Coefficient(b, k) == LowBit(ShiftBy(b, k))
    decreases k
  {
    hide ShiftOne, LowBit, Coefficient;
    if k == 0 {
      LowCoefficient(b);
    } else {
      CoefficientShift(b, k);
      ShiftByInside(b, k);
      CoefficientIs(ShiftOne(b), k - 1);
    }
  }

  /** r is the partial product after a coefficient of the second factor, r' the one before it. */
  predicate Stepped(a: bv16, bit: bool, r': bv16, r: bv16) {
    r == Plus(TimesX(r'), Select(bit, a))
  }

  lemma MulStepped(a: bv16, b: bv16, i: nat, bit: bool, r': bv16, r: bv16)
    requires i < 16 && Mul(a, ShiftBy(b, i + 1), 15 - i) == r' && Stepped(a, bit, r', r) && bit == LowBit(ShiftBy(b, i))
    ensures Mul(a, ShiftBy(b, i), 16 - i) == r
  {
    hide Plus, TimesX, Select, LowBit, ShiftOne;
  }

  lemma MulNone(a: bv16, b: bv16)
    ensures Mul(a, b, 0) == 0 && ShiftBy(b, 0) == b
  {
  }

  /** A product, by the partial products from the highest coefficient of b down. */
  lemma Product(a: bv16, b: bv16, r15: bv16, r14: bv16, r13: bv16, r12: bv16, r11: bv16,
                r10: bv16, r9: bv16, r8: bv16, r7: bv16, r6: bv16, r5: bv16,
                r4: bv16, r3: bv16, r2: bv16, r1: bv16, r0: bv16)
    requires Stepped(a, Coefficient(b, 15), 0, r15)
    requires Stepped(a, Coefficient(b, 14), r15, r14)
    requires Stepped(a, Coefficient(b, 13), r14, r13)
    requires Stepped(a, Coefficient(b, 12), r13, r12)
    requires Stepped(a, Coefficient(b, 11), r12, r11)
    requires Stepped(a, Coefficient(b, 10), r11, r10)
    requires Stepped(a, Coefficient(b, 9), r10, r9)
    requires Stepped(a, Coefficient(b, 8), r9, r8)
    requires Stepped(a, Coefficient(b, 7), r8, r7)
    requires Stepped(a, Coefficient(b, 6), r7, r6)
    requires Stepped(a, Coefficient(b, 5), r6, r5)
    requires Stepped(a, Coefficient(b, 4), r5, r4)
    requires Stepped(a, Coefficient(b, 3), r4, r3)
    requires Stepped(a, Coefficient(b, 2), r3, r2)
    requires Stepped(a, Coefficient(b, 1), r2, r1)
    requires Stepped(a, Coefficient(b, 0), r1, r0)
    ensures Mul(a, b, 16) == r0
  {
    hide Mul, Stepped, ShiftBy, LowBit, Coefficient;
    CoefficientIs(b, 0);
    CoefficientIs(b, 1);
    CoefficientIs(b, 2);
    CoefficientIs(b, 3);
    CoefficientIs(b, 4);
    CoefficientIs(b, 5);
    CoefficientIs(b, 6);
    CoefficientIs(b, 7);
    CoefficientIs(b, 8);
    CoefficientIs(b, 9);
    CoefficientIs(b, 10);
    CoefficientIs(b, 11);
    CoefficientIs(b, 12);
    CoefficientIs(b, 13);
    CoefficientIs(b, 14);
    CoefficientIs(b, 15);
    MulNone(a, ShiftBy(b, 16));
    MulNone(a, b);
    MulStepped(a, b, 15, Coefficient(b, 15), 0, r15);
    MulStepped(a, b, 14, Coefficient(b, 14), r15, r14);
    MulStepped(a, b, 13, Coefficient(b, 13), r14, r13);
    MulStepped(a, b, 12, Coefficient(b, 12), r13, r12);
    MulStepped(a, b, 11, Coefficient(b, 11), r12, r11);
    MulStepped(a, b, 10, Coefficient(b, 10), r11, r10);
    MulStepped(a, b, 9, Coefficient(b, 9), r10, r9);
    MulStepped(a, b, 8, Coefficient(b, 8), r9, r8);
    MulStepped(a, b, 7, Coefficient(b, 7), r8, r7);
    MulStepped(a, b, 6, Coefficient(b, 6), r7, r6);
    MulStepped(a, b, 5, Coefficient(b, 5), r6, r5);
    MulStepped(a, b, 4, Coefficient(b, 4), r5, r4);
    MulStepped(a, b, 3, Coefficient(b, 3), r4, r3);
    MulStepped(a, b, 2, Coefficient(b, 2), r3, r2);
    MulStepped(a, b, 1, Coefficient(b, 1), r2, r1);
    MulStepped(a, b, 0, Coefficient(b, 0), r1, r0);
  }

  // The word of x^(2k) from that of x^k, some other powers, and the inverses of three polynomials.

  lemma Power2()
    ensures Mul(0x2, 0x2, 16) == 0x4
  {
    hide Mul;
    Product(0x2, 0x2, 0x0, 0x0, 0x0, 0x0, 0x0, 0x0, 0x0, 0x0,
            0x0, 0x0, 0x0, 0x0, 0x0, 0x0, 0x2, 0x4);
  }

  lemma Power4()
    ensures Mul(0x4, 0x4, 16) == 0x10
  {
    hide Mul;
    Product(0x4, 0x4, 0x0, 0x0, 0x0, 0x0, 0x0, 0x0, 0x0, 0x0,
            0x0, 0x0, 0x0, 0x0, 0x0, 0x4, 0x8, 0x10);
  }

  lemma Power8()
    ensures Mul(0x10, 0x10, 16) == 0x100
  {
    hide Mul;
    Product(0x10, 0x10, 0x0, 0x0, 0x0, 0x0, 0x0, 0x0, 0x0, 0x0,
            0x0, 0x0, 0x0, 0x10, 0x20, 0x40, 0x80, 0x100);
  }

  lemma Power16()
    ensures Mul(0x100, 0x100, 16) == 0x2D
  {
    hide Mul;
    Product(0x100, 0x100, 0x0, 0x0, 0x0, 0x0, 0x0, 0x0, 0x0, 0x100,
            0x200, 0x400, 0x800, 0x1000, 0x2000, 0x4000, 0x8000, 0x2D);
  }

  lemma Power32()
    ensures Mul(0x2D, 0x2D, 16) == 0x451
  {
    hide Mul;
    Product(0x2D, 0x2D, 0x0, 0x0, 0x0, 0x0, 0x0, 0x0, 0x0, 0x0,
            0x0, 0x0, 0x2D, 0x5A, 0x99, 0x11F, 0x23E, 0x451);
  }

  lemma Power64()
    ensures Mul(0x451, 0x451, 16) == 0x13D1
  {
    hide Mul;
    Product(0x451, 0x451, 0x0, 0x0, 0x0, 0x0, 0x0, 0x451, 0x8A2, 0x1144,
            0x2288, 0x4141, 0x8282, 0x178, 0x2F0, 0x5E0, 0xBC0, 0x13D1);
  }

  lemma Power128()
    ensures Mul(0x13D1, 0x13D1, 16) == 0x7C98
  {
    hide Mul;
    Product(0x13D1, 0x13D1, 0x0, 0x0, 0x0, 0x13D1, 0x27A2, 0x4F44, 0x8D59, 0x94E,
            0x14D, 0x114B, 0x2296, 0x56FD, 0xADFA, 0x5BD9, 0xB7B2, 0x7C98);
  }

  lemma Power256()
    ensures Mul(0x7C98, 0x7C98, 16) == 0x18A
  {
    hide Mul;
    Product(0x7C98, 0x7C98, 0x0, 0x7C98, 0x85A8, 0x77E5, 0x9352, 0x5A11, 0xB422, 0x6869,
            0xAC4A, 0x58B9, 0xB172, 0x1E51, 0x403A, 0x8074, 0xC5, 0x18A);
  }

  lemma Power512()
    ensures Mul(0x18A, 0x18A, 16) == 0x4069
  {
    hide Mul;
    Product(0x18A, 0x18A, 0x0, 0x0, 0x0, 0x0, 0x0, 0x0, 0x0, 0x18A,
            0x29E, 0x53C, 0xA78, 0x14F0, 0x286A, 0x50D4, 0xA022, 0x4069);
  }

  lemma Power1024()
    ensures Mul(0x4069, 0x4069, 16) == 0xC41B
  {
    hide Mul;
    Product(0x4069, 0x4069, 0x0, 0x4069, 0x80D2, 0x189, 0x312, 0x624, 0xC48, 0x1890,
            0x3120, 0x2229, 0x43B, 0x876, 0x5085, 0xA10A, 0x4239, 0xC41B);
  }

  lemma Power2048()
    ensures Mul(0xC41B, 0xC41B, 16) == 0x92D0
  {
    hide Mul;
    Product(0xC41B, 0xC41B, 0xC41B, 0x4C00, 0x9800, 0x302D, 0x605A, 0x4AF, 0x95E, 0x12BC,
            0x2578, 0x4AF0, 0x95E0, 0xEFF6, 0x1BDA, 0x37B4, 0xAB73, 0x92D0);
  }

  lemma Power4096()
    ensures Mul(0x92D0, 0x92D0, 16) == 0x3DAB
  {
    hide Mul;
    Product(0x92D0, 0x92D0, 0x92D0, 0x258D, 0x4B1A, 0x4E4, 0x9C8, 0x1390, 0xB5F0, 0x6BCD,
            0x454A, 0x1844, 0x3088, 0xF3C0, 0xE7AD, 0xCF77, 0x9EC3, 0x3DAB);
  }

  lemma Power8192()
    ensures Mul(0x3DAB, 0x3DAB, 16) == 0xD4F8
  {
    hide Mul;
    Product(0x3DAB, 0x3DAB, 0x0, 0x0, 0x3DAB, 0x46FD, 0xB051, 0x5D24, 0xBA48, 0x4916,
            0xAF87, 0x5F23, 0x83ED, 0x7F7, 0x3245, 0x648A, 0xF4BF, 0xD4F8);
  }

  lemma Power16384()
    ensures Mul(0xD4F8, 0xD4F8, 16) == 0xEBD5
  {
    hide Mul;
    Product(0xD4F8, 0xD4F8, 0xD4F8, 0x7D25, 0xFA4A, 0x2041, 0x4082, 0x55FC, 0xABF8, 0x57DD,
            0x7B42, 0x227C, 0x9000, 0xF4D5, 0x3D7F, 0x7AFE, 0xF5FC, 0xEBD5);
  }

  lemma Power32768()
    ensures Mul(0xEBD5, 0xEBD5, 16) == 0x7F8D
  {
    hide Mul;
    Product(0xEBD5, 0xEBD5, 0xEBD5, 0x3C52, 0x9371, 0x26CF, 0xA64B, 0x4CBB, 0x72A3, 0xE93,
            0xF6F3, 0x61E, 0xC3C, 0xF3AD, 0xE777, 0x2516, 0x4A2C, 0x7F8D);
  }

  lemma Power65536()
    ensures Mul(0x7F8D, 0x7F8D, 16) == 0x2
  {
    hide Mul;
    Product(0x7F8D, 0x7F8D, 0x0, 0x7F8D, 0x8097, 0x7E8E, 0x8291, 0x7A82, 0x8A89, 0x6AB2,
            0xAAE9, 0x55FF, 0xABFE, 0x57D1, 0xD02F, 0xDFFE, 0xBFD1, 0x2);
  }

  lemma Power4112()
    ensures Mul(0x3DAB, 0x2D, 16) == 0x93D1
  {
    hide Mul;
    Product(0x3DAB, 0x2D, 0x0, 0x0, 0x0, 0x0, 0x0, 0x0, 0x0, 0x0,
            0x0, 0x0, 0x3DAB, 0x7B56, 0xCB07, 0xAB88, 0x573D, 0x93D1);
  }

  lemma Power257()
    ensures Mul(0x18A, 0x2, 16) == 0x314
  {
    hide Mul;
    Product(0x18A, 0x2, 0x0, 0x0, 0x0, 0x0, 0x0, 0x0, 0x0, 0x0,
            0x0, 0x0, 0x0, 0x0, 0x0, 0x0, 0x18A, 0x314);
  }

  lemma Power4369()
    ensures Mul(0x93D1, 0x314, 16) == 0x3C0F
  {
    hide Mul;
    Product(0x93D1, 0x314, 0x0, 0x0, 0x0, 0x0, 0x0, 0x0, 0x93D1, 0xB45E,
            0x6891, 0xD122, 0xA269, 0xD72E, 0xAE71, 0xCF1E, 0x9E11, 0x3C0F);
  }

  lemma Power8738()
    ensures Mul(0x3C0F, 0x3C0F, 16) == 0x90C5
  {
    hide Mul;
    Product(0x3C0F, 0x3C0F, 0x0, 0x0, 0x3C0F, 0x4411, 0xB42D, 0x5478, 0xA8F0, 0x51CD,
            0xA39A, 0x4719, 0x8E32, 0x1C49, 0x49D, 0x3535, 0x5665, 0x90C5);
  }

  lemma Power17476()
    ensures Mul(0x90C5, 0x90C5, 16) == 0x3C0E
  {
    hide Mul;
    Product(0x90C5, 0x90C5, 0x90C5, 0x21A7, 0x434E, 0x1659, 0x2CB2, 0x5964, 0xB2C8, 0x65BD,
            0x5BBF, 0x27BB, 0x4F76, 0x9EEC, 0x3DF5, 0xEB2F, 0xD673, 0x3C0E);
  }

  lemma Power21845()
    ensures Mul(0x3C0E, 0x3C0F, 16) == 0xACCA
  {
    hide Mul;
    Product(0x3C0E, 0x3C0F, 0x0, 0x0, 0x3C0E, 0x4412, 0xB42A, 0x5477, 0xA8EE, 0x51F1,
            0xA3E2, 0x47E9, 0x8FD2, 0x1F89, 0x31C, 0x3A36, 0x4862, 0xACCA);
  }

  lemma InverseFor255()
    ensures Mul(0x188, 0x5538, 16) == 0x1
  {
    hide Mul;
    Product(0x188, 0x5538, 0x0, 0x188, 0x310, 0x7A8, 0xF50, 0x1F28, 0x3E50, 0x7D28,
            0xFA50, 0xF48D, 0xE8BF, 0xD0DB, 0xA013, 0x400B, 0x8016, 0x1);
  }

  lemma InverseFor3855()
    ensures Mul(0x90C5, 0x163E, 16) == 0x1
  {
    hide Mul;
    Product(0x90C5, 0x163E, 0x0, 0x0, 0x0, 0x90C5, 0x21A7, 0xD38B, 0x37FE, 0x6FFC,
            0xDFF8, 0xBFDD, 0xEF52, 0x4E4C, 0xC5D, 0x887F, 0x8016, 0x1);
  }

  lemma InverseFor21845()
    ensures Mul(0xACCB, 0xACCA, 16) == 0x1
  {
    hide Mul;
    Product(0xACCB, 0xACCA, 0xACCB, 0x59BB, 0x1FBD, 0x3F7A, 0xD23F, 0x898, 0x1130, 0x2260,
            0xE80B, 0x7CF0, 0xF9E0, 0xF3ED, 0x4B3C, 0x9678, 0x8016, 0x1);
  }

  // --------------------------------------------------- polynomials act as powers of the step

  lemma {:induction false} ApplyPlus(a: bv16, b: bv16, s: bv16, n: nat)
    requires Within(a, n) && Within(b, n)
    ensures Apply(Plus(a, b), s) == Plus(Apply(a, s), Apply(b, s))
    decreases n
  {
    hide Plus, Step, ShiftOne, LowBit, Select, Apply;
    ApplyUnfold(a, s);
    ApplyUnfold(b, s);
    ApplyUnfold(Plus(a, b), s);
    PlusRules(0, 0);
    if n > 0 {
      var x, y := ShiftOne(a), ShiftOne(b);
      WithinStep(a, n);
      WithinStep(b, n);
      ApplyPlus(x, y, s, n - 1);
      PlusShift(a, b);
      PlusLowBit(a, b);
      PlusSelected(LowBit(a), LowBit(b), s);
      StepPlus(Apply(x, s), Apply(y, s));
      PlusFour(Step(Apply(x, s)), Step(Apply(y, s)), Select(LowBit(a), s), Select(LowBit(b), s));
    }
  }

  lemma ApplySum(a: bv16, b: bv16, s: bv16)
    ensures Apply(Plus(a, b), s) == Plus(Apply(a, s), Apply(b, s))
  {
    WithinSixteen(a);
    WithinSixteen(b);
    ApplyPlus(a, b, s, 16);
  }

  lemma ShiftLeftBits(a: bv16)
    requires a & 0x8000 != 0x8000
    ensures (a << 1) & 1 != 1 && (a << 1) >> 1 == a
  {
  }

  lemma ShiftLeftFacts(a: bv16)
    requires !TopBit(a)
    ensures !LowBit(ShiftLeft(a)) && ShiftOne(ShiftLeft(a)) == a
  {
    ShiftLeftBits(a);
  }

  /** Doubling the coefficients' positions is one more step. */
  lemma ApplyShifted(a: bv16, s: bv16)
    requires !TopBit(a)
    ensures Apply(ShiftLeft(a), s) == Step(Apply(a, s))
  {
    hide Plus, Step, ShiftOne, LowBit, ShiftLeft, TopBit, Apply;
    ShiftLeftFacts(a);
    ApplyUnfold(ShiftLeft(a), s);
    PlusRules(Step(Apply(a, s)), 0);
  }

  lemma TopBitSplit(a: bv16)
    requires a & 0x8000 == 0x8000
    ensures a == 0x8000 ^ (a & 0x7FFF) && (a & 0x7FFF) & 0x8000 != 0x8000 && a << 1 == (a & 0x7FFF) << 1
  {
  }

  lemma SplitTop(a: bv16) returns (low: bv16)
    requires TopBit(a)
    ensures a == Plus(0x8000, low) && !TopBit(low) && ShiftLeft(a) == ShiftLeft(low)
  {
    TopBitSplit(a);
    low := a & 0x7FFF;
  }

  lemma ApplyOne(s: bv16)
    ensures Apply(1, s) == s && Apply(0, s) == 0
  {
    hide Plus, Step, ShiftOne, LowBit, Apply;
    OneWord();
    ApplyUnfold(1, s);
    ApplyUnfold(0, s);
    StepZero();
    PlusRules(s, 0);
  }

  lemma LowWords()
    ensures !TopBit(1) && !TopBit(2) && !TopBit(4) && !TopBit(8) && !TopBit(0x10)
    ensures ShiftLeft(1) == 2 && ShiftLeft(2) == 4 && ShiftLeft(4) == 8
    ensures ShiftLeft(8) == 0x10 && ShiftLeft(0x10) == 0x20
  {
  }

  lemma MiddleWords()
    ensures !TopBit(0x20) && !TopBit(0x40) && !TopBit(0x80) && !TopBit(0x100) && !TopBit(0x200)
    ensures ShiftLeft(0x20) == 0x40 && ShiftLeft(0x40) == 0x80 && ShiftLeft(0x80) == 0x100
    ensures ShiftLeft(0x100) == 0x200 && ShiftLeft(0x200) == 0x400
  {
  }

  lemma HighWords()
    ensures !TopBit(0x400) && !TopBit(0x800) && !TopBit(0x1000) && !TopBit(0x2000) && !TopBit(0x4000)
    ensures ShiftLeft(0x400) == 0x800 && ShiftLeft(0x800) == 0x1000 && ShiftLeft(0x1000) == 0x2000
    ensures ShiftLeft(0x2000) == 0x4000 && ShiftLeft(0x4000) == 0x8000
  {
  }

  /** If the word a stands for the k-th power of the step, its shift stands for the next one. */
  lemma ShiftedPower(a: bv16, k: nat, s: bv16)
    requires Apply(a, s) == Iter(k, s) && !TopBit(a)
    ensures Apply(ShiftLeft(a), s) == Iter(k + 1, s)
  {
    hide Plus, Step, ShiftLeft, TopBit, Apply;
    ApplyShifted(a, s);
  }

  /** The single-bit words are the first sixteen powers. */
  lemma SingleBits(s: bv16)
    ensures Apply(1, s) == s && Apply(2, s) == Step(s)
    ensures Apply(4, s) == Iter(2, s) && Apply(8, s) == Iter(3, s) && Apply(0x20, s) == Iter(5, s)
    ensures Apply(0x8000, s) == Iter(15, s)
  {
    hide Plus, Step, ShiftLeft, TopBit, Apply, Iter;
    ApplyOne(s);
    IterOne(s);
    LowWords();
    ShiftedPower(1, 0, s);
    ShiftedPower(2, 1, s);
    ShiftedPower(4, 2, s);
    ShiftedPower(8, 3, s);
    ShiftedPower(0x10, 4, s);
    MiddleWords();
    ShiftedPower(0x20, 5, s);
    ShiftedPower(0x40, 6, s);
    ShiftedPower(0x80, 7, s);
    ShiftedPower(0x100, 8, s);
    ShiftedPower(0x200, 9, s);
    HighWords();
    ShiftedPower(0x400, 10, s);
    ShiftedPower(0x800, 11, s);
    ShiftedPower(0x1000, 12, s);
    ShiftedPower(0x2000, 13, s);
    ShiftedPower(0x4000, 14, s);
  }

  lemma PolynomialWord()
    ensures Plus(1, Plus(4, Plus(8, 0x20))) == 0x2D
  {
  }

  /** x^16 is x^5 + x^3 + x^2 + 1 on every state. */
  lemma SixteenthPower(s: bv16)
    ensures Apply(0x2D, s) == Iter(16, s)
  {
    hide Plus, Step, Apply, Iter;
    PolynomialWord();
    SingleBits(s);
    ApplySum(8, 0x20, s);
    ApplySum(4, Plus(8, 0x20), s);
    ApplySum(1, Plus(4, Plus(8, 0x20)), s);
    DefectZero(s);
    var rest := Plus(Iter(2, s), Plus(Iter(3, s), Iter(5, s)));
    PlusZeroEqual(Plus(Iter(16, s), s), rest);
    PlusFour(s, Iter(16, s), 0, s);
    PlusRules(Iter(16, s), s);
    PlusRules(s, 0);
    PlusRules(Plus(Iter(16, s), s), s);
    PlusFour(s, 0, Iter(16, s), s);
    PlusFour(s, Iter(16, s), s, 0);
    PlusRules(Iter(16, s), 0);
  }

  /** Multiplying the polynomial by x is one more step. */
  lemma ApplyTimesX(a: bv16, s: bv16)
    ensures Apply(TimesX(a), s) == Step(Apply(a, s))
  {
    hide Plus, Step, ShiftLeft, TopBit, Apply, Iter, TimesX;
    TimesXParts(a);
    if TopBit(a) {
      var low := SplitTop(a);
      ApplySum(0x8000, low, s);
      SingleBits(s);
      StepPlus(Apply(0x8000, s), Apply(low, s));
      StepIter(15, s);
      ApplyShifted(low, s);
      ApplySum(ShiftLeft(low), 0x2D, s);
      SixteenthPower(s);
      PlusRules(Step(Apply(low, s)), Iter(16, s));
    } else {
      ApplyShifted(a, s);
      PlusRules(ShiftLeft(a), 0);
    }
  }

  /** The product of two polynomials acts as one after the other. */
  lemma {:induction false} ApplyMul(a: bv16, b: bv16, s: bv16, n: nat)
    requires Within(b, n)
    ensures Apply(Mul(a, b, n), s) == Apply(b, Apply(a, s))
    decreases n
  {
    hide Plus, Step, ShiftOne, LowBit, Apply, TimesX;
    var t := Apply(a, s);
    ApplyUnfold(b, t);
    ApplyOne(s);
    ApplyOne(t);
    if n > 0 {
      WithinStep(b, n);
      ApplyMul(a, ShiftOne(b), s, n - 1);
      ApplyTimesX(Mul(a, ShiftOne(b), n - 1), s);
      ApplySum(TimesX(Mul(a, ShiftOne(b), n - 1)), Select(LowBit(b), a), s);
    }
  }

  // ------------------------------------------------------------------- large powers

  /** The word a stands for the k-th power of the step. */
  ghost predicate Code(k: nat, a: bv16) {
    forall s: bv16 {:trigger Iter(k, s)} {:trigger Apply(a, s)} :: Iter(k, s) == Apply(a, s)
  }

  lemma CodeOne()
    ensures Code(1, 2)
  {
    hide Iter, Apply, Step;
    forall s: bv16
      ensures Iter(1, s) == Apply(2, s)
    {
      IterOne(s);
      SingleBits(s);
    }
  }

  lemma CodeSum(j: nat, k: nat, a: bv16, b: bv16)
    requires Code(j, a) && Code(k, b)
    ensures Code(j + k, Mul(a, b, 16))
  {
    hide Iter, Apply, Mul;
    forall s: bv16
      ensures Iter(j + k, s) == Apply(Mul(a, b, 16), s)
    {
      IterAdd(k, j, s);
      WithinSixteen(b);
      ApplyMul(a, b, s, 16);
      assert Iter(j, s) == Apply(a, s);
    }
  }

  lemma Codes256()
    ensures Code(1, 2) && Code(16, 0x2D) && Code(256, 0x018A)
  {
    hide Code, Mul;
    CodeOne();
    Power2(); CodeSum(1, 1, 0x2, 0x2);
    Power4(); CodeSum(2, 2, 0x4, 0x4);
    Power8(); CodeSum(4, 4, 0x10, 0x10);
    Power16(); CodeSum(8, 8, 0x100, 0x100);
    Power32(); CodeSum(16, 16, 0x2D, 0x2D);
    Power64(); CodeSum(32, 32, 0x451, 0x451);
    Power128(); CodeSum(64, 64, 0x13D1, 0x13D1);
    Power256(); CodeSum(128, 128, 0x7C98, 0x7C98);
  }

  lemma Codes65536()
    ensures Code(4096, 0x3DAB) && Code(65536, 2)
  {
    hide Code, Mul;
    Codes256();
    Power512(); CodeSum(256, 256, 0x18A, 0x18A);
    Power1024(); CodeSum(512, 512, 0x4069, 0x4069);
    Power2048(); CodeSum(1024, 1024, 0xC41B, 0xC41B);
    Power4096(); CodeSum(2048, 2048, 0x92D0, 0x92D0);
    Power8192(); CodeSum(4096, 4096, 0x3DAB, 0x3DAB);
    Power16384(); CodeSum(8192, 8192, 0xD4F8, 0xD4F8);
    Power32768(); CodeSum(16384, 16384, 0xEBD5, 0xEBD5);
    Power65536(); CodeSum(32768, 32768, 0x7F8D, 0x7F8D);
  }

  lemma CodesOfQuotients()
    ensures Code(257, 0x0314) && Code(4112, 0x93D1) && Code(4369, 0x3C0F) && Code(17476, 0x3C0E) && Code(21845, 0xACCA)
  {
    hide Code, Mul;
    Codes256();
    Codes65536();
    Power4112(); CodeSum(4096, 16, 0x3DAB, 0x2D);
    Power257(); CodeSum(256, 1, 0x18A, 0x2);
    Power4369(); CodeSum(4112, 257, 0x93D1, 0x314);
    Power8738(); CodeSum(4369, 4369, 0x3C0F, 0x3C0F);
    Power17476(); CodeSum(8738, 8738, 0x90C5, 0x90C5);
    Power21845(); CodeSum(17476, 4369, 0x3C0E, 0x3C0F);
  }

  /** 65535 steps return to the start. */
  lemma FullCycle(s: bv16)
    ensures Iter(65535, s) == s
  {
    hide Iter, Apply, Step;
    CodeOne();
    Codes65536();
    assert Iter(65536, s) == Apply(2, s) == Iter(1, s);
    IterOne(s);
    StepIter(65535, s);
    StepInjective(Iter(65535, s), s);
  }

  /** If two powers agree on a state, the sum of their words annihilates it. */
  lemma Annihilated(j: nat, k: nat, a: bv16, b: bv16, s: bv16)
    requires Code(j, a) && Code(k, b) && Iter(j, s) == Iter(k, s)
    ensures Apply(Plus(a, b), s) == 0
  {
    hide Iter, Apply, Plus;
    ApplySum(a, b, s);
    PlusRules(Apply(a, s), Apply(a, s));
  }

  /** Only the zero state is annihilated by an invertible polynomial. */
  lemma Invertible(a: bv16, b: bv16, s: bv16)
    requires Mul(a, b, 16) == 1 && Apply(a, s) == 0
    ensures s == 0
  {
    hide Apply, Mul;
    WithinSixteen(b);
    ApplyMul(a, b, s, 16);
    ApplyOne(s);
    ApplyOfZero(b, 16);
  }

  lemma {:induction false} ApplyOfZero(b: bv16, n: nat)
    requires Within(b, n)
    ensures Apply(b, 0) == 0
    decreases n
  {
    hide Plus, Step, ShiftOne, LowBit, Apply;
    ApplyUnfold(b, 0);
    ApplyOne(0);
    StepZero();
    PlusRules(0, 0);
    if n > 0 {
      WithinStep(b, n);
      ApplyOfZero(ShiftOne(b), n - 1);
    }
  }

  lemma SumsOfWords()
    ensures Plus(0x018A, 0x0002) == 0x0188 && Plus(0x93D1, 0x0314) == 0x90C5
    ensures Plus(0x3C0E, 0x3C0F) == 1 && Plus(0xACCA, 1) == 0xACCB
  {
  }

  lemma NoCycle255(s: bv16)
    requires Iter(255, s) == s
    ensures s == 0
  {
    hide Iter, Apply, Plus, Mul, Code;
    IterAdd(1, 255, s);
    Codes256();
    Annihilated(256, 1, 0x018A, 2, s);
    SumsOfWords();
    InverseFor255();
    Invertible(0x0188, 0x5538, s);
  }

  lemma NoCycle3855(s: bv16)
    requires Iter(3855, s) == s
    ensures s == 0
  {
    hide Iter, Apply, Plus, Mul, Code;
    IterAdd(257, 3855, s);
    CodesOfQuotients();
    Annihilated(4112, 257, 0x93D1, 0x0314, s);
    SumsOfWords();
    InverseFor3855();
    Invertible(0x90C5, 0x163E, s);
  }

  lemma NoCycle13107(s: bv16)
    requires Iter(13107, s) == s
    ensures s == 0
  {
    hide Iter, Apply, Plus, Mul, Code;
    IterAdd(4369, 13107, s);
    CodesOfQuotients();
    Annihilated(17476, 4369, 0x3C0E, 0x3C0F, s);
    SumsOfWords();
    ApplyOne(s);
  }

  lemma NoCycle21845(s: bv16)
    requires Iter(21845, s) == s
    ensures s == 0
  {
    hide Iter, Apply, Plus, Mul, Code;
    CodesOfQuotients();
    CodeNought();
    IterOne(s);
    Annihilated(21845, 0, 0xACCA, 1, s);
    SumsOfWords();
    InverseFor21845();
    Invertible(0xACCB, 0xACCA, s);
  }

  lemma CodeNought()
    ensures Code(0, 1)
  {
    hide Iter, Apply, Step;
    forall s: bv16
      ensures Iter(0, s) == Apply(1, s)
    {
      IterOne(s);
      ApplyOne(s);
    }
  }

  // ----------------------------------------------------------------- no shorter cycle

  lemma {:induction false} MultipleOfPeriod(d: nat, q: nat, s: bv16)
    requires Iter(d, s) == s
    ensures d * q >= 0 && Iter(d * q, s) == s
  {
    hide Iter;
    MulNonNeg(d, q);
    if q == 0 {
      IterOne(s);
      assert d * 0 == 0;
    } else {
      MultipleOfPeriod(d, q - 1, s);
      assert d * q == d + d * (q - 1);
      IterAdd(d, d * (q - 1), s);
    }
  }

  /** Two periods have a common divisor that is a period. */
  lemma {:induction false} CommonPeriod(k: nat, n: nat, s: bv16) returns (d: nat)
    requires k > 0 && Iter(k, s) == s && Iter(n, s) == s
    ensures 0 < d <= k && Iter(d, s) == s && k % d == 0 && n % d == 0
    decreases k
  {
    hide Iter;
    var q, r := Quo(n, k), Rem(n, k);
    DivModFacts(n, k);
    MultipleOfPeriod(k, q, s);
    assert n == r + k * q by { assert k * q == q * k; }
    IterAdd(r, k * q, s);
    if r == 0 {
      d := k;
      DivModUnique(k, k, 1, 0);
    } else {
      d := CommonPeriod(r, k, s);
      SumOfMultiples(r, k, q, d);
    }
  }

  lemma SumOfMultiples(r: nat, k: nat, q: nat, d: nat)
    requires d > 0 && r % d == 0 && k % d == 0
    ensures (r + k * q) % d == 0
  {
    DivModFacts(r, d);
    DivModFacts(k, d);
    var a, b := r / d, k / d;
    assert (b * d) * q == (b * q) * d;
    assert (a + b * q) * d == a * d + (b * q) * d;
    DivModUnique(r + k * q, d, a + b * q, 0);
  }

  lemma {:induction false} Bezout(a: nat, b: nat) returns (g: nat, x: int, y: int)
    requires a > 0
    ensures g > 0 && a % g == 0 && b % g == 0 && x * a + y * b == g
    decreases b
  {
    if b == 0 {
      g, x, y := a, 1, 0;
      DivModUnique(a, a, 1, 0);
      assert 0 * b == 0;
      DivModUnique(0, a, 0, 0);
    } else {
      var q, r := Quo(a, b), Rem(a, b);
      DivModFacts(a, b);
      var u, v;
      g, u, v := Bezout(b, r);
      x, y := v, u - v * q;
      SumOfMultiples(r, b, q, g);
      assert a == r + b * q by { assert b * q == q * b; }
      assert v * (q * b + r) + (u - v * q) * b == u * b + v * r;
    }
  }

  predicate Prime(p: nat) {
    p > 1 && forall g :: 1 < g < p ==> p % g != 0
  }

  /** A prime that divides a product divides one of its factors. */
  lemma PrimeDivides(p: nat, d: nat, e: nat)
    requires Prime(p) && (d * e) % p == 0 && e % p != 0
    ensures d % p == 0
  {
    var g, x, y := Bezout(p, e);
    DivModFacts(p, g);
    if g > p { DivModUnique(p, g, 0, p); }
    assert g == 1;
    var c := d * e / p;
    DivModFacts(d * e, p);
    assert d == d * (x * p + y * e);
    assert d * (x * p + y * e) == (d * x) * p + y * (d * e);
    assert y * (c * p) == (y * c) * p;
    assert (d * x + y * c) * p == (d * x) * p + (y * c) * p;
    DivModUnique(d, p, d * x + y * c, 0);
  }

  lemma SmallPrimes()
    ensures Prime(3) && Prime(5) && Prime(17)
  {
  }

  lemma SmallDivisors(m: nat)
    requires 1 < m <= 16
    ensures 257 % m != 0
  {
  }

  lemma Prime257()
    ensures Prime(257)
  {
    forall g | 1 < g < 257
      ensures 257 % g != 0
    {
      if g <= 16 {
        SmallDivisors(g);
      } else if 257 % g == 0 {
        var h := 257 / g;
        DivModFacts(257, g);
        assert h * g == 257;
        if h >= 16 { MulMono(16, h, g); }
        if h <= 1 { MulMono(h, 1, g); }
        DivModUnique(257, h, g, 0);
        SmallDivisors(h);
      }
    }
  }

  lemma PeeledFactor(p: nat, m: nat, d: nat, e: nat) returns (c: nat)
    requires Prime(p) && d * e == p * m && e % p != 0
    ensures d == p * c && c * e == m
  {
    DivModUnique(p * m, p, m, 0) by { assert m * p == p * m; }
    PrimeDivides(p, d, e);
    DivModFacts(d, p);
    c := Quo(d, p);
    assert d == p * c by { assert c * p == p * c; }
    assert p * (c * e) == p * m by { assert (p * c) * e == p * (c * e); }
    if c * e < m { MulStrict(c * e, m, p); } else if c * e > m { MulStrict(m, c * e, p); }
  }

  /** A proper divisor of 65535 divides one of its quotients by a prime factor. */
  lemma ProperDivisor(d: nat, e: nat)
    requires d * e == 65535 && e > 1
    ensures e % 3 == 0 || e % 5 == 0 || e % 17 == 0 || e % 257 == 0
  {
    SmallPrimes();
    Prime257();
    if !(e % 3 == 0 || e % 5 == 0 || e % 17 == 0 || e % 257 == 0) {
      var d1 := PeeledFactor(3, 21845, d, e);
      var d2 := PeeledFactor(5, 4369, d1, e);
      var d3 := PeeledFactor(17, 257, d2, e);
      var d4 := PeeledFactor(257, 1, d3, e);
      if d4 >= 1 { MulMono(1, d4, e); }
    }
  }

  lemma QuotientPeriod(d: nat, e: nat, p: nat, n: nat, s: bv16)
    requires Iter(d, s) == s && d * e == p * n && p > 0 && e % p == 0
    ensures Iter(n, s) == s
  {
    hide Iter;
    var f := Quo(e, p);
    DivModFacts(e, p);
    assert p * (d * f) == p * n by { assert d * (f * p) == p * (d * f); }
    MultipleOfPeriod(d, f, s);
    if d * f < n { MulStrict(d * f, n, p); } else if d * f > n { MulStrict(n, d * f, p); }
  }

  /** The register's cycle through a nonzero state has exactly 65535 states. */
  lemma NoShortCycle(k: nat, s: bv16)
    requires 0 < k < 65535 && Iter(k, s) == s
    ensures s == 0
  {
    hide Iter;
    FullCycle(s);
    var d := CommonPeriod(k, 65535, s);
    var e := Quo(65535, d);
    DivModFacts(65535, d);
    assert d * e == 65535 by { assert e * d == d * e; }
    if e <= 1 { MulMono(e, 1, d); }
    ProperDivisor(d, e);
    if e % 3 == 0 {
      QuotientPeriod(d, e, 3, 21845, s);
      NoCycle21845(s);
    } else if e % 5 == 0 {
      QuotientPeriod(d, e, 5, 13107, s);
      NoCycle13107(s);
    } else if e % 17 == 0 {
      QuotientPeriod(d, e, 17, 3855, s);
      NoCycle3855(s);
    } else {
      QuotientPeriod(d, e, 257, 255, s);
      NoCycle255(s);
    }
  }

  lemma DistinctStates(i: nat, j: nat, s: bv16)
    requires s != 0 && i < j < i + 65535
    ensures Iter(i, s) != Iter(j, s)
  {
    hide Iter;
    if Iter(i, s) == Iter(j, s) {
      IterAdd(i, j - i, s);
      IterInjective(i, s, Iter(j - i, s));
      NoShortCycle(j - i, s);
    }
  }

  // ---------------------------------------------------------------- packet identifiers

  lemma WordAndBack(s: bv16)
    ensures (s as int) as bv16 == s && 0 <= (s as int) < 0x1_0000
  {
  }

  lemma ZeroAsInt(s: bv16)
    requires s != 0
    ensures (s as int) != 0
  {
    WordAndBack(s);
  }

  lemma IterNonZero(k: nat, p: PacketId)
    requires p != 0
    ensures Iter(k, p) != 0
  {
    hide Iter;
    if Iter(k, p) == 0 {
      IterZero(k);
      IterInjective(k, p, 0);
    }
  }

  /** The identifiers produced in the first k steps, as numbers. */
  function Produced(k: nat, p: PacketId): set<int> {
    if k == 0 then {} else Produced(k - 1, p) + {Iter(k, p) as int}
  }

  lemma {:induction false} ProducedMember(k: nat, p: PacketId, x: int) returns (i: nat)
    requires x in Produced(k, p)
    ensures 0 < i <= k && (Iter(i, p) as int) == x
  {
    hide Iter;
    if (Iter(k, p) as int) == x {
      i := k;
    } else {
      i := ProducedMember(k - 1, p, x);
    }
  }

  lemma NotProduced(k: nat, p: PacketId)
    requires p != 0 && 0 < k <= 65535
    ensures (Iter(k, p) as int) !in Produced(k - 1, p)
  {
    hide Iter, Produced;
    if (Iter(k, p) as int) in Produced(k - 1, p) {
      var i := ProducedMember(k - 1, p, Iter(k, p) as int);
      DistinctStates(i, k, p);
      WordAndBack(Iter(i, p));
      WordAndBack(Iter(k, p));
    }
  }

  lemma IterInRange(k: nat, p: PacketId)
    requires p != 0
    ensures 0 < (Iter(k, p) as int) <= 65535
  {
    hide Iter;
    IterNonZero(k, p);
    ZeroAsInt(Iter(k, p));
    WordAndBack(Iter(k, p));
  }

  lemma {:induction false} ProducedSize(k: nat, p: PacketId)
    requires p != 0 && k <= 65535
    ensures |Produced(k, p)| == k && Produced(k, p) <= UpTo(65535)
  {
    hide Iter;
    hide UpTo;
    if k > 0 {
      ProducedSize(k - 1, p);
      IterInRange(k, p);
      NotProduced(k, p);
      ElementOf(Iter(k, p) as int);
    }
  }

  lemma ElementOf(x: int)
    requires 0 < x <= 65535
    ensures x in UpTo(65535)
  {
    hide UpTo;
    UpToSize(65535);
  }

  function UpTo(n: nat): set<int> {
    if n == 0 then {} else UpTo(n - 1) + {n}
  }

  lemma {:induction false} UpToSize(n: nat)
    ensures |UpTo(n)| == n && forall x :: x in UpTo(n) <==> 0 < x <= n
  {
    if n > 0 {
      UpToSize(n - 1);
    }
  }

  lemma SubsetSize(a: set<int>, b: set<int>)
    requires a <= b
    ensures |a| <= |b|
    ensures |a| == |b| ==> a == b
  {
    assert b == a + (b - a);
  }

  /** One cycle runs through all nonzero identifiers: from any of them, 65535 steps produce each
      exactly once. */
  lemma OneCycle(p: PacketId, q: PacketId) returns (k: nat)
    requires p != 0 && q != 0
    ensures 0 < k <= 65535 && Iter(k, p) == q
    ensures forall j: nat :: 0 < j <= 65535 && j != k ==> Iter(j, p) != q
  {
    hide Iter, Produced, UpTo;
    ProducedSize(65535, p);
    UpToSize(65535);
    SubsetSize(Produced(65535, p), UpTo(65535));
    ZeroAsInt(q);
    WordAndBack(q);
    k := ProducedMember(65535, p, q as int);
    WordAndBack(Iter(k, p));
    forall j: nat | 0 < j <= 65535 && j != k
      ensures Iter(j, p) != q
    {
      if j < k { DistinctStates(j, k, p); } else { DistinctStates(k, j, p); }
    }
  }

  /** While some nonzero identifier is free, fewer than 65535 consecutive ones are in use. */
  lemma FreeIdReached(k: nat, p: PacketId, free: PacketId)
    requires p != 0 && free != 0 && k <= 65535
    requires forall j: nat :: 0 < j <= k ==> Iter(j, p) != free
    ensures k < 65535
  {
    if k == 65535 {
      var j := OneCycle(p, free);
    }
  }
}
