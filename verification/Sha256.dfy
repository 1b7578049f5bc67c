/** The SHA-256 compression function (sha256-compress.c) against section 6.2.2 of FIPS 180-4. */
module Sha256 {
  import opened Limbs
  import opened Bits
  import opened MpnStr

  type Word = Limb

  // ---------------------------------------------------------------- the standard's functions

  function WordAnd(x: Word, y: Word): Word {
    LimbOp(And, x, y)
  }

  function WordXor(x: Word, y: Word): Word {
    LimbOp(Xor, x, y)
  }

  function Not(x: Word): Word {
    B - 1 - x
  }

  function Rotr(n: nat, x: Word): Word
    requires 0 < n < 32
  {
    LimbOr(Shr(x, n), Shl(x, 32 - n))
  }

  function Ch(x: Word, y: Word, z: Word): Word {
    WordXor(WordAnd(x, y), WordAnd(Not(x), z))
  }

  function Maj(x: Word, y: Word, z: Word): Word {
    WordXor(WordXor(WordAnd(x, y), WordAnd(x, z)), WordAnd(y, z))
  }

  function BigSigma0(x: Word): Word {
    WordXor(WordXor(Rotr(2, x), Rotr(13, x)), Rotr(22, x))
  }

  function BigSigma1(x: Word): Word {
    WordXor(WordXor(Rotr(6, x), Rotr(11, x)), Rotr(25, x))
  }

  function SmallSigma0(x: Word): Word {
    WordXor(WordXor(Rotr(7, x), Rotr(18, x)), Shr(x, 3))
  }

  function SmallSigma1(x: Word): Word {
    WordXor(WordXor(Rotr(17, x), Rotr(19, x)), Shr(x, 10))
  }

  /** The message schedule, with all 64 words. */
  function Schedule(m: seq<Word>, t: nat): Word
    requires |m| == 16
  {
    if t < 16 then m[t]
    else (SmallSigma1(Schedule(m, t - 2)) + Schedule(m, t - 7) + SmallSigma0(Schedule(m, t - 15)) + Schedule(m,
            t - 16)) % B
  }

  datatype Registers = Registers(a: Word, b: Word, c: Word, d: Word, e: Word, f: Word, g: Word, h: Word)

  /** One round with its two temporary words and the shift of all registers. */
  function Round(r: Registers, k: Word, w: Word): Registers {
    var t1 := (r.h + BigSigma1(r.e) + Ch(r.e, r.f, r.g) + k + w) % B;
    var t2 := (BigSigma0(r.a) + Maj(r.a, r.b, r.c)) % B;
    Registers((t1 + t2) % B, r.a, r.b, r.c, (r.d + t1) % B, r.e, r.f, r.g)
  }

  /** The first t rounds. */
  function Rounds(r: Registers, k: seq<Word>, m: seq<Word>, t: nat): Registers
    requires |m| == 16 && t <= |k|
  {
    if t == 0 then r else Round(Rounds(r, k, m, t - 1), k[t - 1], Schedule(m, t - 1))
  }

  function Unsigned32(x: Byte, y: Byte, z: Byte, w: Byte): Word {
    var hi: int, mid: int, lo: int := x, y, z;
    hi * 0x100_0000 + mid * 0x1_0000 + lo * 0x100 + w
  }

  /** A word of a block: four octets, most significant first. */
  function BlockWord(s: seq<Byte>, i: nat): (w: Word)
    requires 4 * i + 4 <= |s|
  {
    Unsigned32(s[4 * i], s[4 * i + 1], s[4 * i + 2], s[4 * i + 3])
  }

  function Block(s: seq<Byte>): (m: seq<Word>)
    requires |s| >= 64
    ensures |m| == 16
  {
    seq(16, i requires 0 <= i < 16 => BlockWord(s, i))
  }

  function InitialRegisters(state: seq<Word>): Registers
    requires |state| == 8
  {
    Registers(state[0], state[1], state[2], state[3], state[4], state[5], state[6], state[7])
  }

  /** The compression function: 64 rounds on the chaining value, added back to it. */
  function Compressed(state: seq<Word>, k: seq<Word>, m: seq<Word>): seq<Word>
    requires |state| == 8 && |k| == 64 && |m| == 16
  {
    AddRegisters(state, Rounds(InitialRegisters(state), k, m, 64))
  }

  function AddRegisters(state: seq<Word>, r: Registers): seq<Word>
    requires |state| == 8
  {
    [(state[0] + r.a) % B, (state[1] + r.b) % B, (state[2] + r.c) % B, (state[3] + r.d) % B,
     (state[4] + r.e) % B, (state[5] + r.f) % B, (state[6] + r.g) % B, (state[7] + r.h) % B]
  }

  // ------------------------------------------------------------------ the source's functions

  function Rotl32(n: nat, x: Word): Word
    requires 0 < n < 32
  {
    LimbOr(Shl(x, n), Shr(x, 32 - n))
  }

  function Choice(x: Word, y: Word, z: Word): Word {
    WordXor(z, WordAnd(x, WordXor(y, z)))
  }

  function Majority(x: Word, y: Word, z: Word): Word {
    WordXor(WordAnd(x, y), WordAnd(z, WordXor(x, y)))
  }

  function S0(x: Word): Word {
    WordXor(WordXor(Rotl32(30, x), Rotl32(19, x)), Rotl32(10, x))
  }

  function S1(x: Word): Word {
    WordXor(WordXor(Rotl32(26, x), Rotl32(21, x)), Rotl32(7, x))
  }

  function Small0(x: Word): Word {
    WordXor(WordXor(Rotl32(25, x), Rotl32(14, x)), Shr(x, 3))
  }

  function Small1(x: Word): Word {
    WordXor(WordXor(Rotl32(15, x), Rotl32(13, x)), Shr(x, 10))
  }

  /** Numbers with the same bits are equal. */
  lemma {:induction false} SameBits(x: nat, y: nat)
    requires forall i: nat :: Bit(x, i) == Bit(y, i)
    ensures x == y
  {
    if x > 0 || y > 0 {
      forall i: nat
        ensures Bit(x / 2, i) == Bit(y / 2, i)
      {
        BitShift(x, i);
        BitShift(y, i);
        assert Bit(x, i + 1) == Bit(y, i + 1);
      }
      SameBits(x / 2, y / 2);
      assert Bit(x, 0) == Bit(y, 0);
      assert Pow2(0) == 1;
    }
  }

  lemma NotBit(x: Word, i: nat)
    requires i < 32
    ensures Bit(Not(x), i) == !Bit(x, i)
  {
    hide Pow2, LimbOp;
    XorMask(x, true);
    LimbOpBit(Xor, x, B - 1, i);
    AllOnes(i);
  }

  lemma AllOnes(i: nat)
    requires i < 32
    ensures Bit(B - 1, i)
  {
    hide Pow2;
    Pow2Of32();
    var p, q := Pow2(i), Pow2(31 - i);
    Pow2Add(i, 31 - i);
    assert B - 1 == (2 * q - 1) * p + (p - 1) by { assert (2 * q - 1) * p == 2 * (p * q) - p; }
    DivModUnique(B - 1, p, 2 * q - 1, p - 1);
  }

  lemma HighBitClear(x: Word, i: nat)
    requires i >= 32
    ensures !Bit(x, i)
  {
    hide Pow2;
    Pow2Of32();
    Pow2Mono(32, i);
    DivModUnique(x, Pow2(i), 0, x);
  }

  lemma ChoiceIsCh(x: Word, y: Word, z: Word)
    ensures Choice(x, y, z) == Ch(x, y, z)
  {
    hide LimbOp, Bit;
    forall i: nat
      ensures Bit(Choice(x, y, z), i) == Bit(Ch(x, y, z), i)
    {
      if i >= 32 {
        HighBitClear(Choice(x, y, z), i);
        HighBitClear(Ch(x, y, z), i);
      } else {
        LimbOpBit(Xor, y, z, i);
        LimbOpBit(And, x, WordXor(y, z), i);
        LimbOpBit(Xor, z, WordAnd(x, WordXor(y, z)), i);
        NotBit(x, i);
        LimbOpBit(And, x, y, i);
        LimbOpBit(And, Not(x), z, i);
        LimbOpBit(Xor, WordAnd(x, y), WordAnd(Not(x), z), i);
      }
    }
    SameBits(Choice(x, y, z), Ch(x, y, z));
  }

  lemma MajorityIsMaj(x: Word, y: Word, z: Word)
    ensures Majority(x, y, z) == Maj(x, y, z)
  {
    hide LimbOp, Bit;
    forall i: nat
      ensures Bit(Majority(x, y, z), i) == Bit(Maj(x, y, z), i)
    {
      LimbOpBit(Xor, x, y, i);
      LimbOpBit(And, z, WordXor(x, y), i);
      LimbOpBit(And, x, y, i);
      LimbOpBit(And, x, z, i);
      LimbOpBit(And, y, z, i);
      LimbOpBit(Xor, WordAnd(x, y), WordAnd(z, WordXor(x, y)), i);
      LimbOpBit(Xor, WordAnd(x, y), WordAnd(x, z), i);
      LimbOpBit(Xor, WordXor(WordAnd(x, y), WordAnd(x, z)), WordAnd(y, z), i);
    }
    SameBits(Majority(x, y, z), Maj(x, y, z));
  }

  lemma RotateOtherWay(n: nat, x: Word)
    requires 0 < n < 32
    ensures Rotl32(n, x) == Rotr(32 - n, x)
  {
    OrCommutes(Shl(x, n), Shr(x, 32 - n));
  }

  // ------------------------------------------------------ the standard's functions, bit by bit

  lemma {:induction false} BitScaled(y: nat, c: nat, j: nat)
    ensures Bit(y * Pow2(c), j) == (j >= c && Bit(y, j - c))
  {
    hide Bit;
    if c > 0 {
      var x, half := y * Pow2(c), y * Pow2(c - 1);
      assert x == 2 * half by {
        Regroup(y, Pow2(c - 1));
      }
      if j == 0 {
        BitZero(x);
      } else {
        BitShift(x, j - 1);
        assert x / 2 == half;
        BitScaled(y, c - 1, j - 1);
      }
    }
  }

  lemma Regroup(y: nat, p: nat)
    ensures y * (2 * p) == 2 * (y * p)
  {
  }

  lemma {:induction false} BitLow(x: nat, m: nat, i: nat)
    requires i < m
    ensures Bit(x % Pow2(m), i) == Bit(x, i)
    decreases m
  {
    var y := x % Pow2(m);
    ModTwice(x, Pow2(m - 1));
    assert y / 2 == x / 2 % Pow2(m - 1) && y % 2 == x % 2;
    if i == 0 {
      BitZero(x);
      BitZero(y);
    } else {
      BitShift(x, i - 1);
      BitShift(y, i - 1);
      BitLow(x / 2, m - 1, i - 1);
    }
  }

  lemma ShrBit(n: nat, x: Word, j: nat)
    ensures Bit(Shr(x, n), j) == Bit(x, j + n)
  {
    hide Pow2;
    DivDiv(x, Pow2(n), Pow2(j));
    Pow2Add(n, j);
  }

  lemma ShlBit(c: nat, x: Word, j: nat)
    requires 0 < c < 32 && j < 32
    ensures Bit(Shl(x, c), j) == (j >= c && Bit(x, j - c))
  {
    hide Bit, Pow2;
    Pow2Of32();
    Pow2Add(c, 32 - c);
    ShiftSplit(x, Pow2(c), Pow2(32 - c));
    BitScaled(x % Pow2(32 - c), c, j);
    if j >= c {
      BitLow(x, 32 - c, j - c);
    }
  }

  /** Rotation to the right by n moves bit j + n, counted around, to j. */
  lemma RotrBit(n: nat, x: Word, j: nat)
    requires 0 < n < 32 && j < 32
    ensures Bit(Rotr(n, x), j) == Bit(x, (j + n) % 32)
  {
    hide Bit, LimbOp, Shl, Shr;
    LimbOpBit(Or, Shr(x, n), Shl(x, 32 - n), j);
    ShrBit(n, x, j);
    ShlBit(32 - n, x, j);
    if j + n >= 32 {
      HighBitClear(x, j + n);
      DivModUnique(j + n, 32, 1, j + n - 32);
    }
  }

  lemma XorBit(x: Word, y: Word, z: Word, j: nat)
    ensures Bit(WordXor(WordXor(x, y), z), j) == ((Bit(x, j) != Bit(y, j)) != Bit(z, j))
  {
    hide Bit, LimbOp;
    LimbOpBit(Xor, x, y, j);
    LimbOpBit(Xor, WordXor(x, y), z, j);
  }

  /** The sigma functions of section 4.1.2 of FIPS 180-4 */
  lemma SigmaBits(x: Word, j: nat)
    requires j < 32
    ensures Bit(BigSigma0(x), j) == ((Bit(x, (j + 2) % 32) != Bit(x, (j + 13) % 32)) != Bit(x, (j + 22) % 32))
    ensures Bit(BigSigma1(x), j) == ((Bit(x, (j + 6) % 32) != Bit(x, (j + 11) % 32)) != Bit(x, (j + 25) % 32))
    ensures Bit(SmallSigma0(x), j) == ((Bit(x, (j + 7) % 32) != Bit(x, (j + 18) % 32)) != Bit(x, j + 3))
    ensures Bit(SmallSigma1(x), j) == ((Bit(x, (j + 17) % 32) != Bit(x, (j + 19) % 32)) != Bit(x, j + 10))
  {
    hide Bit, WordXor, Rotr, Shr;
    RotrBit(2, x, j);
    RotrBit(13, x, j);
    RotrBit(22, x, j);
    XorBit(Rotr(2, x), Rotr(13, x), Rotr(22, x), j);
    RotrBit(6, x, j);
    RotrBit(11, x, j);
    RotrBit(25, x, j);
    XorBit(Rotr(6, x), Rotr(11, x), Rotr(25, x), j);
    RotrBit(7, x, j);
    RotrBit(18, x, j);
    ShrBit(3, x, j);
    XorBit(Rotr(7, x), Rotr(18, x), Shr(x, 3), j);
    RotrBit(17, x, j);
    RotrBit(19, x, j);
    ShrBit(10, x, j);
    XorBit(Rotr(17, x), Rotr(19, x), Shr(x, 10), j);
  }

  /** Ch chooses between the bits of y and z by those of x; Maj takes the bit that most of the three
      have. */
  lemma ChoiceBits(x: Word, y: Word, z: Word, j: nat)
    requires j < 32
    ensures Bit(Ch(x, y, z), j) == if Bit(x, j) then Bit(y, j) else Bit(z, j)
    ensures Bit(Maj(x, y, z), j) ==
      ((Bit(x, j) && Bit(y, j)) || (Bit(x, j) && Bit(z, j)) || (Bit(y, j) && Bit(z, j)))
  {
    hide Bit, LimbOp;
    NotBit(x, j);
    LimbOpBit(And, x, y, j);
    LimbOpBit(And, Not(x), z, j);
    LimbOpBit(Xor, WordAnd(x, y), WordAnd(Not(x), z), j);
    LimbOpBit(And, x, z, j);
    LimbOpBit(And, y, z, j);
    XorBit(WordAnd(x, y), WordAnd(x, z), WordAnd(y, z), j);
  }

  // -------------------------------------------------- section 6.2.2 of FIPS 180-4, by index

  /** The 64 words of the message schedule of a block */
  ghost predicate IsSchedule(w: seq<Word>, input: seq<Byte>) {
    && |w| == 64 && |input| >= 64
    && (forall t :: 0 <= t < 16 ==> w[t] == BE(input[4 * t..4 * t + 4], 256))
    && forall t :: 16 <= t < 64 ==> IsExpanded(w, t)
  }

  predicate IsExpanded(w: seq<Word>, t: nat)
    requires 16 <= t < |w|
  {
    w[t] == (SmallSigma1(w[t - 2]) + w[t - 7] + SmallSigma0(w[t - 15]) + w[t - 16]) % B
  }

  /** One round on the eight working variables a to h, numbered from 0 */
  ghost predicate IsRound(v: seq<Word>, v': seq<Word>, k: Word, w: Word) {
    && |v| == |v'| == 8
    && var t1 := (v[7] + BigSigma1(v[4]) + Ch(v[4], v[5], v[6]) + k + w) % B;
       var t2 := (BigSigma0(v[0]) + Maj(v[0], v[1], v[2])) % B;
       && v'[0] == (t1 + t2) % B && v'[4] == (v[3] + t1) % B
       && forall i :: 0 <= i < 7 && i != 3 ==> v'[i + 1] == v[i]
  }

  /** The working variables before, between and after the 64 rounds */
  ghost predicate IsRun(v: seq<seq<Word>>, state: seq<Word>, k: seq<Word>, w: seq<Word>) {
    && |v| == 65 && |k| == 64 && |w| == 64 && v[0] == state
    && forall t :: 0 <= t < 64 ==> IsRound(v[t], v[t + 1], k[t], w[t])
  }

  /** The new chaining value */
  ghost predicate IsCompression(state: seq<Word>, k: seq<Word>, input: seq<Byte>, state': seq<Word>) {
    exists w: seq<Word>, v: seq<seq<Word>> ::
      && IsSchedule(w, input) && IsRun(v, state, k, w)
      && |state| == |v[64]| == |state'| == 8 && forall i :: 0 <= i < 8 ==> state'[i] == (state[i] + v[64][i]) % B
  }

  function Words(r: Registers): seq<Word> {
    [r.a, r.b, r.c, r.d, r.e, r.f, r.g, r.h]
  }

  lemma BlockOctets(input: seq<Byte>, t: nat)
    requires 4 * t + 4 <= |input|
    ensures BlockWord(input, t) == BE(input[4 * t..4 * t + 4], 256)
  {
    var s := input[4 * t..4 * t + 4];
    assert s[..3][..2] == s[..2] && s[..2][..1] == s[..1] && s[..1][..0] == [];
    assert BE(s[..1], 256) == s[0] && BE(s[..2], 256) == BE(s[..1], 256) * 256 + s[1];
    assert BE(s[..3], 256) == BE(s[..2], 256) * 256 + s[2];
  }

  lemma ScheduleIs(input: seq<Byte>) returns (w: seq<Word>)
    requires |input| >= 64
    ensures IsSchedule(w, input) && forall t: nat :: t < 64 ==> w[t] == Schedule(Block(input), t)
  {
    hide Schedule, Block, BE, IsExpanded;
    var m := Block(input);
    w := seq(64, t requires 0 <= t < 64 => Schedule(m, t));
    ScheduleStarts(w, input);
    ScheduleContinues(w, m);
  }

  lemma ScheduleStarts(w: seq<Word>, input: seq<Byte>)
    requires |input| >= 64 && |w| == 64 && forall t: nat :: t < 64 ==> w[t] == Schedule(Block(input), t)
    ensures forall t :: 0 <= t < 16 ==> w[t] == BE(input[4 * t..4 * t + 4], 256)
  {
    hide Schedule, BlockWord, BE;
    forall t | 0 <= t < 16
      ensures w[t] == BE(input[4 * t..4 * t + 4], 256)
    {
      ScheduleFirst(Block(input), t);
      BlockOctets(input, t);
    }
  }

  lemma ScheduleContinues(w: seq<Word>, m: seq<Word>)
    requires |m| == 16 && |w| == 64 && forall t: nat :: t < 64 ==> w[t] == Schedule(m, t)
    ensures forall t :: 16 <= t < 64 ==> IsExpanded(w, t)
  {
    hide SmallSigma0, SmallSigma1, Schedule;
    forall t | 16 <= t < 64
      ensures IsExpanded(w, t)
    {
      ScheduleSum(m, t);
    }
  }

  lemma ScheduleFirst(m: seq<Word>, t: nat)
    requires |m| == 16 && t < 16
    ensures Schedule(m, t) == m[t]
  {
  }

  lemma RoundIs(r: Registers, k: Word, w: Word)
    ensures IsRound(Words(r), Words(Round(r, k, w)), k, w)
  {
    hide BigSigma0, BigSigma1, Ch, Maj;
    var v, v' := Words(r), Words(Round(r, k, w));
    assert v'[1] == v[0] && v'[2] == v[1] && v'[3] == v[2] && v'[5] == v[4] && v'[6] == v[5] && v'[7] == v[6];
  }

  lemma RoundsNext(r: Registers, k: seq<Word>, m: seq<Word>, t: nat)
    requires |m| == 16 && t < |k|
    ensures Rounds(r, k, m, t + 1) == Round(Rounds(r, k, m, t), k[t], Schedule(m, t))
    ensures Rounds(r, k, m, 0) == r
  {
    hide Round, Schedule;
  }

  /** The compression function is that of the standard. */
  lemma CompressedIs(state: seq<Word>, k: seq<Word>, input: seq<Byte>)
    requires |state| == 8 && |k| == 64 && |input| >= 64
    ensures IsCompression(state, k, input, Compressed(state, k, Block(input)))
  {
    hide Round, Rounds, Schedule, Block, IsSchedule, IsRound;
    var w := ScheduleIs(input);
    IsScheduleSize(w, input);
    var m, r0 := Block(input), InitialRegisters(state);
    var v := seq(65, t requires 0 <= t < 65 => Words(Rounds(r0, k, m, t)));
    forall t | 0 <= t < 64
      ensures IsRound(v[t], v[t + 1], k[t], w[t])
    {
      RoundsNext(r0, k, m, t);
      RoundIs(Rounds(r0, k, m, t), k[t], Schedule(m, t));
    }
    RoundsNext(r0, k, m, 0);
    assert v[0] == state;
    assert IsRun(v, state, k, w);
  }

  lemma IsScheduleSize(w: seq<Word>, input: seq<Byte>)
    requires IsSchedule(w, input)
    ensures |w| == 64
  {
  }

  lemma BigSigmasAgree(x: Word)
    ensures S0(x) == BigSigma0(x) && S1(x) == BigSigma1(x)
  {
    hide Rotl32, Rotr, WordXor;
    RotateOtherWay(30, x);
    RotateOtherWay(19, x);
    RotateOtherWay(10, x);
    RotateOtherWay(26, x);
    RotateOtherWay(21, x);
    RotateOtherWay(7, x);
  }

  lemma SmallSigmasAgree(x: Word)
    ensures Small0(x) == SmallSigma0(x) && Small1(x) == SmallSigma1(x)
  {
    hide Rotl32, Rotr, WordXor, Shr;
    RotateOtherWay(25, x);
    RotateOtherWay(14, x);
    RotateOtherWay(15, x);
    RotateOtherWay(13, x);
  }

  // ------------------------------------------------------------------------------ rounds

  /** Wrapping an addend wraps the sum alike. */
  lemma SumOfRemainder(x: int, y: int)
    ensures (x + y % B) % B == (x + y) % B
  {
  }

  /** The ROUND macro: only d and h change; the caller renames the registers. */
  method RoundStep(a: Word, b: Word, c: Word, d: Word, e: Word, f: Word, g: Word, h: Word, k: Word, w: Word)
    returns (d': Word, h': Word)
    ensures Registers(h', a, b, c, d', e, f, g) == Round(Registers(a, b, c, d, e, f, g, h), k, w)
  {
    hide S0, S1, BigSigma0, BigSigma1, Choice, Ch, Majority, Maj;
    BigSigmasAgree(e);
    BigSigmasAgree(a);
    ChoiceIsCh(e, f, g);
    MajorityIsMaj(a, b, c);
    h' := (h + S1(e) + Choice(e, f, g) + k + w) % B;
    d' := (d + h') % B;
    SumOfRemainder(h', S0(a) + Majority(a, b, c));
    h' := (h' + S0(a) + Majority(a, b, c)) % B;
  }

  /** The 16-word buffer holds the last 16 schedule words before t, each at its index mod 16. */
  predicate Window(data: seq<Word>, m: seq<Word>, t: nat) {
    |data| == 16 == |m| && t >= 16 && forall u :: t - 16 <= u < t ==> data[u % 16] == Schedule(m, u)
  }

  /** The EXPAND macro at round t, whose slot is i. */
  method Expand(data: array<Word>, i: nat, ghost t: nat, ghost m: seq<Word>) returns (w: Word)
    requires Window(data[..], m, t) && i == t % 16
    modifies data
    ensures Window(data[..], m, t + 1) && w == Schedule(m, t)
  {
    hide Small0, Small1, SmallSigma0, SmallSigma1, Schedule;
    SlotFacts(data[..], m, t);
    SmallSigmasAgree(data[(i + 14) % 16]);
    SmallSigmasAgree(data[(i + 1) % 16]);
    ScheduleSum(m, t);
    ghost var before := data[..];
    data[i] := (data[i] + Small1(data[(i + 14) % 16]) + data[(i + 9) % 16] + Small0(data[(i + 1) % 16])) % B;
    w := data[i];
    SlideWindow(before, data[..], m, t);
  }

  /** `(i - n) & 15` in the slots that EXPAND reads. */
  lemma SlotFacts(data: seq<Word>, m: seq<Word>, t: nat)
    requires Window(data, m, t)
    ensures var i := t % 16;
      && data[i] == Schedule(m, t - 16) && data[(i + 14) % 16] == Schedule(m, t - 2)
      && data[(i + 9) % 16] == Schedule(m, t - 7) && data[(i + 1) % 16] == Schedule(m, t - 15)
  {
    hide Schedule;
    Slot(t, 16);
    Slot(t, 2);
    Slot(t, 7);
    Slot(t, 15);
  }

  lemma Slot(t: nat, n: nat)
    requires n <= 16 <= t
    ensures (t - n) % 16 == (t % 16 + 16 - n) % 16
  {
  }

  lemma ScheduleSum(m: seq<Word>, t: nat)
    requires |m| == 16 && t >= 16
    ensures Schedule(m, t) == (SmallSigma1(Schedule(m, t - 2)) + Schedule(m, t - 7)
                               + SmallSigma0(Schedule(m, t - 15)) + Schedule(m, t - 16)) % B
  {
    hide SmallSigma0, SmallSigma1;
  }

  lemma SlideWindow(before: seq<Word>, after: seq<Word>, m: seq<Word>, t: nat)
    requires Window(before, m, t) && after == before[t % 16 := Schedule(m, t)]
    ensures Window(after, m, t + 1)
  {
    hide Schedule;
    forall u | t - 15 <= u < t + 1
      ensures after[u % 16] == Schedule(m, u)
    {
      if u < t {
        SlotsDiffer(u, t);
        assert before[u % 16] == Schedule(m, u);
      }
    }
  }

  lemma SlotsDiffer(u: nat, t: nat)
    requires t - 15 <= u < t
    ensures u % 16 != t % 16
  {
  }

  /** The registers after t rounds. */
  predicate Reached(r: Registers, start: Registers, k: seq<Word>, m: seq<Word>, t: nat) {
    |m| == 16 && t <= |k| && r == Rounds(start, k, m, t)
  }

  lemma OneRound(r: Registers, start: Registers, k: seq<Word>, m: seq<Word>, t: nat, w: Word)
    requires Reached(r, start, k, m, t) && t < |k| && w == Schedule(m, t)
    ensures Reached(Round(r, k[t], w), start, k, m, t + 1)
  {
    hide Schedule, Round;
  }

  /** A round of the first sixteen, on the block's own words. */
  method DirectRound(a: Word, b: Word, c: Word, d: Word, e: Word, f: Word, g: Word, h: Word,
                     k: seq<Word>, t: nat, w: Word, ghost start: Registers, ghost m: seq<Word>)
    returns (d': Word, h': Word)
    requires Reached(Registers(a, b, c, d, e, f, g, h), start, k, m, t) && t < |k| && w == Schedule(m, t)
    ensures Reached(Registers(h', a, b, c, d', e, f, g), start, k, m, t + 1)
  {
    hide Schedule, Round, Reached;
    OneRound(Registers(a, b, c, d, e, f, g, h), start, k, m, t, w);
    d', h' := RoundStep(a, b, c, d, e, f, g, h, k[t], w);
  }

  /** A round with the schedule word produced on the fly. */
  method ExpandRound(a: Word, b: Word, c: Word, d: Word, e: Word, f: Word, g: Word, h: Word,
                     k: seq<Word>, t: nat, data: array<Word>, i: nat, ghost start: Registers, ghost m: seq<Word>)
    returns (d': Word, h': Word)
    requires Reached(Registers(a, b, c, d, e, f, g, h), start, k, m, t) && t < |k|
    requires Window(data[..], m, t) && i == t % 16
    modifies data
    ensures Reached(Registers(h', a, b, c, d', e, f, g), start, k, m, t + 1) && Window(data[..], m, t + 1)
  {
    hide Schedule, Round, Reached, Window;
    var w := Expand(data, i, t, m);
    d', h' := DirectRound(a, b, c, d, e, f, g, h, k, t, w, start, m);
  }

  /** Eight rounds on the original data; the registers return to their places. */
  method EightDirect(r: Registers, k: seq<Word>, t: nat, data: array<Word>, ghost start: Registers, ghost m: seq<Word>)
    returns (r': Registers)
    requires Reached(r, start, k, m, t) && t + 8 <= 16 && |k| == 64 && data[..] == m
    ensures Reached(r', start, k, m, t + 8)
  {
    hide Round, Reached;
    var A, B, C, D, E, F, G, H := r.a, r.b, r.c, r.d, r.e, r.f, r.g, r.h;
    ReachedBlock(r, start, k, m, t);
    D, H := DirectRound(A, B, C, D, E, F, G, H, k, t, data[t], start, m);
    C, G := DirectRound(H, A, B, C, D, E, F, G, k, t + 1, data[t + 1], start, m);
    B, F := DirectRound(G, H, A, B, C, D, E, F, k, t + 2, data[t + 2], start, m);
    A, E := DirectRound(F, G, H, A, B, C, D, E, k, t + 3, data[t + 3], start, m);
    H, D := DirectRound(E, F, G, H, A, B, C, D, k, t + 4, data[t + 4], start, m);
    G, C := DirectRound(D, E, F, G, H, A, B, C, k, t + 5, data[t + 5], start, m);
    F, B := DirectRound(C, D, E, F, G, H, A, B, k, t + 6, data[t + 6], start, m);
    E, A := DirectRound(B, C, D, E, F, G, H, A, k, t + 7, data[t + 7], start, m);
    r' := Registers(A, B, C, D, E, F, G, H);
  }

  lemma ReachedBlock(r: Registers, start: Registers, k: seq<Word>, m: seq<Word>, t: nat)
    requires Reached(r, start, k, m, t)
    ensures |m| == 16 && forall u: nat :: u < 16 ==> Schedule(m, u) == m[u]
  {
  }

  /** Eight rounds with expansion, starting at slot i. */
  method EightExpanded(r: Registers, k: seq<Word>, t: nat, data: array<Word>, i: nat,
                       ghost start: Registers, ghost m: seq<Word>)
    returns (r': Registers)
    requires Reached(r, start, k, m, t) && t + 8 <= |k| && i <= 8
    requires Window(data[..], m, t) && i == t % 16
    modifies data
    ensures Reached(r', start, k, m, t + 8) && Window(data[..], m, t + 8)
  {
    hide Schedule, Round, Reached, Window;
    var A, B, C, D, E, F, G, H := r.a, r.b, r.c, r.d, r.e, r.f, r.g, r.h;
    D, H := ExpandRound(A, B, C, D, E, F, G, H, k, t, data, i, start, m);
    C, G := ExpandRound(H, A, B, C, D, E, F, G, k, t + 1, data, i + 1, start, m);
    B, F := ExpandRound(G, H, A, B, C, D, E, F, k, t + 2, data, i + 2, start, m);
    A, E := ExpandRound(F, G, H, A, B, C, D, E, k, t + 3, data, i + 3, start, m);
    H, D := ExpandRound(E, F, G, H, A, B, C, D, k, t + 4, data, i + 4, start, m);
    G, C := ExpandRound(D, E, F, G, H, A, B, C, k, t + 5, data, i + 5, start, m);
    F, B := ExpandRound(C, D, E, F, G, H, A, B, k, t + 6, data, i + 6, start, m);
    E, A := ExpandRound(B, C, D, E, F, G, H, A, k, t + 7, data, i + 7, start, m);
    r' := Registers(A, B, C, D, E, F, G, H);
  }

  // ------------------------------------------------------------------------- the function

  /** READ_UINT32 */
  method ReadWord(input: array<Byte>, p: nat) returns (w: Word)
    requires p + 4 <= input.Length && p % 4 == 0
    ensures w == BlockWord(input[..], p / 4)
  {
    hide LimbOr, Shl;
    WordOctets(input[p], input[p + 1], input[p + 2], input[p + 3]);
    w := LimbOr(LimbOr(LimbOr(Shl(input[p], 24), Shl(input[p + 1], 16)), Shl(input[p + 2], 8)), input[p + 3]);
  }

  lemma WordOctets(x: Byte, y: Byte, z: Byte, w: Byte)
    ensures LimbOr(LimbOr(LimbOr(Shl(x, 24), Shl(y, 16)), Shl(z, 8)), w) == Unsigned32(x, y, z, w)
  {
    hide LimbOr, Pow2;
    var x: int, y: int, z: int := x, y, z;
    Pow2Of32();
    Pow2Add(8, 16);
    DivModUnique(x * 0x100_0000, 0x100_0000, x, 0);
    LimbOrDisjoint(x * 0x100_0000, y * 0x1_0000, 24);
    DivModUnique(x * 0x100_0000 + y * 0x1_0000, 0x1_0000, x * 0x100 + y, 0);
    LimbOrDisjoint(x * 0x100_0000 + y * 0x1_0000, z * 0x100, 16);
    DivModUnique(x * 0x100_0000 + y * 0x1_0000 + z * 0x100, 0x100, x * 0x1_0000 + y * 0x100 + z, 0);
    LimbOrDisjoint(x * 0x100_0000 + y * 0x1_0000 + z * 0x100, w, 8);
  }

  /** The block's words, read into the buffer. */
  method ReadBlock(data: array<Word>, input: array<Byte>)
    requires data.Length == 16 && input.Length >= 64 && (data as object) != input
    modifies data
    ensures data[..] == Block(input[..])
  {
    hide BlockWord;
    ghost var m := Block(input[..]);
    var i := 0;
    while i < 16
      invariant 0 <= i <= 16
      invariant forall j :: 0 <= j < i ==> data[j] == m[j]
    {
      data[i] := ReadWord(input, 4 * i);
      i := i + 1;
    }
  }

  /** The 64 rounds. */
  method AllRounds(r0: Registers, data: array<Word>, k: seq<Word>) returns (r: Registers)
    requires data.Length == 16 && |k| == 64
    modifies data
    ensures r == Rounds(r0, k, old(data[..]), 64)
  {
    hide Round, Schedule, Rounds, Reached, Window;
    ghost var m := data[..];
    r := r0;
    ReachedStart(r0, k, m);
    var i := 0;
    while i < 16
      invariant i == 0 || i == 8 || i == 16
      invariant Reached(r, r0, k, m, i) && data[..] == m
    {
      r := EightDirect(r, k, i, data, r0, m);
      i := i + 8;
    }
    WindowStart(m);
    while i < 64
      invariant i == 16 || i == 32 || i == 48 || i == 64
      invariant Reached(r, r0, k, m, i) && Window(data[..], m, i)
    {
      r := EightExpanded(r, k, i, data, 0, r0, m);
      r := EightExpanded(r, k, i + 8, data, 8, r0, m);
      i := i + 16;
    }
    ReachedEnd(r, r0, k, m);
  }

  /** _nettle_sha256_compress, for every chaining value, block and table of constants. */
  method Compress(state: array<Word>, input: array<Byte>, k: seq<Word>)
    requires state.Length == 8 && input.Length >= 64 && |k| == 64 && (state as object) != input
    modifies state
    ensures IsCompression(old(state[..]), k, input[..], state[..])
  {
    hide Rounds, Block, AddRegisters, IsCompression;
    CompressedIs(state[..], k, input[..]);
    var data := new Word[16];
    ReadBlock(data, input);
    var r := AllRounds(InitialRegisters(state[..]), data, k);
    AddToState(state, r);
  }

  /** The update of the chaining value. */
  method AddToState(state: array<Word>, r: Registers)
    requires state.Length == 8
    modifies state
    ensures state[..] == AddRegisters(old(state[..]), r)
  {
    state[0] := (state[0] + r.a) % B;
    state[1] := (state[1] + r.b) % B;
    state[2] := (state[2] + r.c) % B;
    state[3] := (state[3] + r.d) % B;
    state[4] := (state[4] + r.e) % B;
    state[5] := (state[5] + r.f) % B;
    state[6] := (state[6] + r.g) % B;
    state[7] := (state[7] + r.h) % B;
  }

  lemma ReachedStart(start: Registers, k: seq<Word>, m: seq<Word>)
    requires |m| == 16
    ensures Reached(start, start, k, m, 0)
  {
  }

  lemma ReachedEnd(r: Registers, start: Registers, k: seq<Word>, m: seq<Word>)
    requires Reached(r, start, k, m, 64)
    ensures |k| >= 64 && |m| == 16 && r == Rounds(start, k, m, 64)
  {
    hide Rounds;
  }

  lemma WindowStart(m: seq<Word>)
    requires |m| == 16
    ensures Window(m, m, 16)
  {
  }
}
