/** What the operators of Rmm do to a value of 8 or 16 bits and to the flags, and what that means. */
module Alu {
  import opened Bits
  import opened Rotation

  // ----- Flags

  const CF: bv16 := 0x0001
  const PF: bv16 := 0x0004
  const AF: bv16 := 0x0010
  const ZF: bv16 := 0x0040
  const SF: bv16 := 0x0080
  const OF: bv16 := 0x0800

  function Put(f: bv16, flag: bv16, on: bool): bv16 {
    if on then f | flag else f & !flag
  }

  predicate Test(f: bv16, flag: bv16) {
    f & flag != 0
  }

  /** flags_t::clear keeps only !flag of the word, and the logical not of any flag is 0. */
  function Clear(f: bv16, flag: bv16): bv16 {
    f & (if flag == 0 then 1 else 0)
  }

  predicate IsWidth(w: nat) { w == 8 || w == 16 }

  type Word = nat

  /** The result an operator stores, and the flags after it. */
  datatype Out = Out(value: Word, flags: bv16)

  function MsbMask(w: nat): nat
    requires w > 0
  {
    Pow2(w - 1)
  }

  function WithPsz(f: bv16, w: nat, v: Word): bv16
    requires IsWidth(w)
  {
    Put(Put(Put(f, PF, EvenParity(v)), ZF, v == 0), SF, And(v, MsbMask(w)) != 0)
  }

  /** cf_mask and of_mask: what the double width holds above the width, and above its largest signed value. */
  function CfMask(w: nat): int { Pow2(w + w) - 1 - (Pow2(w) - 1) }
  function OfMask(w: nat): int
    requires w > 0
  {
    Pow2(w + w) - 1 - (Pow2(w - 1) - 1)
  }

  lemma {:induction false} Pow2Grows(j: nat, k: nat)
    ensures Pow2(k) <= Pow2(j + k)
    decreases j
  {
    if j > 0 {
      Pow2Grows(j - 1, k);
    }
  }

  lemma MasksAreMasks(w: nat)
    requires IsWidth(w)
    ensures CfMask(w) >= 0 && OfMask(w) >= 0
  {
    Pow2Grows(w, w);
    Pow2Grows(w + 1, w - 1);
  }

  function FromBig(f: bv16, w: nat, cur: nat): Out
    requires IsWidth(w)
  {
    MasksAreMasks(w);
    var f1 := Put(f, OF, And(cur, OfMask(w)) != 0);
    var f2 := Put(f1, CF, And(cur, CfMask(w)) != 0);
    Out(Low(cur, w), WithPsz(f2, w, Low(cur, w)))
  }

  // ----- The operators

  function Add(f: bv16, w: nat, a: Word, b: Word): Out
    requires IsWidth(w)
  {
    FromBig(f, w, a + b)
  }

  /** The difference in the double width, where it wraps. */
  function Difference(w: nat, a: Word, b: Word): nat
    requires IsWidth(w) && a < Pow2(w) && b < Pow2(w)
  {
    Pow2Grows(w, w);
    if a >= b then a - b else Pow2(w + w) + a - b
  }

  function Sub(f: bv16, w: nat, a: Word, b: Word): Out
    requires IsWidth(w) && a < Pow2(w) && b < Pow2(w)
  {
    FromBig(f, w, Difference(w, a, b))
  }

  function Neg(f: bv16, w: nat, v: Word): Out
    requires IsWidth(w) && v < Pow2(w)
  {
    FromBig(f, w, Pow2(w) - v)
  }

  function Logic(f: bv16, w: nat, v: Word): Out
    requires IsWidth(w)
  {
    Out(v, WithPsz(Clear(f, CF | OF | AF), w, v))
  }

  /** A shift or rotate: the carry it leaves, and its result cut to the width. */
  function Shifted(f: bv16, w: nat, carry: bool, v: nat): Out
    requires IsWidth(w)
  {
    Out(Low(v, w), WithPsz(Put(f, CF, carry), w, Low(v, w)))
  }

  predicate Msb(w: nat, v: Word)
    requires w > 0
  {
    And(v, MsbMask(w)) != 0
  }

  predicate Lsb(v: Word) { And(v, 1) != 0 }

  function ShlOp(f: bv16, w: nat, v: Word, num: nat): Out
    requires IsWidth(w)
  {
    Shifted(f, w, Msb(w, v), Shl(v, num))
  }

  function RolOp(f: bv16, w: nat, v: Word, num: nat): Out
    requires IsWidth(w)
  {
    Shifted(f, w, Msb(w, v), Or(Shl(v, num), if Msb(w, v) then 1 else 0))
  }

  function RclOp(f: bv16, w: nat, v: Word, num: nat): Out
    requires IsWidth(w)
  {
    Shifted(f, w, Msb(w, v), Or(Shl(v, num), if Test(f, CF) then 1 else 0))
  }

  function ShrOp(f: bv16, w: nat, v: Word, num: nat): Out
    requires IsWidth(w)
  {
    Shifted(f, w, Lsb(v), Shr(v, num))
  }

  function RcrOp(f: bv16, w: nat, v: Word, num: nat): Out
    requires IsWidth(w)
  {
    Shifted(f, w, Lsb(v), Or(Shr(v, num), if Test(f, CF) then MsbMask(w) else 0))
  }

  function RorOp(f: bv16, w: nat, v: Word, num: nat): Out
    requires IsWidth(w)
  {
    Shifted(f, w, Lsb(v), Or(Shr(v, num), if Lsb(v) then MsbMask(w) else 0))
  }

  /** The sign bit is cleared, what is left is shifted, and the sign bit is put back. */
  function SarOp(f: bv16, w: nat, v: Word, num: nat): Out
    requires IsWidth(w)
  {
    var rest := Shr(And(v, MsbMask(w) - 1), num);
    Shifted(f, w, Lsb(v), if Msb(w, v) then Or(rest, MsbMask(w)) else rest)
  }

  // ----- The masks as comparisons

  lemma MsbIsHalf(w: nat, v: Word)
    requires w > 0 && v < Pow2(w)
    ensures Msb(w, v) <==> v >= Pow2(w - 1)
  {
    HighMaskTest(v, w - 1, 1);
  }

  lemma LsbIsOdd(v: Word)
    ensures Lsb(v) <==> v % 2 == 1
  {
    AndLowMask(v, 1);
    assert Pow2(1) == 2 && Low(v, 1) == v % 2 + 2 * Low(v / 2, 0);
  }

  /** A flag is set as told, and setting one flag leaves the others. */
  lemma FlagsAreSeparate(f: bv16, w: nat, v: Word)
    requires IsWidth(w)
    ensures Test(WithPsz(f, w, v), CF) == Test(f, CF) && Test(WithPsz(f, w, v), OF) == Test(f, OF)
    ensures Test(WithPsz(f, w, v), PF) <==> EvenParity(v)
    ensures Test(WithPsz(f, w, v), ZF) <==> v == 0
    ensures Test(WithPsz(f, w, v), SF) <==> Msb(w, v)
  {
    PutTest(f, EvenParity(v), v == 0, Msb(w, v));
  }

  lemma PutTest(f: bv16, p: bool, z: bool, s: bool)
    ensures
      var g := Put(Put(Put(f, PF, p), ZF, z), SF, s);
      && Test(g, PF) == p && Test(g, ZF) == z && Test(g, SF) == s
      && Test(g, CF) == Test(f, CF) && Test(g, OF) == Test(f, OF)
  {
    hide Put, Test;
    var f1 := Put(f, PF, p);
    var f2 := Put(f1, ZF, z);
    PutOne(f, PF, p);
    PutOne(f1, ZF, z);
    PutOne(f2, SF, s);
  }

  /** One of the flags that results set, and the others. */
  lemma PutOne(f: bv16, flag: bv16, on: bool)
    requires flag == PF || flag == ZF || flag == SF
    ensures Test(Put(f, flag, on), flag) == on
    ensures Test(Put(f, flag, on), CF) == Test(f, CF) && Test(Put(f, flag, on), OF) == Test(f, OF)
    ensures flag != PF ==> Test(Put(f, flag, on), PF) == Test(f, PF)
    ensures flag != ZF ==> Test(Put(f, flag, on), ZF) == Test(f, ZF)
    ensures flag != SF ==> Test(Put(f, flag, on), SF) == Test(f, SF)
  {
  }

  lemma PutCarry(f: bv16, o: bool, c: bool)
    ensures Test(Put(Put(f, OF, o), CF, c), CF) == c && Test(Put(Put(f, OF, o), CF, c), OF) == o
    ensures Test(Put(f, CF, c), CF) == c
  {
  }

  /** PF, ZF and SF tell even parity, zero and the top bit of a value. */
  predicate ShowsPsz(f: bv16, w: nat, v: Word)
    requires w > 0
  {
    && (Test(f, PF) <==> EvenParity(v)) && (Test(f, ZF) <==> v == 0)
    && (Test(f, SF) <==> v >= Pow2(w - 1))
  }

  /** Carry and value of a result are the double-width number; OF is set from half the width up. */
  lemma FromBigMeans(f: bv16, w: nat, cur: nat)
    requires IsWidth(w) && cur < Pow2(w + w)
    ensures
      var r := FromBig(f, w, cur);
      && r.value == Low(cur, w)
      && (Test(r.flags, CF) <==> cur >= Pow2(w)) && (Test(r.flags, OF) <==> cur >= Pow2(w - 1))
      && ShowsPsz(r.flags, w, r.value)
  {
    hide And, Put, Test, Low, EvenParity, Pow2;
    MasksAreMasks(w);
    HighMaskTest(cur, w, w);
    HighMaskTest(cur, w - 1, w + 1);
    PutCarry(f, And(cur, OfMask(w)) != 0, And(cur, CfMask(w)) != 0);
    FlagsAreSeparate(
      Put(Put(f, OF, And(cur, OfMask(w)) != 0), CF, And(cur, CfMask(w)) != 0), w, Low(cur, w));
    MsbIsHalf(w, Low(cur, w));
  }

  // ----- Addition and subtraction

  predicate Carry(r: Out) { Test(r.flags, CF) }

  function CarryBit(f: bv16): nat { if Test(f, CF) then 1 else 0 }

  lemma LowOfSum(cur: nat, w: nat)
    requires cur < 2 * Pow2(w)
    ensures Low(cur, w) == if cur < Pow2(w) then cur else cur - Pow2(w)
  {
    if cur < Pow2(w) {
      LowOfSmall(cur, w);
    } else {
      ShlOfPow2(0, w);
      LowIgnoresHigh(1, cur - Pow2(w), w);
      LowOfSmall(cur - Pow2(w), w);
    }
  }

  lemma {:induction false} DoubleWidth(w: nat)
    ensures Pow2(w + w) == Shl(Pow2(w), w) && Pow2(w + w) >= Pow2(w)
  {
    ShlOfPow2(w, w);
    Pow2Grows(w, w);
  }

  lemma TwiceFits(w: nat)
    requires IsWidth(w)
    ensures 2 * Pow2(w) <= Pow2(w + w)
  {
    Pow2Grows(w - 1, w + 1);
  }

  /** CF and the result are the true sum; PF, ZF and SF are those of the result. */
  lemma AddIsExact(f: bv16, w: nat, a: Word, b: Word)
    requires IsWidth(w) && a < Pow2(w) && b < Pow2(w)
    ensures
      var r := Add(f, w, a, b);
      && r.value < Pow2(w) && r.value + (if Carry(r) then Pow2(w) else 0) == a + b
      && ShowsPsz(r.flags, w, r.value)
  {
    hide Low, And, EvenParity, Pow2, Test, FromBig;
    TwiceFits(w);
    FromBigMeans(f, w, a + b);
    LowOfSum(a + b, w);
  }

  /** CF is the borrow, and the result is the true difference once it is paid back; PF, ZF and SF are those of the
      result, so that ZF tells equal operands. */
  lemma SubIsExact(f: bv16, w: nat, a: Word, b: Word)
    requires IsWidth(w) && a < Pow2(w) && b < Pow2(w)
    ensures
      var r := Sub(f, w, a, b);
      && r.value < Pow2(w) && r.value - (if Carry(r) then Pow2(w) else 0) == a - b
      && ShowsPsz(r.flags, w, r.value) && (Test(r.flags, ZF) <==> a == b)
  {
    hide Low, And, EvenParity, Pow2, Test, FromBig;
    TwiceFits(w);
    FromBigMeans(f, w, Difference(w, a, b));
    if a >= b {
      LowOfSmall(a - b, w);
    } else {
      DoubleWidth(w);
      WrappedDifference(w, Pow2(w) + a - b);
    }
  }

  /** What the flags of a comparison tell. */
  lemma ComparisonTells(f: bv16, w: nat, a: Word, b: Word)
    requires IsWidth(w) && a < Pow2(w) && b < Pow2(w)
    ensures
      var g := Sub(f, w, a, b).flags;
      && (Test(g, CF) <==> a < b) && (Test(g, ZF) <==> a == b)
      && ShowsPsz(g, w, if a >= b then a - b else Pow2(w) + a - b)
  {
    hide Sub, ShowsPsz, Test;
    SubIsExact(f, w, a, b);
  }

  /** 2^2w - 2^w + x is x in the low w bits. */
  lemma WrappedDifference(w: nat, x: nat)
    requires x < Pow2(w)
    ensures Pow2(w + w) >= Pow2(w) && Low(Pow2(w + w) - Pow2(w) + x, w) == x
  {
    hide Low, Shl;
    DoubleWidth(w);
    ShlAdds(Pow2(w) - 1, 1, w);
    ShlOfPow2(0, w);
    LowIgnoresHigh(Pow2(w) - 1, x, w);
    LowOfSmall(x, w);
  }

  /** Subtracting what was added restores the value, and borrows exactly when the addition carried. */
  lemma SubUndoesAdd(f: bv16, w: nat, a: Word, b: Word)
    requires IsWidth(w) && a < Pow2(w) && b < Pow2(w)
    ensures
      var r := Add(f, w, a, b);
      r.value < Pow2(w) && var s := Sub(r.flags, w, r.value, b);
      s.value == a && Carry(s) == Carry(r)
  {
    hide Add, Sub, Carry;
    var r := Add(f, w, a, b);
    AddIsExact(f, w, a, b);
    SubIsExact(r.flags, w, r.value, b);
  }

  /** A word as a two's complement number, and the numbers that a word can hold. */
  function Signed(w: nat, v: Word): int
    requires w > 0
  {
    if v >= Pow2(w - 1) then v - Pow2(w) else v
  }

  predicate Fits(w: nat, x: int)
    requires w > 0
  {
    x + Pow2(w - 1) >= 0 && x < Pow2(w - 1)
  }

  /** OF after an addition tells signed overflow exactly when both operands are non-negative, or when both are negative
      and do overflow. */
  lemma OverflowFlagIsRightExactly(f: bv16, w: nat, a: Word, b: Word)
    requires IsWidth(w) && a < Pow2(w) && b < Pow2(w)
    ensures
      var h := Pow2(w - 1);
      Test(Add(f, w, a, b).flags, OF) == !Fits(w, Signed(w, a) + Signed(w, b)) <==>
        (a < h && b < h) || (a >= h && b >= h && a + b < 3 * h)
  {
    hide Low, And, EvenParity, Test, Put;
    TwiceFits(w);
    FromBigMeans(f, w, a + b);
  }

  /** OF after a subtraction or comparison tells signed overflow exactly when nothing is borrowed and the operands agree
      in sign, or when a negative number is taken from a non-negative one and the difference does overflow. */
  lemma BorrowingOverflowFlagIsRightExactly(f: bv16, w: nat, a: Word, b: Word)
    requires IsWidth(w) && a < Pow2(w) && b < Pow2(w)
    ensures
      var h := Pow2(w - 1);
      Test(Sub(f, w, a, b).flags, OF) == !Fits(w, Signed(w, a) - Signed(w, b)) <==>
        (a >= b && (a >= h <==> b >= h)) || (a < h <= b && b - a <= h)
  {
    hide Low, And, EvenParity, Test, Put;
    TwiceFits(w);
    FromBigMeans(f, w, Difference(w, a, b));
  }

  lemma NegOverflow(f: bv16, w: nat, v: Word)
    requires IsWidth(w) && v < Pow2(w)
    ensures Test(Neg(f, w, v).flags, OF) <==> v <= Pow2(w - 1)
    ensures Test(Sub(f, w, 0, v).flags, OF) <==> v > 0
  {
    hide Low, And, EvenParity, Test, FromBig;
    TwiceFits(w);
    FromBigMeans(f, w, Pow2(w) - v);
    FromBigMeans(f, w, Difference(w, 0, v));
  }

  /** NEG is subtraction from zero, but for CF, which is exactly inverted, and for OF, which agrees only up to half the
      range. Its OF tells signed overflow only from there on. */
  lemma NegInvertsCarry(f: bv16, w: nat, v: Word)
    requires IsWidth(w) && v < Pow2(w)
    ensures
      var (r, s, h) := (Neg(f, w, v), Sub(f, w, 0, v), Pow2(w - 1));
      && r.value == s.value == (if v == 0 then 0 else Pow2(w) - v)
      && Carry(r) != Carry(s) && (Carry(r) <==> v == 0) && ShowsPsz(r.flags, w, r.value)
      && (Test(r.flags, OF) <==> v <= h) && (Test(s.flags, OF) <==> v > 0)
      && (Test(r.flags, OF) == Test(s.flags, OF) <==> 0 < v <= h)
      && (Test(r.flags, OF) == !Fits(w, -Signed(w, v)) <==> v >= h)
  {
    hide Low, And, EvenParity, Test, FromBig;
    TwiceFits(w);
    FromBigMeans(f, w, Pow2(w) - v);
    LowOfSum(Pow2(w) - v, w);
    SubIsExact(f, w, 0, v);
    NegOverflow(f, w, v);
  }

  predicate OnlyPszSet(f: bv16) {
    f & !(PF | ZF | SF) == 0
  }

  /** After |=, ^= and &= every flag but PF, ZF and SF is off, and those are of the result. */
  lemma LogicLeavesOnlyPsz(f: bv16, w: nat, v: Word)
    requires IsWidth(w) && v < Pow2(w)
    ensures
      var r := Logic(f, w, v);
      r.value == v && OnlyPszSet(r.flags) && ShowsPsz(r.flags, w, v)
  {
    hide Put, Test, Clear, EvenParity, And, Pow2, OnlyPszSet;
    FlagsAreSeparate(Clear(f, CF | OF | AF), w, v);
    OnlyPsz(f, EvenParity(v), v == 0, Msb(w, v));
    MsbIsHalf(w, v);
  }

  /** After ^=, PF tells whether the operands have equal parity, and ZF whether they are equal. */
  lemma XorLeavesOnlyPsz(f: bv16, w: nat, a: Word, b: Word)
    requires IsWidth(w) && a < Pow2(w) && b < Pow2(w)
    ensures
      var r := Logic(f, w, Xor(a, b));
      && r.value < Pow2(w) && OnlyPszSet(r.flags)
      && (Test(r.flags, PF) <==> EvenParity(a) == EvenParity(b)) && (Test(r.flags, ZF) <==> a == b)
  {
    hide Logic, Test, EvenParity, Xor, And, Pow2, OnlyPszSet;
    BitwiseBound(a, b, w);
    LogicLeavesOnlyPsz(f, w, Xor(a, b));
    ParityOfXor(a, b);
    XorOfEqual(a, b);
  }

  lemma OnlyPsz(f: bv16, p: bool, z: bool, s: bool)
    ensures OnlyPszSet(Put(Put(Put(Clear(f, CF | OF | AF), PF, p), ZF, z), SF, s))
  {
  }
}
