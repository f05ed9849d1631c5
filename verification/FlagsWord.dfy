/** The flags word after every operator of Rmm: where each flag stands in it, and what no operator touches. */
module FlagsWord {
  import opened Bits
  import opened Alu
  import opened Shifts
  import opened ShiftCounts

  /** The places of the flags that results set, as the processor numbers them. */
  lemma FlagsStandAt(f: bv16, w: nat, v: Word)
    requires w > 0
    ensures Test(f, CF) <==> f & 0x0001 != 0
    ensures Test(f, OF) <==> f & 0x0800 != 0
    ensures ShowsPsz(f, w, v) <==>
      && (f & 0x0004 != 0 <==> PopCount(v) % 2 == 0)
      && (f & 0x0040 != 0 <==> v == 0)
      && (f & 0x0080 != 0 <==> v >= Pow2(w - 1))
  {
  }

  /** The three that |=, ^= and &= leave. */
  lemma OnlyPszStandAt(f: bv16)
    ensures OnlyPszSet(f) <==> f & 0xFF3B == 0
  {
  }

  /** Two words agree in the bits of a mask. */
  predicate Agree(f: bv16, g: bv16, mask: bv16) {
    f & mask == g & mask
  }

  lemma AgreeOn(f: bv16, g: bv16, h: bv16, mask: bv16)
    requires Agree(f, g, mask) && Agree(g, h, mask)
    ensures Agree(f, h, mask)
  {
  }

  lemma PutKeeps(f: bv16, flag: bv16, on: bool, mask: bv16)
    requires flag & mask == 0
    ensures Agree(Put(f, flag, on), f, mask)
  {
  }

  lemma PszKeeps(f: bv16, w: nat, v: Word)
    requires IsWidth(w)
    ensures Agree(WithPsz(f, w, v), f, 0xF73A) && Agree(WithPsz(f, w, v), f, 0xFF3A)
  {
    hide Put, EvenParity, And, Agree;
    PutThree(f, EvenParity(v), v == 0, And(v, MsbMask(w)) != 0, 0xF73A);
    PutThree(f, EvenParity(v), v == 0, And(v, MsbMask(w)) != 0, 0xFF3A);
  }

  lemma PutThree(f: bv16, p: bool, z: bool, s: bool, mask: bv16)
    requires mask == 0xF73A || mask == 0xFF3A
    ensures Agree(Put(Put(Put(f, PF, p), ZF, z), SF, s), f, mask)
  {
    hide Put, Agree;
    var f1 := Put(f, PF, p);
    var f2 := Put(f1, ZF, z);
    PutKeeps(f, PF, p, mask);
    PutKeeps(f1, ZF, z, mask);
    PutKeeps(f2, SF, s, mask);
    AgreeOn(f2, f1, f, mask);
    AgreeOn(Put(f2, SF, s), f2, f, mask);
  }

  lemma FromBigKeeps(f: bv16, w: nat, cur: nat)
    requires IsWidth(w)
    ensures Agree(FromBig(f, w, cur).flags, f, 0xF73A)
  {
    hide Put, And, WithPsz, Low, Agree;
    MasksAreMasks(w);
    var o, c := And(cur, OfMask(w)) != 0, And(cur, CfMask(w)) != 0;
    var f1 := Put(f, OF, o);
    var f2 := Put(f1, CF, c);
    PutKeeps(f, OF, o, 0xF73A);
    PutKeeps(f1, CF, c, 0xF73A);
    PszKeeps(f2, w, Low(cur, w));
    AgreeOn(f2, f1, f, 0xF73A);
    AgreeOn(WithPsz(f2, w, Low(cur, w)), f2, f, 0xF73A);
  }

  lemma FromBigWord(f: bv16, w: nat, cur: nat)
    requires IsWidth(w)
    ensures FromBig(f, w, cur).flags & 0xF73A == f & 0xF73A
  {
    hide FromBig;
    FromBigKeeps(f, w, cur);
  }

  /** Additions, subtractions, comparisons and negations touch CF, PF, ZF, SF and OF only: AF, TF, IF, DF and the bits
      that are no flags stay. */
  lemma ArithmeticKeepsOthers(f: bv16, w: nat, a: Word, b: Word)
    requires IsWidth(w) && a < Pow2(w) && b < Pow2(w)
    ensures Add(f, w, a, b).flags & 0xF73A == f & 0xF73A
    ensures Sub(f, w, a, b).flags & 0xF73A == f & 0xF73A
    ensures Neg(f, w, a).flags & 0xF73A == f & 0xF73A
  {
    hide FromBig, Pow2;
    FromBigWord(f, w, a + b);
    FromBigWord(f, w, Difference(w, a, b));
    FromBigWord(f, w, Pow2(w) - a);
  }

  /** What a shift or rotate of f leaves: CF as told, PF, ZF and SF of its result, and every other bit, OF included. */
  ghost predicate LeavesShift(r: Out, f: bv16, w: nat, carry: bool)
    requires w > 0
  {
    && r.value < Pow2(w) && (Carry(r) <==> carry) && ShowsPsz(r.flags, w, r.value)
    && r.flags & 0xFF3A == f & 0xFF3A
  }

  lemma ShiftedLeavesShift(f: bv16, w: nat, carry: bool, v: nat)
    requires IsWidth(w)
    ensures LeavesShift(Shifted(f, w, carry, v), f, w, carry)
  {
    hide Put, WithPsz, Low, ShowsPsz, Test;
    var f1 := Put(f, CF, carry);
    ShiftedMeans(f, w, carry, v);
    PutKeeps(f, CF, carry, 0xFF3A);
    PszKeeps(f1, w, Low(v, w));
    AgreeOn(WithPsz(f1, w, Low(v, w)), f1, f, 0xFF3A);
  }

  /** Shifts and rotates to the left by any count put the top bit into CF, those to the right the lowest; PF, ZF and SF
      are those of the result, and every other bit of the flags word stays. */
  lemma ShiftsKeepOthers(f: bv16, w: nat, v: Word, num: nat)
    requires IsWidth(w) && v < Pow2(w)
    ensures
      var (top, low) := (v >= Pow2(w - 1), v % 2 == 1);
      && LeavesShift(ShlOp(f, w, v, num), f, w, top) && LeavesShift(RolOp(f, w, v, num), f, w, top)
      && LeavesShift(RclOp(f, w, v, num), f, w, top) && LeavesShift(ShrOp(f, w, v, num), f, w, low)
      && LeavesShift(SarOp(f, w, v, num), f, w, low) && LeavesShift(RorOp(f, w, v, num), f, w, low)
      && LeavesShift(RcrOp(f, w, v, num), f, w, low)
  {
    hide Shifted, LeavesShift, Test, Or, And, Shl, Shr, Lsb;
    MsbIsHalf(w, v);
    LsbIsOdd(v);
    forall x: nat { ShiftedLeavesShift(f, w, Msb(w, v), x); }
    forall x: nat { ShiftedLeavesShift(f, w, Lsb(v), x); }
  }
}
