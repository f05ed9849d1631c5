/** rol, ror, rcl and rcr by a count in one go, as Rmm does them, against as many one-bit ones. */
module RotateCounts {
  import opened Bits
  import opened Rotation
  import opened Alu
  import opened Shifts
  import opened ShiftCounts

  // ----- Parts of a shifted value

  /** What a shift to the left keeps, with t in the lowest bit. */
  lemma KeptOnShift(w: nat, v: nat, k: nat, m: nat, t: nat)
    requires w == m + k && k > 0 && t <= 1
    ensures Low(Or(Shl(v, k), t), w) == Shl(Low(v, m), k) + t
  {
    hide Low, Or, Shl, Shr;
    var lo, hi := Low(v, m), Shr(v, m);
    ShlTwice(v, k - 1, 1);
    OrDisjoint(Shl(v, k - 1), 1, t);
    SplitAt(v, m);
    ShlAdds(Shl(hi, m), lo, k);
    ShlTwice(hi, m, k);
    LowIgnoresHigh(hi, Shl(lo, k) + t, w);
    ShlBound(lo, m, k);
    LowOfSmall(Shl(lo, k) + t, w);
  }

  lemma NothingKeptOnShift(w: nat, v: nat, k: nat, t: nat)
    requires 0 < w <= k && t <= 1
    ensures Low(Or(Shl(v, k), t), w) == t
  {
    hide Low, Or, Shl;
    ShlTwice(v, k - 1, 1);
    OrDisjoint(Shl(v, k - 1), 1, t);
    ShlTwice(v, k - w, w);
    LowIgnoresHigh(Shl(v, k - w), t, w);
    BitFits(w, t);
    LowOfSmall(t, w);
  }

  lemma BitFits(w: nat, t: nat)
    requires w > 0 && t <= 1
    ensures t < Pow2(w)
  {
  }

  /** The bits above bit m: none below 2^m, and at least 2^j from 2^(m+j) up. */
  lemma {:induction false} TopBits(v: nat, j: nat, m: nat)
    ensures Shr(v, m) == 0 <==> v < Pow2(m)
    ensures v >= Pow2(j + m) <==> Shr(v, m) >= Pow2(j)
    decreases m
  {
    if m > 0 {
      TopBits(v / 2, j, m - 1);
    }
  }

  lemma {:induction false} ShrOfSum(a: nat, b: nat, k: nat)
    ensures Shr(Shl(a, k) + b, k) == a + Shr(b, k)
    decreases k
  {
    if k > 0 {
      assert (2 * Shl(a, k - 1) + b) / 2 == Shl(a, k - 1) + b / 2;
      ShrOfSum(a, b / 2, k - 1);
    }
  }

  /** v | 1 and v | 2^(w-1), with those bits already set or not. */
  lemma OrWithOne(v: nat)
    ensures Or(v, 1) == v <==> v % 2 == 1
    ensures Or(v, 0) == v
  {
    if v > 0 {
      assert Or(v, 1) == 1 + 2 * Or(v / 2, 0);
    }
  }

  lemma {:induction false} OrWithPow2(v: nat, k: nat)
    requires v < Pow2(k + 1)
    ensures Or(v, Pow2(k)) == v <==> v >= Pow2(k)
    ensures Or(v, Pow2(k)) < Pow2(k + 1)
    decreases k
  {
    if k > 0 {
      OrWithPow2(v / 2, k - 1);
      assert Pow2(k) % 2 == 0 && Pow2(k) / 2 == Pow2(k - 1);
    }
  }

  // ----- All flags

  /** A shift's value, with the flags that a shift of f leaves for it. */
  predicate IsOneShift(f: bv16, w: nat, r: Out)
    requires IsWidth(w)
  {
    r.value < Pow2(w) && r == Shifted(f, w, Carry(r), r.value)
  }

  lemma ShiftIsOneShift(f: bv16, w: nat, carry: bool, wide: nat)
    requires IsWidth(w)
    ensures IsOneShift(f, w, Shifted(f, w, carry, wide))
  {
    hide Shifted, Test, Low;
    ShiftedMeans(f, w, carry, wide);
    LowOfSmall(Low(wide, w), w);
    SameLowSameShift(f, w, carry, wide, Low(wide, w));
  }

  lemma ShiftAfterShift(f: bv16, w: nat, r: Out, carry: bool, wide: nat)
    requires IsWidth(w) && IsOneShift(f, w, r)
    ensures Shifted(r.flags, w, carry, wide) == Shifted(f, w, carry, wide)
  {
    hide Shifted, Test;
    LastShiftDecides(f, w, Carry(r), r.value, carry, wide);
  }

  /** Two results that each are one shift of the same flags agree in every flag once they agree in value and CF. */
  lemma OneShiftsAgree(f: bv16, w: nat, r: Out, s: Out)
    requires IsWidth(w) && IsOneShift(f, w, r) && IsOneShift(f, w, s)
    ensures r == s <==> r.value == s.value && Carry(r) == Carry(s)
  {
    hide Shifted, Test;
  }

  /** A shift that should have done nothing. */
  lemma OneShiftIsNone(f: bv16, w: nat, r: Out, v: Word)
    requires IsWidth(w) && v < Pow2(w) && IsOneShift(f, w, r)
    ensures r == Out(v, f) <==> r.value == v && Carry(r) == Test(f, CF) && ShowsPsz(f, w, v)
  {
    hide Shifted, Test, ShowsPsz;
    NoShiftShows(f, w, Carry(r), r.value);
  }

  lemma {:induction false} RolTimesIsOneShift(f: bv16, w: nat, v: Word, k: nat)
    requires IsWidth(w) && v < Pow2(w) && k > 0
    ensures IsOneShift(f, w, RolTimes(f, w, v, k))
    decreases k
  {
    hide Shifted, IsOneShift, Test, And, Or, Shl, Shr;
    var r := RolTimes(f, w, v, k - 1);
    var wide := Or(Shl(r.value, 1), if Msb(w, r.value) then 1 else 0);
    if k > 1 {
      RolTimesIsOneShift(f, w, v, k - 1);
      ShiftAfterShift(f, w, r, Msb(w, r.value), wide);
    }
    ShiftIsOneShift(f, w, Msb(w, r.value), wide);
  }

  lemma {:induction false} RorTimesIsOneShift(f: bv16, w: nat, v: Word, k: nat)
    requires IsWidth(w) && v < Pow2(w) && k > 0
    ensures IsOneShift(f, w, RorTimes(f, w, v, k))
    decreases k
  {
    hide Shifted, IsOneShift, Test, And, Or, Shl, Shr;
    var r := RorTimes(f, w, v, k - 1);
    var wide := Or(Shr(r.value, 1), if Lsb(r.value) then MsbMask(w) else 0);
    if k > 1 {
      RorTimesIsOneShift(f, w, v, k - 1);
      ShiftAfterShift(f, w, r, Lsb(r.value), wide);
    }
    ShiftIsOneShift(f, w, Lsb(r.value), wide);
  }

  lemma {:induction false} RclTimesIsOneShift(f: bv16, w: nat, v: Word, k: nat)
    requires IsWidth(w) && v < Pow2(w) && k > 0
    ensures IsOneShift(f, w, RclTimes(f, w, v, k))
    decreases k
  {
    hide Shifted, IsOneShift, Test, And, Or, Shl, Shr;
    var r := RclTimes(f, w, v, k - 1);
    var wide := Or(Shl(r.value, 1), if Test(r.flags, CF) then 1 else 0);
    if k > 1 {
      RclTimesIsOneShift(f, w, v, k - 1);
      ShiftAfterShift(f, w, r, Msb(w, r.value), wide);
    }
    ShiftIsOneShift(f, w, Msb(w, r.value), wide);
  }

  lemma {:induction false} RcrTimesIsOneShift(f: bv16, w: nat, v: Word, k: nat)
    requires IsWidth(w) && v < Pow2(w) && k > 0
    ensures IsOneShift(f, w, RcrTimes(f, w, v, k))
    decreases k
  {
    hide Shifted, IsOneShift, Test, And, Or, Shl, Shr;
    var r := RcrTimes(f, w, v, k - 1);
    var wide := Or(Shr(r.value, 1), if Test(r.flags, CF) then MsbMask(w) else 0);
    if k > 1 {
      RcrTimesIsOneShift(f, w, v, k - 1);
      ShiftAfterShift(f, w, r, Lsb(r.value), wide);
    }
    ShiftIsOneShift(f, w, Lsb(r.value), wide);
  }

  lemma RolAgrees(f: bv16, w: nat, v: Word, num: nat)
    requires IsWidth(w) && v < Pow2(w)
    ensures
      var (r, s) := (RolOp(f, w, v, num), RolTimes(f, w, v, num));
      r == s <==> r.value == s.value && Carry(r) == Carry(s) && (num == 0 ==> ShowsPsz(f, w, v))
  {
    hide Shifted, IsOneShift, Test, And, Or, Shl, Shr, ShowsPsz;
    ShiftIsOneShift(f, w, Msb(w, v), Or(Shl(v, num), if Msb(w, v) then 1 else 0));
    if num == 0 {
      OneShiftIsNone(f, w, RolOp(f, w, v, 0), v);
    } else {
      RolTimesIsOneShift(f, w, v, num);
      OneShiftsAgree(f, w, RolOp(f, w, v, num), RolTimes(f, w, v, num));
    }
  }

  lemma RorAgrees(f: bv16, w: nat, v: Word, num: nat)
    requires IsWidth(w) && v < Pow2(w)
    ensures
      var (r, s) := (RorOp(f, w, v, num), RorTimes(f, w, v, num));
      r == s <==> r.value == s.value && Carry(r) == Carry(s) && (num == 0 ==> ShowsPsz(f, w, v))
  {
    hide Shifted, IsOneShift, Test, And, Or, Shl, Shr, ShowsPsz;
    ShiftIsOneShift(f, w, Lsb(v), Or(Shr(v, num), if Lsb(v) then MsbMask(w) else 0));
    if num == 0 {
      OneShiftIsNone(f, w, RorOp(f, w, v, 0), v);
    } else {
      RorTimesIsOneShift(f, w, v, num);
      OneShiftsAgree(f, w, RorOp(f, w, v, num), RorTimes(f, w, v, num));
    }
  }

  lemma RclAgrees(f: bv16, w: nat, v: Word, num: nat)
    requires IsWidth(w) && v < Pow2(w)
    ensures
      var (r, s) := (RclOp(f, w, v, num), RclTimes(f, w, v, num));
      r == s <==> r.value == s.value && Carry(r) == Carry(s) && (num == 0 ==> ShowsPsz(f, w, v))
  {
    hide Shifted, IsOneShift, Test, And, Or, Shl, Shr, ShowsPsz;
    ShiftIsOneShift(f, w, Msb(w, v), Or(Shl(v, num), if Test(f, CF) then 1 else 0));
    if num == 0 {
      OneShiftIsNone(f, w, RclOp(f, w, v, 0), v);
    } else {
      RclTimesIsOneShift(f, w, v, num);
      OneShiftsAgree(f, w, RclOp(f, w, v, num), RclTimes(f, w, v, num));
    }
  }

  lemma RcrAgrees(f: bv16, w: nat, v: Word, num: nat)
    requires IsWidth(w) && v < Pow2(w)
    ensures
      var (r, s) := (RcrOp(f, w, v, num), RcrTimes(f, w, v, num));
      r == s <==> r.value == s.value && Carry(r) == Carry(s) && (num == 0 ==> ShowsPsz(f, w, v))
  {
    hide Shifted, IsOneShift, Test, And, Or, Shl, Shr, ShowsPsz;
    ShiftIsOneShift(f, w, Lsb(v), Or(Shr(v, num), if Test(f, CF) then MsbMask(w) else 0));
    if num == 0 {
      OneShiftIsNone(f, w, RcrOp(f, w, v, 0), v);
    } else {
      RcrTimesIsOneShift(f, w, v, num);
      OneShiftsAgree(f, w, RcrOp(f, w, v, num), RcrTimes(f, w, v, num));
    }
  }

  // ----- rol and ror

  /** Of the top m bits, at least the lowest is the top bit: for one bit always, for more only when all are clear. */
  lemma TopBitAlone(w: nat, v: nat, m: nat)
    requires 0 < m <= w && v < Pow2(w)
    ensures Shr(v, w - m) == (if v >= Pow2(w - 1) then 1 else 0) <==> m == 1 || v < Pow2(w - m)
  {
    hide Shr;
    TopBits(v, m - 1, w - m);
    ShrBound(v, m, w - m);
  }

  /** The lowest m bits are the lowest one moved to their top: for one bit always, for more only when all are clear. */
  lemma LowBitAlone(v: nat, m: nat)
    requires m > 0
    ensures Low(v, m) == (if v % 2 == 1 then Pow2(m - 1) else 0) <==> m == 1 || Low(v, m) == 0
  {
    assert Low(v, m) == v % 2 + 2 * Low(v / 2, m - 1);
    assert m > 1 ==> Pow2(m - 1) == 2 * Pow2(m - 2);
    if m == 1 {
      assert Low(v / 2, 0) == 0;
    }
  }

  lemma RolKeeps(w: nat, v: nat, m: nat, kept: nat)
    requires 0 < m <= w && v < Pow2(w)
    ensures
      var t := if v >= Pow2(w - 1) then 1 else 0;
      Shl(kept, m) + t == Rotated(w, v, m) <==> kept == Low(v, w - m) && (m == 1 || v < Pow2(w - m))
  {
    hide Shl, Shr, Low;
    TopBitAlone(w, v, m);
    ShrBound(v, m, w - m);
    BitFits(m, 1);
    SplitUnique(kept, if v >= Pow2(w - 1) then 1 else 0, Low(v, w - m), Shr(v, w - m), m);
  }

  /** rol leaves in CF what it brings round to the bottom, and so does rol(1). */
  lemma RolCarry(f: bv16, w: nat, v: Word, num: nat)
    requires IsWidth(w) && v < Pow2(w) && num > 0
    ensures Carry(RolOp(f, w, v, num)) <==> RolOp(f, w, v, num).value % 2 == 1
  {
    hide Shifted, Test, Low, Or, Shl, And;
    var t := if Msb(w, v) then 1 else 0;
    ShiftedMeans(f, w, Msb(w, v), Or(Shl(v, num), t));
    LowBits(Or(Shl(v, num), t), w, 0);
    OrBits(Shl(v, num), t, 0);
    ShlBits(v, num, 0);
  }

  lemma RolTimesCarry(f: bv16, w: nat, v: Word, num: nat)
    requires IsWidth(w) && v < Pow2(w) && num > 0
    ensures Carry(RolTimes(f, w, v, num)) <==> RolTimes(f, w, v, num).value % 2 == 1
  {
    hide EvenParity, Test, RolOp, LeftSteps;
    var r := RolTimes(f, w, v, num - 1);
    RolTimesAreSteps(f, w, v, num - 1);
    RolIsRotation(r.flags, w, r.value);
  }

  lemma RolExactly(f: bv16, w: nat, v: Word, num: nat)
    requires IsWidth(w) && v < Pow2(w)
    ensures RolOp(f, w, v, num).value == Rotl(w, v, num) <==>
      if num == 0 then v < Pow2(w - 1) || v % 2 == 1
      else if num < w then num == 1 || v < Pow2(w - num)
      else v == 0 || (Masked(w, num) == 1 && v == Pow2(w - 1))
  {
    hide Put, Low, EvenParity, And, Or, Shl, Shr, Masked, LeftSteps, Rotated, Rotl, WithPsz;
    var t := if v >= Pow2(w - 1) then 1 else 0;
    var m := Masked(w, num);
    MsbIsHalf(w, v);
    RotlByMasked(w, v, num);
    StepsRotate(w, v, m);
    if num == 0 {
      RolByNone(w, v);
    } else if num < w {
      MaskedIs(w, num, 0, num);
      KeptOnShift(w, v, num, w - num, t);
      RolKeeps(w, v, num, Low(v, w - num));
    } else {
      NothingKeptOnShift(w, v, num, t);
      RolKeepsNothing(w, v, m);
    }
  }

  /** rol(num) is a rotate: for 1 always, for 0 unless it sets the lowest bit, for more only while the bits to bring
      round are all clear, and from the width on only for nothing, or for the top bit brought round by one. Where it is
      one, CF is right as well, but for 0, where it is only if CF showed the top bit before; and every flag is right if,
      for 0, the others showed the value before. */
  lemma RolIsRotateExactly(f: bv16, w: nat, v: Word, num: nat)
    requires IsWidth(w) && v < Pow2(w)
    ensures RolOp(f, w, v, num).value == Rotl(w, v, num) <==>
      if num == 0 then v < Pow2(w - 1) || v % 2 == 1
      else if num < w then num == 1 || v < Pow2(w - num)
      else v == 0 || (Masked(w, num) == 1 && v == Pow2(w - 1))
    ensures
      var (r, s) := (RolOp(f, w, v, num), RolTimes(f, w, v, num));
      r.value == Rotl(w, v, num) ==>
        && (Carry(r) == Carry(s) <==> num > 0 || Test(f, CF) == (v >= Pow2(w - 1)))
        && (r == s <==> num > 0 || Shows(f, w, v >= Pow2(w - 1), v))
  {
    hide RolOp, RolTimes, Rotl, Masked, ShowsPsz, Pow2, Test;
    RolExactly(f, w, v, num);
    FastRotatesRefineSimple(f, w, v, num);
    RolAgrees(f, w, v, num);
    if num > 0 {
      RolCarry(f, w, v, num);
      RolTimesCarry(f, w, v, num);
    } else {
      RolCarryByNone(f, w, v);
    }
  }

  lemma RolCarryByNone(f: bv16, w: nat, v: Word)
    requires IsWidth(w) && v < Pow2(w)
    ensures Carry(RolOp(f, w, v, 0)) == (v >= Pow2(w - 1)) && RolTimes(f, w, v, 0) == Out(v, f)
  {
    hide Shifted, Test, And, Or, Shl;
    MsbIsHalf(w, v);
    ShiftedMeans(f, w, Msb(w, v), Or(Shl(v, 0), if Msb(w, v) then 1 else 0));
  }

  lemma RolByNone(w: nat, v: nat)
    requires IsWidth(w) && v < Pow2(w)
    ensures
      var t := if v >= Pow2(w - 1) then 1 else 0;
      Low(Or(Shl(v, 0), t), w) == LeftSteps(w, v, Masked(w, 0)) <==> v < Pow2(w - 1) || v % 2 == 1
  {
    hide Low, Or;
    NoSteps(w, v);
    OrWithOne(v);
    BitFits(w, 1);
    BitwiseBound(v, 1, w);
    LowOfSmall(Or(v, 0), w);
    LowOfSmall(Or(v, 1), w);
    assert Shl(v, 0) == v;
  }

  lemma RolKeepsNothing(w: nat, v: nat, m: nat)
    requires IsWidth(w) && m < w && v < Pow2(w)
    ensures
      var t := if v >= Pow2(w - 1) then 1 else 0;
      t == LeftSteps(w, v, m) <==> v == 0 || (m == 1 && v == Pow2(w - 1))
  {
    hide Low, Shl, Shr, LeftSteps, Rotated;
    if m == 0 {
      StepsOfNone(w, v);
    } else {
      StepsRotate(w, v, m);
      ShlZero(m);
      RolKeeps(w, v, m, 0);
      LowOfTop(w, v, m);
    }
  }

  lemma StepsOfNone(n: nat, v: nat)
    requires n > 0 && v < Pow2(n)
    ensures LeftSteps(n, v, 0) == v == RightSteps(n, v, 0)
  {
  }

  lemma LowOfTop(w: nat, v: nat, m: nat)
    requires 0 < m <= w && v < Pow2(w)
    ensures m == 1 ==> (Low(v, w - m) == 0 <==> v == 0 || v == Pow2(w - 1))
    ensures v < Pow2(w - m) ==> Low(v, w - m) == v
  {
    hide Low;
    if v < Pow2(w - m) {
      LowOfSmall(v, w - m);
    }
    if m == 1 {
      LowOfSum(v, w - 1);
    }
  }

  lemma RorKeeps(w: nat, v: nat, m: nat, kept: nat)
    requires 0 < m <= w && v < Pow2(w) && kept < Pow2(w - m)
    ensures
      var top := if v % 2 == 1 then Pow2(w - 1) else 0;
      top + kept == Rotated(w, v, w - m) <==> kept == Shr(v, m) && (m == 1 || Low(v, m) == 0)
  {
    hide Shl, Shr, Low;
    ShrBound(v, w - m, m);
    ShlOfPow2(m - 1, w - m);
    ShlZero(w - m);
    SplitUnique(if v % 2 == 1 then Pow2(m - 1) else 0, kept, Low(v, m), Shr(v, m), w - m);
    LowBitAlone(v, m);
  }

  /** What a shift to the right leaves, with the top bit set or not. */
  lemma ShiftedBelowTop(w: nat, v: nat, num: nat, top: bool)
    requires w > 0 && v < Pow2(w) && num > 0
    ensures Low(Or(Shr(v, num), if top then MsbMask(w) else 0), w) == Shr(v, num) + (if top then Pow2(w - 1) else 0)
  {
    hide Low, Or, Shr, Shl;
    ShrHalves(v, num);
    ShlOfPow2(0, w - 1);
    ShlZero(w - 1);
    OrDisjoint(1, w - 1, Shr(v, num));
    OrDisjoint(0, w - 1, Shr(v, num));
    LowOfSmall(Shr(v, num) + (if top then Pow2(w - 1) else 0), w);
  }

  lemma ShrOfAll(w: nat, v: nat, num: nat)
    requires v < Pow2(w) && w <= num
    ensures Shr(v, num) == 0
  {
    hide Shr;
    Pow2Grows(num - w, w);
    TopBits(v, 0, num);
  }

  lemma RorExactly(f: bv16, w: nat, v: Word, num: nat)
    requires IsWidth(w) && v < Pow2(w)
    ensures RorOp(f, w, v, num).value == Rotr(w, v, num) <==>
      if num == 0 then v >= Pow2(w - 1) || v % 2 == 0
      else if num < w then num == 1 || v % Pow2(num) == 0
      else v == 0 || (Masked(w, num) == 1 && v == 1)
  {
    hide Put, Low, EvenParity, And, Or, Shl, Shr, Masked, RightSteps, Rotated, Rotr, WithPsz, Lsb;
    LsbIsOdd(v);
    RotrIsSteps(w, v, num);
    if num == 0 {
      RorByNone(w, v);
    } else {
      ShiftedBelowTop(w, v, num, v % 2 == 1);
      if num < w {
        RightIsRestOfTurn(w, v, num, w - num);
        ShrBound(v, w - num, num);
        RorKeeps(w, v, num, Shr(v, num));
        ShrDivides(v, num);
      } else {
        ShrOfAll(w, v, num);
        RorKeepsNothing(w, v, num);
      }
    }
  }

  /** ror leaves in CF what it brings round to the top, and so does ror(1). */
  lemma RorCarry(f: bv16, w: nat, v: Word, num: nat)
    requires IsWidth(w) && v < Pow2(w) && num > 0
    ensures Carry(RorOp(f, w, v, num)) <==> RorOp(f, w, v, num).value >= Pow2(w - 1)
  {
    hide Shifted, Test, Low, Or, Shr, And, Lsb;
    ShiftedMeans(f, w, Lsb(v), Or(Shr(v, num), if Lsb(v) then MsbMask(w) else 0));
    ShiftedBelowTop(w, v, num, Lsb(v));
    ShrHalves(v, num);
  }

  lemma RorTimesCarry(f: bv16, w: nat, v: Word, num: nat)
    requires IsWidth(w) && v < Pow2(w) && num > 0
    ensures Carry(RorTimes(f, w, v, num)) <==> RorTimes(f, w, v, num).value >= Pow2(w - 1)
  {
    hide Test, RorOp, RightSteps;
    var r := RorTimes(f, w, v, num - 1);
    RorTimesAreSteps(f, w, v, num - 1);
    RorIsRotation(r.flags, w, r.value);
  }

  /** ror(num) likewise: for 0 unless it sets the top bit, for more than 1 only while the bits to bring round are all
      clear, and from the width on only for nothing, or for the lowest bit brought round by one. */
  lemma RorIsRotateExactly(f: bv16, w: nat, v: Word, num: nat)
    requires IsWidth(w) && v < Pow2(w)
    ensures RorOp(f, w, v, num).value == Rotr(w, v, num) <==>
      if num == 0 then v >= Pow2(w - 1) || v % 2 == 0
      else if num < w then num == 1 || v % Pow2(num) == 0
      else v == 0 || (Masked(w, num) == 1 && v == 1)
    ensures
      var (r, s) := (RorOp(f, w, v, num), RorTimes(f, w, v, num));
      r.value == Rotr(w, v, num) ==>
        && (Carry(r) == Carry(s) <==> num > 0 || Test(f, CF) == (v % 2 == 1))
        && (r == s <==> num > 0 || Shows(f, w, v % 2 == 1, v))
  {
    hide RorOp, RorTimes, Rotr, Masked, ShowsPsz, Pow2, Test;
    RorExactly(f, w, v, num);
    FastRotatesRefineSimple(f, w, v, num);
    RorAgrees(f, w, v, num);
    if num > 0 {
      RorCarry(f, w, v, num);
      RorTimesCarry(f, w, v, num);
    } else {
      RorCarryByNone(f, w, v);
    }
  }

  lemma RorCarryByNone(f: bv16, w: nat, v: Word)
    requires IsWidth(w) && v < Pow2(w)
    ensures Carry(RorOp(f, w, v, 0)) == (v % 2 == 1) && RorTimes(f, w, v, 0) == Out(v, f)
  {
    hide Shifted, Test, Or, Shr, Lsb;
    LsbIsOdd(v);
    ShiftedMeans(f, w, Lsb(v), Or(Shr(v, 0), if Lsb(v) then MsbMask(w) else 0));
  }

  lemma RorByNone(w: nat, v: nat)
    requires IsWidth(w) && v < Pow2(w)
    ensures Low(Or(Shr(v, 0), if v % 2 == 1 then MsbMask(w) else 0), w) == RightSteps(w, v, 0) <==>
      v >= Pow2(w - 1) || v % 2 == 0
  {
    hide Low, Or;
    OrWithOne(v);
    OrWithPow2(v, w - 1);
    LowOfSmall(v, w);
    LowOfSmall(Or(v, Pow2(w - 1)), w);
    assert Shr(v, 0) == v;
  }

  lemma RorKeepsNothing(w: nat, v: nat, num: nat)
    requires IsWidth(w) && w <= num && v < Pow2(w)
    ensures (if v % 2 == 1 then Pow2(w - 1) else 0) == RightSteps(w, v, num) <==>
      v == 0 || (Masked(w, num) == 1 && v == 1)
  {
    hide Low, Shl, Shr, RightSteps, Rotated, Masked;
    var m: int := Masked(w, num);
    RightStepsByMasked(w, v, num);
    if m == 0 {
      StepsOfNone(w, v);
      assert Pow2(w - 1) == 2 * Pow2(w - 2);
    } else {
      RightIsRestOfTurn(w, v, m, w - m);
      RorKeeps(w, v, m, 0);
      HighOfLow(v, m);
    }
  }

  lemma {:induction false} RightStepsByMasked(w: nat, v: nat, k: nat)
    requires IsWidth(w) && v < Pow2(w)
    ensures RightSteps(w, v, k) == RightSteps(w, v, Masked(w, k))
    decreases k
  {
    hide Masked, RightSteps;
    if k < w {
      MaskedIs(w, k, 0, k);
    } else {
      MaskedTurn(w, k);
      DropRightTurn(w, v, k);
      RightStepsByMasked(w, v, k - w);
    }
  }

  lemma HighOfLow(v: nat, m: nat)
    requires m > 0
    ensures m == 1 ==> (Shr(v, m) == 0 <==> v <= 1)
    ensures Shr(v, m) == 0 && Low(v, m) == 0 <==> v == 0
  {
    SplitAt(v, m);
    ShlZero(m);
    TopBits(v, 0, m);
    if v < Pow2(m) {
      LowOfSmall(v, m);
    }
  }

  // ----- rcl and rcr

  /** A register of w + 1 bits split below its carry. */
  lemma SplitThrough(w: nat, v: nat, c: nat, k: nat, j: nat)
    requires c <= 1 && w == k + j
    ensures
      var x := v + (if c == 1 then Pow2(w) else 0);
      Low(x, k) == Low(v, k) && Shr(x, k) == (if c == 1 then Pow2(j) else 0) + Shr(v, k)
  {
    hide Low, Shr, Shl;
    var top := if c == 1 then Pow2(j) else 0;
    ShlOfPow2(j, k);
    ShlZero(k);
    LowIgnoresHigh(top, v, k);
    ShrOfSum(top, v, k);
  }

  /** What rcl leaves for a count above one, with its carry on top, against a rotation of the whole register. */
  lemma RclKeeps(w: nat, v: nat, c: nat, m: nat, kept: nat)
    requires 1 < m <= w && v < Pow2(w) && c <= 1 && (kept == Low(v, w - m) || kept == 0)
    ensures
      var x := v + (if c == 1 then Pow2(w) else 0);
      (if v >= Pow2(w - 1) then Pow2(w) else 0) + Shl(kept, m) + c == Rotated(w + 1, x, m) <==> c == 0 && v == kept
  {
    hide Low, Shr, Shl;
    var x := v + (if c == 1 then Pow2(w) else 0);
    var top := if v >= Pow2(w - 1) then Pow2(w - m) else 0;
    SplitThrough(w, v, c, w + 1 - m, m - 1);
    assert w + 1 - m == 1 + (w - m);
    RegisterBound(w, v, c);
    ShrBound(x, m, w + 1 - m);
    BitFits(m, c);
    ShlOfPow2(w - m, m);
    ShlZero(m);
    ShlAdds(top, kept, m);
    SplitUnique(top + kept, c, Low(v, w + 1 - m), Shr(x, w + 1 - m), m);
    TopBits(v, m - 2, w + 1 - m);
    LowOfLittle(w, v, m);
  }

  lemma RegisterBound(w: nat, v: nat, c: nat)
    requires v < Pow2(w) && c <= 1
    ensures v + (if c == 1 then Pow2(w) else 0) < Pow2(w + 1)
  {
  }

  /** A value without its top m - 1 bits set. */
  lemma LowOfLittle(w: nat, v: nat, m: nat)
    requires 1 < m <= w
    ensures Pow2(w + 1 - m) <= Pow2(w - 1)
    ensures v < Pow2(w + 1 - m) ==> Low(v, w + 1 - m) == v
  {
    hide Low;
    Pow2Grows(m - 2, w + 1 - m);
    if v < Pow2(w + 1 - m) {
      LowOfSmall(v, w + 1 - m);
    }
  }

  lemma LowIsWhole(v: nat, k: nat)
    ensures v == Low(v, k) <==> v < Pow2(k)
  {
    hide Low;
    if v < Pow2(k) {
      LowOfSmall(v, k);
    }
  }

  /** What rcl stores and its carry, as a register. */
  lemma RclRegister(f: bv16, w: nat, v: Word, num: nat)
    requires IsWidth(w) && v < Pow2(w) && num > 0
    ensures
      var r := RclOp(f, w, v, num);
      && r.value < Pow2(w)
      && Through(r.flags, w, r.value)
        == (if v >= Pow2(w - 1) then Pow2(w) else 0) + (if num < w then Shl(Low(v, w - num), num) else 0) + CarryBit(f)
  {
    hide Put, Low, EvenParity, And, Or, Shl, Shr, WithPsz, Test;
    MsbIsHalf(w, v);
    ShiftedMeans(f, w, Msb(w, v), Or(Shl(v, num), CarryBit(f)));
    if num < w {
      KeptOnShift(w, v, num, w - num, CarryBit(f));
    } else {
      NothingKeptOnShift(w, v, num, CarryBit(f));
    }
  }

  lemma RclByNone(f: bv16, w: nat, v: Word)
    requires IsWidth(w) && v < Pow2(w)
    ensures
      var (r, c) := (RclOp(f, w, v, 0), Test(f, CF));
      r.value == v && Carry(r) == c <==> if c then v >= Pow2(w - 1) && v % 2 == 1 else v < Pow2(w - 1)
  {
    hide Low, Or, Put, Test, WithPsz;
    MsbIsHalf(w, v);
    ShiftedMeans(f, w, Msb(w, v), Or(Shl(v, 0), CarryBit(f)));
    OrWithOne(v);
    BitFits(w, 1);
    BitwiseBound(v, 1, w);
    LowOfSmall(v, w);
    LowOfSmall(Or(v, 1), w);
    assert Shl(v, 0) == v;
  }

  lemma RclWithin(w: nat, v: nat, c: nat, num: nat)
    requires 1 < w && 0 < num <= w && v < Pow2(w) && c <= 1
    ensures
      var x := v + (if c == 1 then Pow2(w) else 0);
      && x < Pow2(w + 1)
      && ((if v >= Pow2(w - 1) then Pow2(w) else 0) + (if num < w then Shl(Low(v, w - num), num) else 0) + c
          == LeftSteps(w + 1, x, num)
          <==> num == 1 || (c == 0 && v < Pow2(w - num)))
  {
    hide Low, Shl, Rotated, LeftSteps;
    var x := v + (if c == 1 then Pow2(w) else 0);
    RegisterBound(w, v, c);
    if num == 1 {
      OneStep(w + 1, x);
      LowOfSum(v, w - 1);
      ShlStep(Low(v, w - 1), 0);
      NoShiftLeft(Low(v, w - 1));
    } else {
      StepsRotate(w + 1, x, num);
      RclKeeps(w, v, c, num, Low(v, w - num));
      LowIsWhole(v, w - num);
      if num == w {
        NothingLow(v);
        ShlZero(num);
      }
    }
  }

  lemma OneStep(n: nat, x: nat)
    requires n > 0 && x < Pow2(n)
    ensures LeftSteps(n, x, 1) == Left1(n, x) && RightSteps(n, x, 1) == Right1(n, x)
  {
    assert LeftSteps(n, x, 0) == x == RightSteps(n, x, 0);
  }

  lemma NoShiftLeft(v: nat)
    ensures Shl(v, 0) == v
  {
  }

  lemma NothingLow(v: nat)
    ensures Low(v, 0) == 0
  {
  }

  lemma RclBeyond(w: nat, v: nat, c: nat, num: nat)
    requires IsWidth(w) && num > w && v < Pow2(w) && c <= 1
    ensures
      var x := v + (if c == 1 then Pow2(w) else 0);
      && x < Pow2(w + 1)
      && ((if v >= Pow2(w - 1) then Pow2(w) else 0) + c == LeftSteps(w + 1, x, num) <==>
            (c == 0 && v == 0) || (TurnCount(w, num) == 1 && (v == 0 || v == Pow2(w - 1))))
  {
    hide LeftSteps, TurnCount, Pow2;
    var m := TurnCount(w, num);
    RegisterBound(w, v, c);
    StepsByTurnCount(w, v + (if c == 1 then Pow2(w) else 0), num);
    TurnCountBound(w, num);
    if m <= 1 {
      RclLittle(w, v, c, m);
    } else {
      RclMuch(w, v, c, m);
    }
  }

  lemma RclMuch(w: nat, v: nat, c: nat, m: nat)
    requires 1 < m <= w && v < Pow2(w) && c <= 1
    ensures
      var x := v + (if c == 1 then Pow2(w) else 0);
      && x < Pow2(w + 1)
      && ((if v >= Pow2(w - 1) then Pow2(w) else 0) + c == LeftSteps(w + 1, x, m) <==> c == 0 && v == 0)
  {
    hide Shl, Low, Rotated, LeftSteps;
    RegisterBound(w, v, c);
    StepsRotate(w + 1, v + (if c == 1 then Pow2(w) else 0), m);
    RclKeeps(w, v, c, m, 0);
    ShlZero(m);
  }

  lemma RclLittle(w: nat, v: nat, c: nat, m: nat)
    requires w > 1 && v < Pow2(w) && c <= 1 && m <= 1
    ensures
      var x := v + (if c == 1 then Pow2(w) else 0);
      && x < Pow2(w + 1)
      && ((if v >= Pow2(w - 1) then Pow2(w) else 0) + c == LeftSteps(w + 1, x, m) <==>
            if m == 0 then c == 0 && v == 0 else v == 0 || v == Pow2(w - 1))
  {
    hide LeftSteps;
    var x := v + (if c == 1 then Pow2(w) else 0);
    RegisterBound(w, v, c);
    StepsOfNone(w + 1, x);
    OneStep(w + 1, x);
  }

  lemma TurnCountBound(w: nat, k: nat)
    requires IsWidth(w)
    ensures TurnCount(w, k) <= w
  {
  }

  lemma RclTurns(f: bv16, w: nat, v: Word, num: nat)
    requires IsWidth(w) && v < Pow2(w) && num > 0
    ensures
      var (r, c) := (RclOp(f, w, v, num), Test(f, CF));
      && r.value < Pow2(w) && Through(f, w, v) < Pow2(w + 1)
      && (Through(r.flags, w, r.value) == LeftSteps(w + 1, Through(f, w, v), num) <==>
            if num <= w then num == 1 || (!c && v < Pow2(w - num))
            else (!c && v == 0) || (TurnCount(w, num) == 1 && (v == 0 || v == Pow2(w - 1))))
  {
    hide RclOp, Test, Low, Shl, LeftSteps, TurnCount, Pow2;
    RclRegister(f, w, v, num);
    if num <= w {
      RclWithin(w, v, CarryBit(f), num);
    } else {
      RclBeyond(w, v, CarryBit(f), num);
    }
  }

  /** rcl(num) rotates value and carry as one register: for 1 always, for 0 only when it changes nothing, for more only
      while the carry and the bits to bring round are clear; beyond the register, only for nothing, or for a carry and
      top bit that a turn of 9 or 17 and one more bit leave where rcl(1) would. The other flags are then right too, but
      for 0, where they are only if they showed the value before. */
  lemma RclIsRotateExactly(f: bv16, w: nat, v: Word, num: nat)
    requires IsWidth(w) && v < Pow2(w)
    ensures
      var (r, s, c) := (RclOp(f, w, v, num), RclTimes(f, w, v, num), Test(f, CF));
      r.value == s.value && Carry(r) == Carry(s) <==>
        if num == 0 then (if c then v >= Pow2(w - 1) && v % 2 == 1 else v < Pow2(w - 1))
        else if num <= w then num == 1 || (!c && v < Pow2(w - num))
        else (!c && v == 0) || (TurnCount(w, num) == 1 && (v == 0 || v == Pow2(w - 1)))
    ensures
      var (r, s) := (RclOp(f, w, v, num), RclTimes(f, w, v, num));
      r == s <==> r.value == s.value && Carry(r) == Carry(s) && (num == 0 ==> ShowsPsz(f, w, v))
  {
    RclAgrees(f, w, v, num);
    hide RclOp, Test, LeftSteps, TurnCount, Pow2, Through;
    if num == 0 {
      RclByNone(f, w, v);
    } else {
      RclTurns(f, w, v, num);
      RclTimesAreSteps(f, w, v, num);
      SameRegister(RclOp(f, w, v, num), RclTimes(f, w, v, num), w);
    }
  }

  /** Twice the low m bits and the carry, against the lowest bit and the carry moved up by m and m - 1. */
  lemma RcrLowPart(v: nat, c: nat, m: nat)
    requires m > 1 && c <= 1
    ensures 2 * Low(v, m) + c == (if v % 2 == 1 then Pow2(m) else 0) + (if c == 1 then Pow2(m - 1) else 0) <==>
      c == 0 && Low(v, m) == 0
  {
    assert Low(v, m) == v % 2 + 2 * Low(v / 2, m - 1);
    assert Pow2(m) == 2 * Pow2(m - 1) && Pow2(m - 1) == 2 * Pow2(m - 2);
  }

  lemma DoubleShift(v: nat, k: nat)
    ensures Shl(v, k + 1) == Shl(2 * v, k)
  {
    ShlStep(v, k);
    ShlAdds(v, v, k);
  }

  /** A register turned to the right by m, split where its lowest m bits come to stand. */
  lemma TurnedRight(w: nat, v: nat, c: nat, m: nat, k: nat)
    requires w == m + k && m > 0 && v < Pow2(w) && c <= 1
    ensures
      var x := v + (if c == 1 then Pow2(w) else 0);
      Rotated(w + 1, x, k + 1) == Shl(2 * Low(v, m) + c, k) + Shr(v, m) && Shr(v, m) < Pow2(k)
  {
    hide Low, Shr, Shl;
    SplitThrough(w, v, c, m, k);
    ShrBound(v, k, m);
    DoubleShift(Low(v, m), k);
    ShlAdds(2 * Low(v, m), c, k);
    ShlOfPow2(0, k);
    ShlZero(k);
  }

  lemma TopAndCarry(m: nat, k: nat, top: bool, carry: bool)
    requires m > 0
    ensures Shl((if top then Pow2(m) else 0) + (if carry then Pow2(m - 1) else 0), k)
         == (if top then Pow2(m + k) else 0) + (if carry then Pow2(m + k - 1) else 0)
  {
    hide Shl;
    ShlOfPow2(m, k);
    ShlOfPow2(m - 1, k);
    ShlZero(k);
    ShlAdds(if top then Pow2(m) else 0, if carry then Pow2(m - 1) else 0, k);
  }

  /** What rcr leaves for a count above one, with its carry on top, against a rotation of the whole register. */
  lemma RcrKeeps(w: nat, v: nat, c: nat, m: nat, kept: nat)
    requires 1 < m <= w && v < Pow2(w) && c <= 1 && kept < Pow2(w - m)
    ensures
      var x := v + (if c == 1 then Pow2(w) else 0);
      (if v % 2 == 1 then Pow2(w) else 0) + (if c == 1 then Pow2(w - 1) else 0) + kept == Rotated(w + 1, x, w + 1 - m)
      <==> c == 0 && Low(v, m) == 0 && kept == Shr(v, m)
  {
    hide Low, Shr, Shl, Pow2, Rotated;
    var high, carry := if v % 2 == 1 then Pow2(m) else 0, if c == 1 then Pow2(m - 1) else 0;
    TurnedRight(w, v, c, m, w - m);
    TopAndCarry(m, w - m, v % 2 == 1, c == 1);
    SplitUnique(high + carry, kept, 2 * Low(v, m) + c, Shr(v, m), w - m);
    RcrLowPart(v, c, m);
  }

  lemma RcrRegister(f: bv16, w: nat, v: Word, num: nat)
    requires IsWidth(w) && v < Pow2(w) && num > 0
    ensures
      var r := RcrOp(f, w, v, num);
      && r.value < Pow2(w)
      && Through(r.flags, w, r.value)
        == (if v % 2 == 1 then Pow2(w) else 0) + (if CarryBit(f) == 1 then Pow2(w - 1) else 0) + Shr(v, num)
  {
    hide Put, Low, EvenParity, And, Or, Shl, Shr, WithPsz, Test, Lsb;
    LsbIsOdd(v);
    ShiftedMeans(f, w, Lsb(v), Or(Shr(v, num), if Test(f, CF) then MsbMask(w) else 0));
    ShiftedBelowTop(w, v, num, Test(f, CF));
  }

  lemma RcrByNone(f: bv16, w: nat, v: Word)
    requires IsWidth(w) && v < Pow2(w)
    ensures
      var (r, c) := (RcrOp(f, w, v, 0), Test(f, CF));
      r.value == v && Carry(r) == c <==> if c then v >= Pow2(w - 1) && v % 2 == 1 else v % 2 == 0
  {
    hide Low, Or, Put, Test, WithPsz, Lsb;
    LsbIsOdd(v);
    ShiftedMeans(f, w, Lsb(v), Or(Shr(v, 0), if Test(f, CF) then MsbMask(w) else 0));
    OrWithOne(v);
    OrWithPow2(v, w - 1);
    LowOfSmall(v, w);
    LowOfSmall(Or(v, Pow2(w - 1)), w);
    assert Shr(v, 0) == v;
  }

  lemma RcrWithin(w: nat, v: nat, c: nat, num: nat)
    requires 1 < w && 0 < num <= w && v < Pow2(w) && c <= 1
    ensures
      var x := v + (if c == 1 then Pow2(w) else 0);
      && x < Pow2(w + 1)
      && ((if v % 2 == 1 then Pow2(w) else 0) + (if c == 1 then Pow2(w - 1) else 0) + Shr(v, num)
          == RightSteps(w + 1, x, num)
          <==> num == 1 || (c == 0 && Low(v, num) == 0))
  {
    hide Low, Shr, Rotated, RightSteps, Right1;
    var x := v + (if c == 1 then Pow2(w) else 0);
    RegisterBound(w, v, c);
    if num == 1 {
      OneStep(w + 1, x);
      Right1Through(w, v, c == 1);
      ShrLast(v, 0);
      NoShiftRight(v);
    } else {
      RightIsRestOfTurn(w + 1, x, num, w + 1 - num);
      ShrBound(v, w - num, num);
      RcrKeeps(w, v, c, num, Shr(v, num));
    }
  }

  lemma RcrBeyond(w: nat, v: nat, c: nat, num: nat)
    requires IsWidth(w) && num > w && v < Pow2(w) && c <= 1
    ensures
      var x := v + (if c == 1 then Pow2(w) else 0);
      && x < Pow2(w + 1)
      && ((if v % 2 == 1 then Pow2(w) else 0) + (if c == 1 then Pow2(w - 1) else 0) == RightSteps(w + 1, x, num) <==>
            (c == 0 && v == 0) || (TurnCount(w, num) == 1 && v <= 1))
  {
    hide RightSteps, TurnCount, Pow2;
    var m := TurnCount(w, num);
    RegisterBound(w, v, c);
    StepsByTurnCount(w, v + (if c == 1 then Pow2(w) else 0), num);
    TurnCountBound(w, num);
    if m <= 1 {
      RcrLittle(w, v, c, m);
    } else {
      RcrMuch(w, v, c, m);
    }
  }

  lemma RcrMuch(w: nat, v: nat, c: nat, m: nat)
    requires 1 < m <= w && v < Pow2(w) && c <= 1
    ensures
      var x := v + (if c == 1 then Pow2(w) else 0);
      && x < Pow2(w + 1)
      && ((if v % 2 == 1 then Pow2(w) else 0) + (if c == 1 then Pow2(w - 1) else 0) == RightSteps(w + 1, x, m) <==>
            c == 0 && v == 0)
  {
    hide Low, Shr, Rotated, RightSteps;
    var x := v + (if c == 1 then Pow2(w) else 0);
    RegisterBound(w, v, c);
    RightIsRestOfTurn(w + 1, x, m, w + 1 - m);
    RcrKeeps(w, v, c, m, 0);
    HighOfLow(v, m);
  }

  lemma RcrLittle(w: nat, v: nat, c: nat, m: nat)
    requires w > 1 && v < Pow2(w) && c <= 1 && m <= 1
    ensures
      var x := v + (if c == 1 then Pow2(w) else 0);
      && x < Pow2(w + 1)
      && ((if v % 2 == 1 then Pow2(w) else 0) + (if c == 1 then Pow2(w - 1) else 0) == RightSteps(w + 1, x, m) <==>
            if m == 0 then c == 0 && v == 0 else v <= 1)
  {
    hide RightSteps, Right1;
    var x := v + (if c == 1 then Pow2(w) else 0);
    RegisterBound(w, v, c);
    StepsOfNone(w + 1, x);
    OneStep(w + 1, x);
    Right1Through(w, v, c == 1);
    assert Pow2(w) == 2 * Pow2(w - 1) && Pow2(w - 1) == 2 * Pow2(w - 2);
  }

  lemma RcrTurns(f: bv16, w: nat, v: Word, num: nat)
    requires IsWidth(w) && v < Pow2(w) && num > 0
    ensures
      var (r, c) := (RcrOp(f, w, v, num), Test(f, CF));
      && r.value < Pow2(w) && Through(f, w, v) < Pow2(w + 1)
      && (Through(r.flags, w, r.value) == RightSteps(w + 1, Through(f, w, v), num) <==>
            if num <= w then num == 1 || (!c && v % Pow2(num) == 0)
            else (!c && v == 0) || (TurnCount(w, num) == 1 && v <= 1))
  {
    hide RcrOp, Test, Low, Shr, RightSteps, TurnCount, Pow2;
    RcrRegister(f, w, v, num);
    if num <= w {
      RcrWithin(w, v, CarryBit(f), num);
      ShrDivides(v, num);
    } else {
      ShrOfAll(w, v, num);
      RcrBeyond(w, v, CarryBit(f), num);
    }
  }

  /** rcr(num) likewise, with the bits to bring round at the bottom. */
  lemma RcrIsRotateExactly(f: bv16, w: nat, v: Word, num: nat)
    requires IsWidth(w) && v < Pow2(w)
    ensures
      var (r, s, c) := (RcrOp(f, w, v, num), RcrTimes(f, w, v, num), Test(f, CF));
      r.value == s.value && Carry(r) == Carry(s) <==>
        if num == 0 then (if c then v >= Pow2(w - 1) && v % 2 == 1 else v % 2 == 0)
        else if num <= w then num == 1 || (!c && v % Pow2(num) == 0)
        else (!c && v == 0) || (TurnCount(w, num) == 1 && v <= 1)
    ensures
      var (r, s) := (RcrOp(f, w, v, num), RcrTimes(f, w, v, num));
      r == s <==> r.value == s.value && Carry(r) == Carry(s) && (num == 0 ==> ShowsPsz(f, w, v))
  {
    RcrAgrees(f, w, v, num);
    hide RcrOp, Test, RightSteps, TurnCount, Pow2, Through;
    if num == 0 {
      RcrByNone(f, w, v);
    } else {
      RcrTurns(f, w, v, num);
      RcrTimesAreSteps(f, w, v, num);
      SameRegister(RcrOp(f, w, v, num), RcrTimes(f, w, v, num), w);
    }
  }
}
