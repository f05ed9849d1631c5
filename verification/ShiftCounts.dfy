/** shl, shr and sar by a count in one go, as Rmm does them, against as many one-bit ones. */
module ShiftCounts {
  import opened Bits
  import opened Alu
  import opened Shifts

  // ----- Shifts to the right of small numbers

  lemma {:induction false} ShrLast(v: nat, k: nat)
    ensures Shr(v, k + 1) == Shr(v, k) / 2
    decreases k
  {
    if k > 0 {
      ShrLast(v / 2, k - 1);
    } else {
      assert Shr(v, 1) == Shr(v / 2, 0);
    }
  }

  lemma NoShiftRight(u: nat)
    ensures Shr(u, 0) == u
  {
  }

  lemma {:induction false} ShrHalves(v: nat, k: nat)
    requires k > 0
    ensures 2 * Shr(v, k) <= v
    decreases k
  {
    if k > 1 {
      ShrHalves(v / 2, k - 1);
    } else {
      assert Shr(v, 1) == Shr(v / 2, 0);
    }
  }

  lemma ShrShrinks(u: nat, num: nat)
    ensures Shr(u, num) <= u && (num > 0 ==> 2 * Shr(u, num) <= u)
  {
    if num > 0 {
      ShrHalves(u, num);
    }
  }

  // ----- shl and shr

  /** shl(1), k times over. */
  function ShlTimes(f: bv16, w: nat, v: Word, k: nat): Out
    requires IsWidth(w)
    decreases k
  {
    if k == 0 then Out(v, f) else var r := ShlTimes(f, w, v, k - 1); ShlOp(r.flags, w, r.value, 1)
  }

  function ShrTimes(f: bv16, w: nat, v: Word, k: nat): Out
    requires IsWidth(w)
    decreases k
  {
    if k == 0 then Out(v, f) else var r := ShrTimes(f, w, v, k - 1); ShrOp(r.flags, w, r.value, 1)
  }

  /** shl multiplies by a power of two within the width; CF is the bit that was on top, whatever the count. */
  lemma ShlMeans(f: bv16, w: nat, v: Word, num: nat)
    requires IsWidth(w) && v < Pow2(w)
    ensures
      var r := ShlOp(f, w, v, num);
      && r.value == v * Pow2(num) % Pow2(w) && (Carry(r) <==> v >= Pow2(w - 1))
      && ShowsPsz(r.flags, w, r.value)
  {
    hide Shifted, Test, Low, Shl, EvenParity, Pow2, And;
    ShiftedMeans(f, w, Msb(w, v), Shl(v, num));
    MsbIsHalf(w, v);
    ShlMultiplies(v, num);
    ShrDivides(Shl(v, num), w);
  }

  /** shr divides by a power of two; CF is the lowest bit, whatever the count. */
  lemma ShrMeans(f: bv16, w: nat, v: Word, num: nat)
    requires IsWidth(w) && v < Pow2(w)
    ensures
      var r := ShrOp(f, w, v, num);
      && r.value == v / Pow2(num) && (Carry(r) <==> v % 2 == 1)
      && ShowsPsz(r.flags, w, r.value)
  {
    hide Shifted, Test, Low, Shr, EvenParity, Pow2, And;
    ShiftedMeans(f, w, Lsb(v), Shr(v, num));
    LsbIsOdd(v);
    ShrDivides(v, num);
    ShrShrinks(v, num);
    LowOfSmall(Shr(v, num), w);
  }

  lemma LowOfDouble(x: nat, w: nat)
    ensures Low(2 * Low(x, w), w) == Low(2 * x, w)
  {
    hide Low, Shl, Shr;
    var hi, lo := Shr(x, w), Low(x, w);
    SplitAt(x, w);
    ShlAdds(hi, hi, w);
    LowIgnoresHigh(hi + hi, lo + lo, w);
  }

  /** k one-bit shifts give what the one shift gives; the carry is the bit that left last. */
  lemma {:induction false} ShlTimesShift(f: bv16, w: nat, v: Word, k: nat)
    requires IsWidth(w) && v < Pow2(w)
    ensures
      var r := ShlTimes(f, w, v, k);
      && r.value == Low(Shl(v, k), w) && (k > 0 ==> (Carry(r) <==> k <= w && Bit(v, w - k)))
    decreases k
  {
    hide Shifted, Test, Low, Bit, And;
    if k == 0 {
      LowOfSmall(v, w);
    } else {
      var r := ShlTimes(f, w, v, k - 1);
      ShlTimesShift(f, w, v, k - 1);
      ShiftedMeans(r.flags, w, Msb(w, r.value), Shl(r.value, 1));
      MsbIsHalf(w, r.value);
      ShlStep(v, k - 1);
      ShlStep(r.value, 0);
      LowOfDouble(Shl(v, k - 1), w);
      TopBit(r.value, w - 1);
      LowBits(Shl(v, k - 1), w, w - 1);
      ShlBits(v, k - 1, w - 1);
    }
  }

  lemma {:induction false} ShrTimesShift(f: bv16, w: nat, v: Word, k: nat)
    requires IsWidth(w) && v < Pow2(w)
    ensures
      var r := ShrTimes(f, w, v, k);
      && r.value == Shr(v, k) && (k > 0 ==> (Carry(r) <==> Bit(v, k - 1)))
    decreases k
  {
    hide Shifted, Test, Low, Lsb, Shr;
    if k == 0 {
      NoShiftRight(v);
    } else {
      var r := ShrTimes(f, w, v, k - 1);
      ShrTimesShift(f, w, v, k - 1);
      ShiftedMeans(r.flags, w, Lsb(r.value), Shr(r.value, 1));
      LsbIsOdd(r.value);
      ShrLast(v, k - 1);
      ShrLast(r.value, 0);
      NoShiftRight(r.value);
      ShrBits(v, k - 1, 0);
      ShrShrinks(v, k);
      LowOfSmall(Shr(v, k), w);
    }
  }

  /** Setting a flag of the mask changes nothing outside it, and settles that flag. */
  lemma PutWithin(f: bv16, mask: bv16, flag: bv16, on: bool)
    requires flag & !mask == 0
    ensures Put(f, flag, on) & !mask == f & !mask
  {
  }

  lemma PutSettles(f: bv16, g: bv16, mask: bv16, flag: bv16, on: bool)
    requires f & !mask == g & !mask
    ensures Put(f, flag, on) & !(mask & !flag) == Put(g, flag, on) & !(mask & !flag)
  {
  }

  lemma PutSame(f: bv16, flag: bv16, on: bool)
    requires flag == CF || flag == PF || flag == ZF || flag == SF
    ensures Test(f, flag) == on ==> Put(f, flag, on) == f
  {
  }

  function PutShift(f: bv16, c: bool, p: bool, z: bool, s: bool): bv16 {
    Put(Put(Put(Put(f, CF, c), PF, p), ZF, z), SF, s)
  }

  /** The flags of a shift hide those of the shift before it. */
  lemma PutAgain(f: bv16, c: bool, p: bool, z: bool, s: bool, c': bool, p': bool, z': bool, s': bool)
    ensures PutShift(PutShift(f, c, p, z, s), c', p', z', s') == PutShift(f, c', p', z', s')
  {
    hide Put;
    var g := PutShift(f, c, p, z, s);
    PutWithin(f, CF | PF | ZF | SF, CF, c);
    PutWithin(Put(f, CF, c), CF | PF | ZF | SF, PF, p);
    PutWithin(Put(Put(f, CF, c), PF, p), CF | PF | ZF | SF, ZF, z);
    PutWithin(Put(Put(Put(f, CF, c), PF, p), ZF, z), CF | PF | ZF | SF, SF, s);
    PutSettles(g, f, CF | PF | ZF | SF, CF, c');
    PutSettles(Put(g, CF, c'), Put(f, CF, c'), PF | ZF | SF, PF, p');
    PutSettles(Put(Put(g, CF, c'), PF, p'), Put(Put(f, CF, c'), PF, p'), ZF | SF, ZF, z');
    PutSettles(Put(Put(Put(g, CF, c'), PF, p'), ZF, z'), Put(Put(Put(f, CF, c'), PF, p'), ZF, z'), SF, SF, s');
  }

  lemma ShiftedFlags(f: bv16, w: nat, carry: bool, v: nat)
    requires IsWidth(w)
    ensures Shifted(f, w, carry, v).flags
         == PutShift(f, carry, EvenParity(Low(v, w)), Low(v, w) == 0, Msb(w, Low(v, w)))
  {
  }

  lemma LastShiftDecides(f: bv16, w: nat, carry: bool, u: nat, carry': bool, v: nat)
    requires IsWidth(w)
    ensures Shifted(Shifted(f, w, carry, u).flags, w, carry', v) == Shifted(f, w, carry', v)
  {
    hide Low, Msb, EvenParity, PutShift;
    ShiftedFlags(f, w, carry, u);
    ShiftedFlags(f, w, carry', v);
    ShiftedFlags(Shifted(f, w, carry, u).flags, w, carry', v);
    PutAgain(f, carry, EvenParity(Low(u, w)), Low(u, w) == 0, Msb(w, Low(u, w)),
             carry', EvenParity(Low(v, w)), Low(v, w) == 0, Msb(w, Low(v, w)));
  }

  lemma SameLowSameShift(f: bv16, w: nat, carry: bool, u: nat, v: nat)
    requires IsWidth(w) && Low(u, w) == Low(v, w)
    ensures Shifted(f, w, carry, u) == Shifted(f, w, carry, v)
  {
  }

  lemma {:induction false} ShlTimesIsOneShift(f: bv16, w: nat, v: Word, k: nat)
    requires IsWidth(w) && v < Pow2(w) && k > 0
    ensures
      var r := ShlTimes(f, w, v, k);
      r == Shifted(f, w, Carry(r), Shl(v, k))
    decreases k
  {
    hide Shifted, Low, Carry, Shl, Msb;
    var r := ShlTimes(f, w, v, k - 1);
    ShlTimesShift(f, w, v, k - 1);
    ShiftedMeans(r.flags, w, Msb(w, r.value), Shl(r.value, 1));
    ShlTimesShift(f, w, v, k);
    if k > 1 {
      ShlTimesIsOneShift(f, w, v, k - 1);
      LastShiftDecides(f, w, Carry(r), Shl(v, k - 1), Msb(w, r.value), Shl(r.value, 1));
    }
    SameLowSameShift(f, w, Msb(w, r.value), Shl(r.value, 1), Shl(v, k));
  }

  lemma {:induction false} ShrTimesIsOneShift(f: bv16, w: nat, v: Word, k: nat)
    requires IsWidth(w) && v < Pow2(w) && k > 0
    ensures
      var r := ShrTimes(f, w, v, k);
      r == Shifted(f, w, Carry(r), Shr(v, k))
    decreases k
  {
    hide Shifted, Low, Carry, Shr, Lsb;
    var r := ShrTimes(f, w, v, k - 1);
    ShrTimesShift(f, w, v, k - 1);
    ShiftedMeans(r.flags, w, Lsb(r.value), Shr(r.value, 1));
    ShrTimesShift(f, w, v, k);
    ShrShrinks(v, k);
    LowOfSmall(Shr(v, k), w);
    if k > 1 {
      ShrTimesIsOneShift(f, w, v, k - 1);
      LastShiftDecides(f, w, Carry(r), Shr(v, k - 1), Lsb(r.value), Shr(r.value, 1));
    }
    SameLowSameShift(f, w, Lsb(r.value), Shr(r.value, 1), Shr(v, k));
  }

  /** The flags that a shift sets, already there for a value and a carry. */
  predicate Shows(f: bv16, w: nat, carry: bool, v: Word)
    requires w > 0
  {
    Test(f, CF) == carry && ShowsPsz(f, w, v)
  }

  lemma NoShiftShows(f: bv16, w: nat, carry: bool, v: Word)
    requires IsWidth(w) && v < Pow2(w)
    ensures Shifted(f, w, carry, v) == Out(v, f) <==> Shows(f, w, carry, v)
  {
    hide Low, And, EvenParity, Put, Test, Pow2, Shifted, PutShift;
    ShiftedMeans(f, w, carry, v);
    ShiftedFlags(f, w, carry, v);
    LowOfSmall(v, w);
    MsbIsHalf(w, v);
    if Shows(f, w, carry, v) {
      PutShown(f, carry, EvenParity(v), v == 0, v >= Pow2(w - 1));
    }
  }

  lemma PutShown(f: bv16, c: bool, p: bool, z: bool, s: bool)
    requires Test(f, CF) == c && Test(f, PF) == p && Test(f, ZF) == z && Test(f, SF) == s
    ensures PutShift(f, c, p, z, s) == f
  {
    hide Put, Test;
    PutSame(f, CF, c);
    PutSame(f, PF, p);
    PutSame(f, ZF, z);
    PutSame(f, SF, s);
  }

  /** shl(num) gives the value of num times shl(1); it gives the same flags too exactly when the top bit, which it puts
      into CF, equals the bit that would leave last, or, for no shift, when the flags show the value already. */
  lemma ShlIsShiftsExactly(f: bv16, w: nat, v: Word, num: nat)
    requires IsWidth(w) && v < Pow2(w)
    ensures ShlOp(f, w, v, num).value == ShlTimes(f, w, v, num).value
    ensures
      var top := v >= Pow2(w - 1);
      ShlOp(f, w, v, num) == ShlTimes(f, w, v, num) <==>
        if num == 0 then Shows(f, w, top, v) else top == (num <= w && Bit(v, w - num))
  {
    hide Shifted, Test, Low, And, Bit, Pow2, Shows;
    MsbIsHalf(w, v);
    ShlTimesShift(f, w, v, num);
    ShiftedMeans(f, w, Msb(w, v), Shl(v, num));
    if num == 0 {
      NoShiftShows(f, w, Msb(w, v), v);
    } else {
      ShlTimesIsOneShift(f, w, v, num);
    }
  }

  /** shr(num) likewise, with the lowest bit in CF. */
  lemma ShrIsShiftsExactly(f: bv16, w: nat, v: Word, num: nat)
    requires IsWidth(w) && v < Pow2(w)
    ensures ShrOp(f, w, v, num).value == ShrTimes(f, w, v, num).value
    ensures
      var low := v % 2 == 1;
      ShrOp(f, w, v, num) == ShrTimes(f, w, v, num) <==>
        if num == 0 then Shows(f, w, low, v) else low == Bit(v, num - 1)
  {
    hide Shifted, Test, Low, Lsb, Bit, Pow2, Shows;
    LsbIsOdd(v);
    ShrTimesShift(f, w, v, num);
    ShiftedMeans(f, w, Lsb(v), Shr(v, num));
    ShrShrinks(v, num);
    LowOfSmall(Shr(v, num), w);
    if num == 0 {
      NoShiftShows(f, w, Lsb(v), v);
    } else {
      ShrTimesIsOneShift(f, w, v, num);
    }
  }

  // ----- sar

  /** One step of the arithmetic shift: half, with the sign bit kept. */
  function SarStep(w: nat, v: Word): nat
    requires w > 0
  {
    v / 2 + (if v >= Pow2(w - 1) then Pow2(w - 1) else 0)
  }

  function SarSteps(w: nat, v: Word, k: nat): nat
    requires w > 0
    decreases k
  {
    if k == 0 then v else SarStep(w, SarSteps(w, v, k - 1))
  }

  lemma {:induction false} SarStepsBounds(w: nat, v: Word, k: nat)
    requires w > 1 && v < Pow2(w)
    ensures v < Pow2(w - 1) ==> SarSteps(w, v, k) == Shr(v, k) && SarSteps(w, v, k) < Pow2(w - 1)
    ensures v >= Pow2(w - 1) && k > 0 ==> SarSteps(w, v, k) >= Pow2(w - 1) + Pow2(w - 2)
    decreases k
  {
    if k > 0 {
      SarStepsBounds(w, v, k - 1);
      ShrLast(v, k - 1);
    }
  }

  lemma SignCleared(w: nat, v: Word)
    requires IsWidth(w) && v < Pow2(w)
    ensures And(v, MsbMask(w) - 1) == if v < Pow2(w - 1) then v else v - Pow2(w - 1)
  {
    hide And, Low;
    AndLowMask(v, w - 1);
    LowOfSum(v, w - 1);
  }

  lemma SarKeepsSign(f: bv16, w: nat, v: Word, num: nat)
    requires IsWidth(w) && v < Pow2(w)
    ensures SarOp(f, w, v, num).value
         == (if v < Pow2(w - 1) then Shr(v, num) else Pow2(w - 1) + Shr(v - Pow2(w - 1), num))
    ensures num > 0 && v >= Pow2(w - 1) ==> 2 * Shr(v - Pow2(w - 1), num) < Pow2(w - 1)
  {
    hide Put, Test, Low, EvenParity, Or, Shr, WithPsz, And, Msb, Lsb;
    var h := Pow2(w - 1);
    var u := if v < h then v else v - h;
    MsbIsHalf(w, v);
    SignCleared(w, v);
    ShrShrinks(u, num);
    WithSign(w, Shr(u, num));
  }

  lemma WithSign(w: nat, rest: nat)
    requires w > 0 && rest < Pow2(w - 1)
    ensures Low(rest, w) == rest && Low(Or(rest, MsbMask(w)), w) == Pow2(w - 1) + rest
  {
    hide Low, Or;
    ShlOfPow2(0, w - 1);
    OrDisjoint(1, w - 1, rest);
    LowOfSmall(rest, w);
    LowOfSmall(rest + Pow2(w - 1), w);
  }

  /** What an arithmetic shift leaves: the bit that went last in CF, and for no shift the flags as they were. */
  function ArithmeticShift(f: bv16, w: nat, v: Word, num: nat): Out
    requires IsWidth(w)
  {
    if num == 0 then Out(v, f) else Shifted(f, w, SarSteps(w, v, num - 1) % 2 == 1, SarSteps(w, v, num))
  }

  lemma {:induction false} SarStepsBound(w: nat, v: Word, k: nat)
    requires w > 1 && v < Pow2(w)
    ensures SarSteps(w, v, k) < Pow2(w)
    decreases k
  {
    if k > 0 {
      SarStepsBound(w, v, k - 1);
    }
  }

  lemma SarMeans(f: bv16, w: nat, v: Word, num: nat)
    requires IsWidth(w) && v < Pow2(w)
    ensures
      var r := SarOp(f, w, v, num);
      && (Carry(r) <==> v % 2 == 1) && r.value < Pow2(w)
      && r == Shifted(f, w, v % 2 == 1, r.value)
  {
    hide Shifted, Test, Low, Or, Shr, And, Lsb;
    var rest := Shr(And(v, MsbMask(w) - 1), num);
    var wide := if Msb(w, v) then Or(rest, MsbMask(w)) else rest;
    LsbIsOdd(v);
    ShiftedMeans(f, w, Lsb(v), wide);
    LowOfSmall(Low(wide, w), w);
    SameLowSameShift(f, w, Lsb(v), wide, Low(wide, w));
  }

  lemma ShiftedTellsApart(f: bv16, w: nat, c: bool, u: Word, d: bool, v: Word)
    requires IsWidth(w) && u < Pow2(w) && v < Pow2(w)
    ensures Shifted(f, w, c, u) == Shifted(f, w, d, v) <==> c == d && u == v
  {
    hide Shifted, Test, Low;
    ShiftedMeans(f, w, c, u);
    ShiftedMeans(f, w, d, v);
    LowOfSmall(u, w);
    LowOfSmall(v, w);
  }

  lemma SarValueExactly(f: bv16, w: nat, v: Word, num: nat)
    requires IsWidth(w) && v < Pow2(w)
    ensures SarOp(f, w, v, num).value == SarSteps(w, v, num) <==> v < Pow2(w - 1) || num == 0
  {
    hide SarOp, Shr;
    SarKeepsSign(f, w, v, num);
    SarStepsBounds(w, v, num);
    if v >= Pow2(w - 1) {
      NoShiftRight(v - Pow2(w - 1));
    }
  }

  lemma LastBitOut(w: nat, v: Word, k: nat)
    requires IsWidth(w) && v < Pow2(w - 1)
    ensures SarSteps(w, v, k) % 2 == 1 <==> Bit(v, k)
  {
    hide SarSteps;
    SarStepsBounds(w, v, k);
    ShrBits(v, k, 0);
    assert Bit(Shr(v, k), 0) <==> Shr(v, k) % 2 == 1;
  }

  /** sar gives the value of an arithmetic shift exactly for non-negative values, and for no shift at all; it gives the
      flags too exactly when, besides, the lowest bit equals the one that goes last, or, for no shift, when the flags
      show the value already. */
  lemma SarIsArithmeticExactly(f: bv16, w: nat, v: Word, num: nat)
    requires IsWidth(w) && v < Pow2(w)
    ensures SarOp(f, w, v, num).value == SarSteps(w, v, num) <==> v < Pow2(w - 1) || num == 0
    ensures
      var low := v % 2 == 1;
      SarOp(f, w, v, num) == ArithmeticShift(f, w, v, num) <==>
        if num == 0 then Shows(f, w, low, v) else v < Pow2(w - 1) && low == Bit(v, num - 1)
  {
    hide SarOp, SarSteps, Bit, Shows, Shifted, Pow2;
    SarValueExactly(f, w, v, num);
    SarMeans(f, w, v, num);
    if num == 0 {
      NoShiftShows(f, w, v % 2 == 1, v);
      NoSarSteps(w, v);
    } else {
      SarStepsBound(w, v, num);
      if v < Pow2(w - 1) {
        LastBitOut(w, v, num - 1);
      }
      var last := SarSteps(w, v, num - 1) % 2 == 1;
      ShiftedTellsApart(f, w, v % 2 == 1, SarOp(f, w, v, num).value, last, SarSteps(w, v, num));
    }
  }

  lemma NoSarSteps(w: nat, v: Word)
    requires w > 0
    ensures SarSteps(w, v, 0) == v
  {
  }
}
