/** The rotates of Rmm, one bit at a time and iterated. */
module Shifts {
  import opened Bits
  import opened Rotation
  import opened Alu

  lemma ShiftedMeans(f: bv16, w: nat, carry: bool, v: nat)
    requires IsWidth(w)
    ensures
      var r := Shifted(f, w, carry, v);
      && r.value == Low(v, w) < Pow2(w) && Carry(r) == carry
      && ShowsPsz(r.flags, w, r.value)
  {
    hide Put, Test, Low, EvenParity, And;
    PutCarry(f, false, carry);
    FlagsAreSeparate(Put(f, CF, carry), w, Low(v, w));
    MsbIsHalf(w, Low(v, w));
  }

  /** Cutting a shifted value to the width drops its top bit. */
  lemma ShiftedLeftMeans(f: bv16, w: nat, v: Word, bit: nat)
    requires IsWidth(w) && v < Pow2(w) && bit <= 1
    ensures
      var r := Shifted(f, w, Msb(w, v), Or(Shl(v, 1), bit));
      && (Carry(r) <==> v >= Pow2(w - 1))
      && r.value == 2 * v + bit - (if v >= Pow2(w - 1) then Pow2(w) else 0)
      && (Test(r.flags, PF) <==> EvenParity(r.value))
  {
    hide Put, Test, Low, EvenParity, And, Or;
    MsbIsHalf(w, v);
    OrDisjoint(v, 1, bit);
    ShlStep(v, 0);
    LowOfSum(2 * v + bit, w);
    PutCarry(f, false, Msb(w, v));
    FlagsAreSeparate(Put(f, CF, Msb(w, v)), w, Low(Or(Shl(v, 1), bit), w));
  }

  lemma ShiftedRightMeans(f: bv16, w: nat, v: Word, top: bool)
    requires IsWidth(w) && v < Pow2(w)
    ensures
      var r := Shifted(f, w, Lsb(v), Or(Shr(v, 1), if top then MsbMask(w) else 0));
      && (Carry(r) <==> v % 2 == 1)
      && r.value == v / 2 + (if top then Pow2(w - 1) else 0)
      && (Test(r.flags, PF) <==> EvenParity(r.value))
  {
    hide Put, Test, Low, EvenParity, And, Or, Shr, Lsb, WithPsz, Shifted, Pow2;
    LsbIsOdd(v);
    OrWithTop(w, v, v / 2, top);
    ShiftedMeans(f, w, Lsb(v), v / 2 + (if top then Pow2(w - 1) else 0));
    LowOfSmall(v / 2 + (if top then Pow2(w - 1) else 0), w);
  }

  lemma OrWithTop(w: nat, v: Word, h: nat, top: bool)
    requires IsWidth(w) && v < Pow2(w) && h == v / 2
    ensures Or(Shr(v, 1), if top then MsbMask(w) else 0) == h + (if top then Pow2(w - 1) else 0) < Pow2(w)
  {
    hide Or;
    assert Shr(v, 1) == Shr(h, 0) == h;
    ShlOfPow2(0, w - 1);
    ShlZero(w - 1);
    OrDisjoint(1, w - 1, h);
    OrDisjoint(0, w - 1, h);
  }

  // ----- rol(1) and ror(1)

  lemma RolIsRotation(f: bv16, w: nat, v: Word)
    requires IsWidth(w) && v < Pow2(w)
    ensures
      var r := RolOp(f, w, v, 1);
      r.value == Left1(w, v) && (Carry(r) <==> v >= Pow2(w - 1)) && (Test(r.flags, PF) <==> EvenParity(r.value))
  {
    hide Shifted, And, Or, Test;
    MsbIsHalf(w, v);
    ShiftedLeftMeans(f, w, v, if Msb(w, v) then 1 else 0);
  }

  lemma RorIsRotation(f: bv16, w: nat, v: Word)
    requires IsWidth(w) && v < Pow2(w)
    ensures
      var r := RorOp(f, w, v, 1);
      r.value == Right1(w, v) && (Carry(r) <==> v % 2 == 1) && (Test(r.flags, PF) <==> EvenParity(r.value))
  {
    hide Shifted, And, Or, Test;
    LsbIsOdd(v);
    ShiftedRightMeans(f, w, v, Lsb(v));
  }

  /** rol(1), k times over. */
  function RolTimes(f: bv16, w: nat, v: Word, k: nat): Out
    requires IsWidth(w)
    decreases k
  {
    if k == 0 then Out(v, f) else var r := RolTimes(f, w, v, k - 1); RolOp(r.flags, w, r.value, 1)
  }

  function RorTimes(f: bv16, w: nat, v: Word, k: nat): Out
    requires IsWidth(w)
    decreases k
  {
    if k == 0 then Out(v, f) else var r := RorTimes(f, w, v, k - 1); RorOp(r.flags, w, r.value, 1)
  }

  lemma {:induction false} RolTimesAreSteps(f: bv16, w: nat, v: Word, k: nat)
    requires IsWidth(w) && v < Pow2(w)
    ensures RolTimes(f, w, v, k).value == LeftSteps(w, v, k)
    ensures k > 0 ==> (Test(RolTimes(f, w, v, k).flags, PF) <==> EvenParity(v))
    decreases k
  {
    hide Test, RolOp, Left1, EvenParity;
    if k > 0 {
      var r := RolTimes(f, w, v, k - 1);
      RolTimesAreSteps(f, w, v, k - 1);
      RolIsRotation(r.flags, w, r.value);
      RotationKeepsParity(w, v, k);
    }
  }

  lemma RotationKeepsParity(n: nat, v: nat, k: nat)
    requires n > 0 && v < Pow2(n)
    ensures EvenParity(LeftSteps(n, v, k)) == EvenParity(v)
  {
    RotationKeepsPopCount(n, v, k);
  }

  lemma {:induction false} RorTimesAreSteps(f: bv16, w: nat, v: Word, k: nat)
    requires IsWidth(w) && v < Pow2(w)
    ensures RorTimes(f, w, v, k).value == RightSteps(w, v, k)
    ensures k > 0 ==> (Test(RorTimes(f, w, v, k).flags, PF) <==> EvenParity(v))
    decreases k
  {
    hide Test, RorOp, Right1, EvenParity, LeftSteps;
    if k > 0 {
      var r := RorTimes(f, w, v, k - 1);
      RorTimesAreSteps(f, w, v, k - 1);
      RorIsRotation(r.flags, w, r.value);
      RightUndoesLeft(w, v, k);
      RotationKeepsParity(w, RightSteps(w, v, k), k);
    }
  }

  /** The fast rotates give what that many one-bit rotates give, and PF never changes on the way. */
  lemma FastRotatesRefineSimple(f: bv16, w: nat, v: Word, k: nat)
    requires IsWidth(w) && v < Pow2(w)
    ensures Rotl(w, v, k) == RolTimes(f, w, v, k).value
    ensures Rotr(w, v, k) == RorTimes(f, w, v, k).value
    ensures k > 0 ==> (Test(RolTimes(f, w, v, k).flags, PF) <==> EvenParity(v))
    ensures k > 0 ==> (Test(RorTimes(f, w, v, k).flags, PF) <==> EvenParity(v))
  {
    hide Test, EvenParity, Rotl, Rotr, RolTimes, RorTimes, LeftSteps, RightSteps;
    RolTimesAreSteps(f, w, v, k);
    RorTimesAreSteps(f, w, v, k);
    RotlIsSteps(w, v, k);
    RotrIsSteps(w, v, k);
  }

  // ----- Rotates through the carry

  /** The register of w + 1 bits with CF on top. */
  function Through(f: bv16, w: nat, v: Word): nat {
    v + (if Test(f, CF) then Pow2(w) else 0)
  }

  /** rcl(1) rotates CF and value together. */
  lemma RclIsRotation(f: bv16, w: nat, v: Word)
    requires IsWidth(w) && v < Pow2(w)
    ensures
      var r := RclOp(f, w, v, 1);
      r.value < Pow2(w) && Through(r.flags, w, r.value) == Left1(w + 1, Through(f, w, v))
  {
    hide Shifted, And, Or, Test;
    ShiftedLeftMeans(f, w, v, CarryBit(f));
  }

  lemma RcrMeans(f: bv16, w: nat, v: Word)
    requires IsWidth(w) && v < Pow2(w)
    ensures
      var r := RcrOp(f, w, v, 1);
      (Carry(r) <==> v % 2 == 1) && r.value == v / 2 + (if Test(f, CF) then Pow2(w - 1) else 0)
  {
    hide Shifted, And, Or, Test, Shr, Lsb, EvenParity;
    ShiftedRightMeans(f, w, v, Test(f, CF));
  }

  lemma RcrIsRotation(f: bv16, w: nat, v: Word)
    requires IsWidth(w) && v < Pow2(w)
    ensures
      var r := RcrOp(f, w, v, 1);
      r.value < Pow2(w) && Through(r.flags, w, r.value) == Right1(w + 1, Through(f, w, v))
  {
    hide RcrOp, Test, Pow2, Right1;
    RcrMeans(f, w, v);
    Right1Through(w, v, Test(f, CF));
  }

  lemma Right1Through(w: nat, v: Word, top: bool)
    requires w > 0 && v < Pow2(w)
    ensures v / 2 + Pow2(w - 1) < Pow2(w) < Pow2(w + 1) && v + Pow2(w) < Pow2(w + 1)
    ensures Right1(w + 1, v + (if top then Pow2(w) else 0))
         == v / 2 + (if top then Pow2(w - 1) else 0) + (if v % 2 == 1 then Pow2(w) else 0)
  {
  }

  /** rcr(1) undoes rcl(1), and the other way round, on value and carry. */
  lemma RcrUndoesRcl(f: bv16, w: nat, v: Word)
    requires IsWidth(w) && v < Pow2(w)
    ensures
      var r := RclOp(f, w, v, 1); var s := RcrOp(r.flags, w, r.value, 1);
      s.value == v && Carry(s) == Test(f, CF)
    ensures
      var r := RcrOp(f, w, v, 1); var s := RclOp(r.flags, w, r.value, 1);
      s.value == v && Carry(s) == Test(f, CF)
  {
    hide RclOp, RcrOp, Test, Left1, Right1;
    var r, q := RclOp(f, w, v, 1), RcrOp(f, w, v, 1);
    RclIsRotation(f, w, v);
    RcrIsRotation(r.flags, w, r.value);
    RcrIsRotation(f, w, v);
    RclIsRotation(q.flags, w, q.value);
    StepsInvert(w + 1, Through(f, w, v));
  }

  function RclTimes(f: bv16, w: nat, v: Word, k: nat): Out
    requires IsWidth(w)
    decreases k
  {
    if k == 0 then Out(v, f) else var r := RclTimes(f, w, v, k - 1); RclOp(r.flags, w, r.value, 1)
  }

  lemma {:induction false} RclTimesAreSteps(f: bv16, w: nat, v: Word, k: nat)
    requires IsWidth(w) && v < Pow2(w)
    ensures
      var r := RclTimes(f, w, v, k);
      r.value < Pow2(w) && Through(r.flags, w, r.value) == LeftSteps(w + 1, Through(f, w, v), k)
    decreases k
  {
    hide Test, RclOp, Left1;
    if k > 0 {
      var r := RclTimes(f, w, v, k - 1);
      RclTimesAreSteps(f, w, v, k - 1);
      RclIsRotation(r.flags, w, r.value);
    }
  }

  function RcrTimes(f: bv16, w: nat, v: Word, k: nat): Out
    requires IsWidth(w)
    decreases k
  {
    if k == 0 then Out(v, f) else var r := RcrTimes(f, w, v, k - 1); RcrOp(r.flags, w, r.value, 1)
  }

  lemma {:induction false} RcrTimesAreSteps(f: bv16, w: nat, v: Word, k: nat)
    requires IsWidth(w) && v < Pow2(w)
    ensures
      var r := RcrTimes(f, w, v, k);
      r.value < Pow2(w) && Through(r.flags, w, r.value) == RightSteps(w + 1, Through(f, w, v), k)
    decreases k
  {
    hide Test, RcrOp, Right1;
    if k > 0 {
      var r := RcrTimes(f, w, v, k - 1);
      RcrTimesAreSteps(f, w, v, k - 1);
      RcrIsRotation(r.flags, w, r.value);
    }
  }

  /** k modulo the w + 1 bits that go round: 9 or 17. */
  function TurnCount(w: nat, k: nat): nat
    requires IsWidth(w)
  {
    if w == 8 then k % 9 else k % 17
  }

  lemma OneTurnLess(w: nat, k: nat)
    requires IsWidth(w) && k >= w + 1
    ensures TurnCount(w, k - (w + 1)) == TurnCount(w, k)
  {
    if w == 8 {
      assert k == 9 * (k / 9) + k % 9;
    } else {
      assert k == 17 * (k / 17) + k % 17;
    }
  }

  lemma NoWholeTurn(w: nat, k: nat)
    requires IsWidth(w) && k < w + 1
    ensures TurnCount(w, k) == k
  {
  }

  lemma {:induction false} StepsByTurnCount(w: nat, x: nat, k: nat)
    requires IsWidth(w) && x < Pow2(w + 1)
    ensures LeftSteps(w + 1, x, k) == LeftSteps(w + 1, x, TurnCount(w, k))
    ensures RightSteps(w + 1, x, k) == RightSteps(w + 1, x, TurnCount(w, k))
    decreases k
  {
    hide LeftSteps, RightSteps, TurnCount;
    if k >= w + 1 {
      DropTurn(w + 1, x, k);
      DropRightTurn(w + 1, x, k);
      OneTurnLess(w, k);
      StepsByTurnCount(w, x, k - (w + 1));
    } else {
      NoWholeTurn(w, k);
    }
  }

  /** Value and carry after k rotates through the carry depend on k only modulo 9, or 17. */
  lemma RotatesThroughCarryArePeriodic(f: bv16, w: nat, v: Word, k: nat)
    requires IsWidth(w) && v < Pow2(w)
    ensures
      var (r, s) := (RclTimes(f, w, v, k), RclTimes(f, w, v, TurnCount(w, k)));
      r.value == s.value && Carry(r) == Carry(s)
    ensures
      var (r, s) := (RcrTimes(f, w, v, k), RcrTimes(f, w, v, TurnCount(w, k)));
      r.value == s.value && Carry(r) == Carry(s)
  {
    hide Test, RclTimes, RcrTimes, LeftSteps, RightSteps, TurnCount, Through;
    ThroughBound(f, w, v);
    StepsByTurnCount(w, Through(f, w, v), k);
    RclTimesAreSteps(f, w, v, k);
    RclTimesAreSteps(f, w, v, TurnCount(w, k));
    SameRegister(RclTimes(f, w, v, k), RclTimes(f, w, v, TurnCount(w, k)), w);
    RcrTimesAreSteps(f, w, v, k);
    RcrTimesAreSteps(f, w, v, TurnCount(w, k));
    SameRegister(RcrTimes(f, w, v, k), RcrTimes(f, w, v, TurnCount(w, k)), w);
  }

  lemma ThroughBound(f: bv16, w: nat, v: Word)
    requires v < Pow2(w)
    ensures Through(f, w, v) < Pow2(w + 1)
  {
  }

  lemma SameRegister(r: Out, s: Out, w: nat)
    requires r.value < Pow2(w) && s.value < Pow2(w)
    ensures Through(r.flags, w, r.value) == Through(s.flags, w, s.value) <==> r.value == s.value && Carry(r) == Carry(s)
  {
  }
}
