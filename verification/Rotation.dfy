/** Rotation of an n-bit register: one step, many steps, and all at once. */
module Rotation {
  import opened Bits

  /** Every bit moves up by one; the top bit moves to the bottom. */
  function Left1(n: nat, v: nat): (r: nat)
    requires n > 0 && v < Pow2(n)
    ensures r < Pow2(n)
  {
    if v >= Pow2(n - 1) then 2 * (v - Pow2(n - 1)) + 1 else 2 * v
  }

  function Right1(n: nat, v: nat): (r: nat)
    requires n > 0 && v < Pow2(n)
    ensures r < Pow2(n)
  {
    v / 2 + (if v % 2 == 1 then Pow2(n - 1) else 0)
  }

  function LeftSteps(n: nat, v: nat, k: nat): (r: nat)
    requires n > 0 && v < Pow2(n)
    ensures r < Pow2(n)
    decreases k
  {
    if k == 0 then v else Left1(n, LeftSteps(n, v, k - 1))
  }

  function RightSteps(n: nat, v: nat, k: nat): (r: nat)
    requires n > 0 && v < Pow2(n)
    ensures r < Pow2(n)
    decreases k
  {
    if k == 0 then v else Right1(n, RightSteps(n, v, k - 1))
  }

  /** The top k bits below the others: a rotation by k places. */
  function Rotated(n: nat, v: nat, k: nat): nat
    requires k <= n
  {
    Shl(Low(v, n - k), k) + Shr(v, n - k)
  }

  lemma {:induction false} StepsRotate(n: nat, v: nat, k: nat)
    requires n > 0 && v < Pow2(n) && k <= n
    ensures LeftSteps(n, v, k) == Rotated(n, v, k)
    decreases k
  {
    if k == 0 {
      LowOfSmall(v, n);
      ShrBound(v, 0, n);
    } else {
      StepsRotate(n, v, k - 1);
      RotateOneMore(n, v, k - 1, n - k);
    }
  }

  lemma RotateOneMore(n: nat, v: nat, k: nat, m: nat)
    requires v < Pow2(n) && n == k + 1 + m
    ensures Rotated(n, v, k) < Pow2(n) && Left1(n, Rotated(n, v, k)) == Rotated(n, v, k + 1)
  {
    hide Low, Shr, Shl;
    var lo, hi := Low(v, m), Shr(v, m + 1);
    var bit := OneBitMore(v, m);
    ShlStep(lo, k);
    ShlAdds(lo, Pow2(m), k);
    ShlOfPow2(m, k);
    ShlBound(lo, m, k);
    ShrBound(v, k, m + 1);
  }

  /** A full turn changes nothing. */
  lemma FullTurn(n: nat, v: nat)
    requires n > 0 && v < Pow2(n)
    ensures LeftSteps(n, v, n) == v
  {
    StepsRotate(n, v, n);
    ShlZero(n);
  }

  lemma {:induction false} LeftStepsAdd(n: nat, v: nat, j: nat, k: nat)
    requires n > 0 && v < Pow2(n)
    ensures LeftSteps(n, v, j + k) == LeftSteps(n, LeftSteps(n, v, j), k)
    decreases k
  {
    if k > 0 {
      LeftStepsAdd(n, v, j, k - 1);
    }
  }

  /** Whole turns do not matter. */
  lemma DropTurn(n: nat, v: nat, k: nat)
    requires n > 0 && v < Pow2(n) && k >= n
    ensures LeftSteps(n, v, k) == LeftSteps(n, v, k - n)
  {
    LeftStepsAdd(n, v, n, k - n);
    FullTurn(n, v);
  }

  lemma HalvesOf(h: nat, bit: nat)
    requires bit <= 1
    ensures (2 * h + bit) / 2 == h && (2 * h + bit) % 2 == bit
  {
  }

  lemma StepsInvert(n: nat, v: nat)
    requires n > 0 && v < Pow2(n)
    ensures Right1(n, Left1(n, v)) == v && Left1(n, Right1(n, v)) == v
  {
    var h := Pow2(n - 1);
    if v >= h { HalvesOf(v - h, 1); } else { HalvesOf(v, 0); }
    var half, bit := v / 2, v % 2;
    assert v == 2 * half + bit && Right1(n, v) == half + (if bit == 1 then h else 0) && half < h;
  }

  lemma {:induction false} RightUndoesLeft(n: nat, v: nat, k: nat)
    requires n > 0 && v < Pow2(n)
    ensures LeftSteps(n, RightSteps(n, v, k), k) == v
    decreases k
  {
    if k > 0 {
      var u := RightSteps(n, v, k - 1);
      RightUndoesLeft(n, v, k - 1);
      StepsInvert(n, u);
      LeftStepsAdd(n, Right1(n, u), 1, k - 1);
      assert LeftSteps(n, Right1(n, u), 1) == Left1(n, LeftSteps(n, Right1(n, u), 0));
    }
  }

  lemma {:induction false} RightStepsAdd(n: nat, v: nat, j: nat, k: nat)
    requires n > 0 && v < Pow2(n)
    ensures RightSteps(n, v, j + k) == RightSteps(n, RightSteps(n, v, j), k)
    decreases k
  {
    if k > 0 {
      RightStepsAdd(n, v, j, k - 1);
    }
  }

  lemma DropRightTurn(n: nat, v: nat, k: nat)
    requires n > 0 && v < Pow2(n) && k >= n
    ensures RightSteps(n, v, k) == RightSteps(n, v, k - n)
  {
    RightStepsAdd(n, v, n, k - n);
    RightUndoesLeft(n, v, n);
    FullTurn(n, RightSteps(n, v, n));
  }

  /** To the right by k is to the left by the rest of the turn. */
  lemma RightIsRestOfTurn(n: nat, v: nat, k: nat, m: nat)
    requires n > 0 && v < Pow2(n) && n == k + m
    ensures RightSteps(n, v, k) == Rotated(n, v, m)
  {
    hide LeftSteps, RightSteps, Rotated;
    var r := RightSteps(n, v, k);
    RightUndoesLeft(n, v, k);
    LeftStepsAdd(n, r, k, m);
    FullTurn(n, r);
    StepsRotate(n, v, m);
  }

  lemma Left1KeepsPopCount(n: nat, u: nat)
    requires n > 0 && u < Pow2(n)
    ensures PopCount(Left1(n, u)) == PopCount(u)
  {
    hide PopCount;
    var h := Pow2(n - 1);
    if u >= h {
      ShlOfPow2(0, n - 1);
      PopCountSplit(1, n - 1, u - h);
      PopCountOfBit(1, u - h);
      PopCountOfOne();
    } else {
      PopCountOfBit(0, u);
    }
  }

  lemma {:induction false} RotationKeepsPopCount(n: nat, v: nat, k: nat)
    requires n > 0 && v < Pow2(n)
    ensures PopCount(LeftSteps(n, v, k)) == PopCount(v)
    decreases k
  {
    if k > 0 {
      RotationKeepsPopCount(n, v, k - 1);
      Left1KeepsPopCount(n, LeftSteps(n, v, k - 1));
    }
  }

  // ----- The rotates of rotate.h, for registers of 8 or 16 bits

  /** b & (width - 1) of a count of either sign: the width is a power of two. */
  function Masked(w: nat, b: int): (r: nat)
    requires w == 8 || w == 16
    ensures r < w
  {
    if w == 8 then b % 8 else b % 16
  }

  lemma MaskedIs(w: nat, k: int, q: int, r: nat)
    requires w == 8 || w == 16
    requires k == (if w == 8 then 8 * q else 16 * q) + r && r < w
    ensures Masked(w, k) == r
  {
  }

  lemma MaskedQuotient(w: nat, k: int) returns (q: int)
    requires w == 8 || w == 16
    ensures k == (if w == 8 then 8 * q else 16 * q) + Masked(w, k)
  {
    q := if w == 8 then k / 8 else k / 16;
  }

  lemma MaskedTurn(w: nat, k: int)
    requires w == 8 || w == 16
    ensures Masked(w, k - w) == Masked(w, k)
  {
    hide Masked;
    var q := MaskedQuotient(w, k);
    MaskedIs(w, k - w, q - 1, Masked(w, k));
  }

  lemma MaskedNegation(w: nat, k: int)
    requires w == 8 || w == 16
    ensures Masked(w, -k) == (if Masked(w, k) == 0 then 0 else w - Masked(w, k))
  {
    hide Masked;
    var q := MaskedQuotient(w, k);
    if Masked(w, k) == 0 {
      MaskedIs(w, -k, -q, 0);
    } else {
      MaskedIs(w, -k, -q - 1, w - Masked(w, k));
    }
  }

  lemma MaskedSum(w: nat, j: int, k: int)
    requires w == 8 || w == 16
    ensures Masked(w, Masked(w, j) + Masked(w, k)) == Masked(w, j + k)
  {
    hide Masked;
    var p := MaskedQuotient(w, j);
    var q := MaskedQuotient(w, k);
    var sum := Masked(w, j) + Masked(w, k);
    var carry := if sum < w then 0 else 1;
    MaskedIs(w, sum, carry, sum - carry * w);
    MaskedIs(w, j + k, p + q + carry, sum - carry * w);
  }

  function Rotl(w: nat, v: nat, b: int): nat
    requires w == 8 || w == 16
  {
    var mb: int := Masked(w, b);
    Low(Or(Shl(v, mb), Shr(v, Masked(w, -mb))), w)
  }

  function Rotr(w: nat, v: nat, b: int): nat
    requires w == 8 || w == 16
  {
    var mb: int := Masked(w, b);
    Low(Or(Shr(v, mb), Shl(v, Masked(w, -mb))), w)
  }

  /** What stays within the width of the two shifted copies is the rotation. */
  lemma ShiftWithin(w: nat, v: nat, k: nat, m: nat)
    requires v < Pow2(w) && w == m + k
    ensures Low(Or(Shl(v, k), Shr(v, m)), w) == Rotated(w, v, k)
    ensures Low(Or(Shr(v, m), Shl(v, k)), w) == Rotated(w, v, k)
  {
    hide Low, Shr, Shl, Or;
    var lo, hi := Low(v, m), Shr(v, m);
    ShrBound(v, k, m);
    OrDisjoint(v, k, hi);
    SplitAt(v, m);
    ShlAdds(Shl(hi, m), lo, k);
    ShlTwice(hi, m, k);
    LowIgnoresHigh(hi, Shl(lo, k) + hi, w);
    ShlBound(lo, m, k);
    LowOfSmall(Shl(lo, k) + hi, w);
  }

  lemma {:induction false} ShlTwice(v: nat, j: nat, k: nat)
    ensures Shl(Shl(v, j), k) == Shl(v, j + k)
    decreases k
  {
    if k > 0 {
      ShlTwice(v, j, k - 1);
    }
  }

  lemma NoShift(w: nat, v: nat)
    requires w > 0 && v < Pow2(w)
    ensures Low(Or(Shl(v, 0), Shr(v, 0)), w) == v && Low(Or(Shr(v, 0), Shl(v, 0)), w) == v && LeftSteps(w, v, 0) == v
  {
    OrSelf(v);
    LowOfSmall(v, w);
  }

  lemma RotlByMasked(w: nat, v: nat, b: int)
    requires (w == 8 || w == 16) && v < Pow2(w)
    ensures Rotl(w, v, b) == LeftSteps(w, v, Masked(w, b))
  {
    hide Masked, Low, Shr, Shl, Or, LeftSteps, Rotated;
    var k: int := Masked(w, b);
    MaskedIs(w, k, 0, k);
    MaskedNegation(w, k);
    if k == 0 {
      NoShift(w, v);
    } else {
      ShiftWithin(w, v, k, w - k);
      StepsRotate(w, v, k);
    }
  }

  lemma RotrByMasked(w: nat, v: nat, b: int)
    requires (w == 8 || w == 16) && v < Pow2(w)
    ensures Rotr(w, v, b) == LeftSteps(w, v, Masked(w, -b))
  {
    hide Masked, Low, Shr, Shl, Or, LeftSteps, Rotated;
    var k: int := Masked(w, b);
    MaskedIs(w, k, 0, k);
    MaskedNegation(w, k);
    MaskedNegation(w, b);
    if k == 0 {
      NoShift(w, v);
    } else {
      ShiftWithin(w, v, w - k, k);
      StepsRotate(w, v, w - k);
    }
  }

  lemma {:induction false} OnlyMaskedStepsMatter(w: nat, v: nat, k: nat)
    requires (w == 8 || w == 16) && v < Pow2(w)
    ensures LeftSteps(w, v, k) == LeftSteps(w, v, Masked(w, k))
    decreases k
  {
    hide Masked, LeftSteps;
    if k < w {
      MaskedIs(w, k, 0, k);
    } else {
      MaskedTurn(w, k);
      DropTurn(w, v, k);
      OnlyMaskedStepsMatter(w, v, k - w);
    }
  }

  /** The fast rotate to the left is that many one-bit rotates. */
  lemma RotlIsSteps(w: nat, v: nat, k: nat)
    requires (w == 8 || w == 16) && v < Pow2(w)
    ensures Rotl(w, v, k) == LeftSteps(w, v, k)
  {
    RotlByMasked(w, v, k);
    OnlyMaskedStepsMatter(w, v, k);
  }

  lemma StepsByMasked(w: nat, v: nat, i: int, j: int)
    requires (w == 8 || w == 16) && v < Pow2(w)
    ensures LeftSteps(w, LeftSteps(w, v, Masked(w, i)), Masked(w, j)) == LeftSteps(w, v, Masked(w, i + j))
  {
    hide Masked, LeftSteps;
    LeftStepsAdd(w, v, Masked(w, i), Masked(w, j));
    OnlyMaskedStepsMatter(w, v, Masked(w, i) + Masked(w, j));
    MaskedSum(w, i, j);
  }

  lemma NoSteps(w: nat, v: nat)
    requires (w == 8 || w == 16) && v < Pow2(w)
    ensures LeftSteps(w, v, Masked(w, 0)) == v
  {
  }

  /** The fast rotate to the right is that many one-bit rotates. */
  lemma RotrIsSteps(w: nat, v: nat, k: int)
    requires (w == 8 || w == 16) && v < Pow2(w) && k >= 0
    ensures Rotr(w, v, k) == RightSteps(w, v, k)
  {
    hide Masked, LeftSteps, RightSteps, Rotr;
    var r := RightSteps(w, v, k);
    RotrByMasked(w, v, k);
    RightUndoesLeft(w, v, k);
    OnlyMaskedStepsMatter(w, r, k);
    StepsByMasked(w, r, k, -k);
    NoSteps(w, r);
  }

  /** Rotations compose additively, counts of either sign included, and rotr is rotl by the negated count. */
  lemma RotationsCompose(w: nat, v: nat, j: int, k: int)
    requires (w == 8 || w == 16) && v < Pow2(w)
    ensures Rotl(w, Rotl(w, v, j), k) == Rotl(w, v, j + k)
    ensures Rotr(w, v, j) == Rotl(w, v, -j)
    ensures Rotr(w, Rotl(w, v, j), j) == v
  {
    hide Masked, LeftSteps, Rotl, Rotr;
    var a := LeftSteps(w, v, Masked(w, j));
    RotlByMasked(w, v, j);
    RotlByMasked(w, a, k);
    RotlByMasked(w, v, j + k);
    StepsByMasked(w, v, j, k);
    RotrByMasked(w, v, j);
    RotlByMasked(w, v, -j);
    RotrByMasked(w, a, j);
    StepsByMasked(w, v, j, -j);
    NoSteps(w, v);
  }
}
