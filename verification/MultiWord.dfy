/** Chains of one-word instructions over numbers of many words, lowest word first. */
module MultiWord {
  import opened Bits
  import opened Rotation
  import opened Alu
  import opened Shifts

  predicate AreWords(w: nat, ws: seq<Word>) {
    forall i :: 0 <= i < |ws| ==> ws[i] < Pow2(w)
  }

  /** The number that the words stand for. */
  function Value(w: nat, ws: seq<Word>): nat {
    if ws == [] then 0 else ws[0] + Shl(Value(w, ws[1..]), w)
  }

  /** 2 to the power w * n: the weight of a carry out of n words. */
  function Weight(w: nat, n: nat): nat {
    if n == 0 then 1 else Shl(Weight(w, n - 1), w)
  }

  function CarryWeight(f: bv16, w: nat, n: nat): nat {
    if Test(f, CF) then Weight(w, n) else 0
  }

  // ----- Shifting left by one bit, and back

  /** rcl(1) on every word, from the lowest up. */
  function RclChain(f: bv16, w: nat, ws: seq<Word>): (seq<Word>, bv16)
    requires IsWidth(w)
    decreases |ws|
  {
    if ws == [] then ([], f)
    else
      var r := RclOp(f, w, ws[0], 1);
      var (rest, g) := RclChain(r.flags, w, ws[1..]);
      ([r.value] + rest, g)
  }

  /** shl(1) on the lowest word, rcl(1) on the others. */
  function ShlChain(f: bv16, w: nat, ws: seq<Word>): (seq<Word>, bv16)
    requires IsWidth(w) && ws != []
  {
    var r := ShlOp(f, w, ws[0], 1);
    var (rest, g) := RclChain(r.flags, w, ws[1..]);
    ([r.value] + rest, g)
  }

  /** rcr(1) on every word, from the highest down. */
  function RcrChain(f: bv16, w: nat, ws: seq<Word>): (seq<Word>, bv16)
    requires IsWidth(w)
    decreases |ws|
  {
    if ws == [] then ([], f)
    else
      var (rest, g) := RcrChain(f, w, ws[1..]);
      var r := RcrOp(g, w, ws[0], 1);
      ([r.value] + rest, r.flags)
  }

  lemma RclIsDoubling(f: bv16, w: nat, v: Word)
    requires IsWidth(w) && v < Pow2(w)
    ensures
      var r := RclOp(f, w, v, 1);
      r.value < Pow2(w) && r.value + (if Carry(r) then Pow2(w) else 0) == 2 * v + CarryBit(f)
  {
    hide Shifted, And, Or, Test;
    ShiftedLeftMeans(f, w, v, CarryBit(f));
  }

  lemma ShlIsDoubling(f: bv16, w: nat, v: Word)
    requires IsWidth(w) && v < Pow2(w)
    ensures
      var r := ShlOp(f, w, v, 1);
      r.value < Pow2(w) && r.value + (if Carry(r) then Pow2(w) else 0) == 2 * v
  {
    hide Shifted, And, Test;
    assert Or(Shl(v, 1), 0) == Shl(v, 1);
    ShiftedLeftMeans(f, w, v, 0);
  }

  lemma ShlOfBit(bit: nat, w: nat)
    requires bit <= 1
    ensures Shl(bit, w) == if bit == 1 then Pow2(w) else 0
  {
    ShlOfPow2(0, w);
    ShlZero(w);
  }

  /** The carry between a doubled word and the words above it. */
  lemma DoubledTail(w: nat, tail: nat, doubled: nat, out: nat, carry: nat)
    requires doubled + out == tail + tail + carry && carry <= 1
    ensures Shl(doubled, w) + Shl(out, w) == Shl(tail, w) + Shl(tail, w) + (if carry == 1 then Pow2(w) else 0)
  {
    hide Shl, Pow2;
    var double, sum := tail + tail, doubled + out;
    ShlSum(doubled, out, sum, w);
    ShlSum(tail, tail, double, w);
    ShlSum(double, carry, sum, w);
    ShlOfBit(carry, w);
  }

  lemma {:induction false} RclChainDoubles(f: bv16, w: nat, ws: seq<Word>)
    requires IsWidth(w) && AreWords(w, ws)
    ensures
      var (out, g) := RclChain(f, w, ws);
      AreWords(w, out) && |out| == |ws| && Value(w, out) + CarryWeight(g, w, |ws|) == 2 * Value(w, ws) + CarryBit(f)
    decreases |ws|
  {
    hide RclOp, Test, Shl, Pow2;
    if ws != [] {
      var r := RclOp(f, w, ws[0], 1);
      RclIsDoubling(f, w, ws[0]);
      var (rest, g) := RclChain(r.flags, w, ws[1..]);
      RclChainDoubles(r.flags, w, ws[1..]);
      DoubledTail(w, Value(w, ws[1..]), Value(w, rest), CarryWeight(g, w, |ws| - 1), CarryBit(r.flags));
      ShlZero(w);
      assert ([r.value] + rest)[1..] == rest;
    }
  }

  /** What rcr stores, and the carry it leaves, depend on no flag but CF. */
  lemma RcrNeedsOnlyCarry(f: bv16, g: bv16, w: nat, v: Word)
    requires IsWidth(w) && v < Pow2(w) && Test(f, CF) == Test(g, CF)
    ensures RcrOp(f, w, v, 1).value == RcrOp(g, w, v, 1).value && Carry(RcrOp(f, w, v, 1)) == Carry(RcrOp(g, w, v, 1))
  {
    hide RcrOp, Test;
    RcrMeans(f, w, v);
    RcrMeans(g, w, v);
  }

  lemma RestoresOne(f: bv16, g: bv16, w: nat, v: Word)
    requires IsWidth(w) && v < Pow2(w) && Test(g, CF) == Carry(RclOp(f, w, v, 1))
    ensures
      var r := RcrOp(g, w, RclOp(f, w, v, 1).value, 1);
      r.value == v && Carry(r) == Test(f, CF)
  {
    hide RclOp, RcrOp, Test;
    RclIsDoubling(f, w, v);
    RcrUndoesRcl(f, w, v);
    RcrNeedsOnlyCarry(g, RclOp(f, w, v, 1).flags, w, RclOp(f, w, v, 1).value);
  }

  lemma {:induction false} RcrChainUndoesRclChain(f: bv16, w: nat, ws: seq<Word>, back: bv16)
    requires IsWidth(w) && AreWords(w, ws) && Test(back, CF) == Test(RclChain(f, w, ws).1, CF)
    ensures
      var (restored, g) := RcrChain(back, w, RclChain(f, w, ws).0);
      restored == ws && Test(g, CF) == Test(f, CF)
    decreases |ws|
  {
    hide RclOp, RcrOp, Test, Pow2;
    if ws != [] {
      var r := RclOp(f, w, ws[0], 1);
      var rest := RclChain(r.flags, w, ws[1..]).0;
      RcrChainUndoesRclChain(r.flags, w, ws[1..], back);
      assert RclChain(f, w, ws).0[1..] == rest;
      RestoresOne(f, RcrChain(back, w, rest).1, w, ws[0]);
    }
  }

  /** Shifting a number of any length left by one bit doubles it, and shifting it back restores every word. */
  lemma MultiWordShift(f: bv16, w: nat, ws: seq<Word>)
    requires IsWidth(w) && AreWords(w, ws) && ws != []
    ensures
      var (out, g) := ShlChain(f, w, ws);
      var (restored, h) := RcrChain(g, w, out);
      && Value(w, out) + CarryWeight(g, w, |ws|) == 2 * Value(w, ws)
      && restored == ws && !Test(h, CF)
  {
    hide Shl, Test, Put, RclOp, ShlOp;
    var clear := Put(f, CF, false);
    PutCarry(f, false, false);
    ShlIsRclWithCarryClear(f, w, ws[0]);
    RclFlagsOnlyCarry(ShlOp(f, w, ws[0], 1).flags, RclOp(clear, w, ws[0], 1).flags, w, ws[1..]);
    var (out, g) := ShlChain(f, w, ws);
    assert out == RclChain(clear, w, ws).0;
    RclChainDoubles(clear, w, ws);
    RcrChainUndoesRclChain(clear, w, ws, g);
  }

  lemma ShlIsRclWithCarryClear(f: bv16, w: nat, v: Word)
    requires IsWidth(w) && v < Pow2(w)
    ensures
      var (r, s) := (ShlOp(f, w, v, 1), RclOp(Put(f, CF, false), w, v, 1));
      r.value == s.value && Carry(r) == Carry(s)
  {
    hide ShlOp, RclOp, Test, Put;
    PutCarry(f, false, false);
    ShlIsDoubling(f, w, v);
    RclIsDoubling(Put(f, CF, false), w, v);
  }

  lemma {:induction false} RclFlagsOnlyCarry(f: bv16, g: bv16, w: nat, ws: seq<Word>)
    requires IsWidth(w) && AreWords(w, ws) && Test(f, CF) == Test(g, CF)
    ensures RclChain(f, w, ws).0 == RclChain(g, w, ws).0
    ensures Test(RclChain(f, w, ws).1, CF) == Test(RclChain(g, w, ws).1, CF)
    decreases |ws|
  {
    hide RclOp, Test;
    if ws != [] {
      RclIsDoubling(f, w, ws[0]);
      RclIsDoubling(g, w, ws[0]);
      RclFlagsOnlyCarry(RclOp(f, w, ws[0], 1).flags, RclOp(g, w, ws[0], 1).flags, w, ws[1..]);
    }
  }

  // ----- Adding with carry, as the ADC instruction does it

  /** The operand is added, and then 1 if the carry was set before: CF is that of the last addition. */
  function Adc(f: bv16, w: nat, a: Word, b: Word): Out
    requires IsWidth(w)
  {
    var r := Add(f, w, a, b);
    if Test(f, CF) then Add(r.flags, w, r.value, 1) else r
  }

  /** The carry of the first addition is overwritten exactly when there was one to add and the operands carry. */
  lemma AdcMeans(f: bv16, w: nat, a: Word, b: Word)
    requires IsWidth(w) && a < Pow2(w) && b < Pow2(w)
    ensures
      var (r, sum) := (Adc(f, w, a, b), a + b + CarryBit(f));
      && r.value < Pow2(w) && r.value == (if sum >= Pow2(w) then sum - Pow2(w) else sum)
      && (Carry(r) <==> sum >= Pow2(w) && !(Test(f, CF) && a + b >= Pow2(w))) && ShowsPsz(r.flags, w, r.value)
  {
    hide Add, Test, ShowsPsz;
    var r := Add(f, w, a, b);
    AddIsExact(f, w, a, b);
    AddIsExact(r.flags, w, r.value, 1);
  }

  /** SBB in the same way: the borrow is lost exactly when there was one to pay and the operands borrow. */
  function Sbb(f: bv16, w: nat, a: Word, b: Word): Out
    requires IsWidth(w) && a < Pow2(w) && b < Pow2(w)
  {
    SubIsExact(f, w, a, b);
    var r := Sub(f, w, a, b);
    if Test(f, CF) then Sub(r.flags, w, r.value, 1) else r
  }

  lemma SbbMeans(f: bv16, w: nat, a: Word, b: Word)
    requires IsWidth(w) && a < Pow2(w) && b < Pow2(w)
    ensures
      var (r, diff) := (Sbb(f, w, a, b), a - b - CarryBit(f));
      && r.value == (if diff < 0 then diff + Pow2(w) else diff)
      && (Carry(r) <==> diff < 0 && !(Test(f, CF) && a < b)) && ShowsPsz(r.flags, w, r.value)
  {
    hide Sub, Test, ShowsPsz;
    var r := Sub(f, w, a, b);
    SubIsExact(f, w, a, b);
    SubIsExact(r.flags, w, r.value, 1);
  }

  function AdcChain(f: bv16, w: nat, xs: seq<Word>, ys: seq<Word>): (seq<Word>, bv16)
    requires IsWidth(w) && |xs| == |ys|
    decreases |xs|
  {
    if xs == [] then ([], f)
    else
      var r := Adc(f, w, xs[0], ys[0]);
      var (rest, g) := AdcChain(r.flags, w, xs[1..], ys[1..]);
      ([r.value] + rest, g)
  }

  /** What the chain drops: every overwritten carry, at its weight. */
  function Lost(f: bv16, w: nat, xs: seq<Word>, ys: seq<Word>): nat
    requires IsWidth(w) && |xs| == |ys|
    decreases |xs|
  {
    if xs == [] then 0
    else
      Shl((if Test(f, CF) && xs[0] + ys[0] >= Pow2(w) then 1 else 0)
          + Lost(Adc(f, w, xs[0], ys[0]).flags, w, xs[1..], ys[1..]), w)
  }

  /** No word whose operands carry by themselves receives a carry from below. */
  predicate NoCarryMeetsCarry(w: nat, xs: seq<Word>, ys: seq<Word>, carry: bool)
    requires |xs| == |ys|
    decreases |xs|
  {
    xs == [] ||
    (&& !(carry && xs[0] + ys[0] >= Pow2(w))
     && NoCarryMeetsCarry(w, xs[1..], ys[1..], xs[0] + ys[0] + (if carry then 1 else 0) >= Pow2(w)))
  }

  lemma AdcTail(w: nat, x: nat, y: nat, sum: nat, out: nat, lost: nat, carry: nat, dropped: nat)
    requires sum + out + lost == x + y + carry && carry <= 1 && dropped <= 1
    ensures Shl(sum, w) + Shl(out, w) + Shl(dropped + lost, w)
         == Shl(x, w) + Shl(y, w) + (if carry == 1 then Pow2(w) else 0) + (if dropped == 1 then Pow2(w) else 0)
  {
    hide Shl, Pow2;
    var both, all, total := sum + out, sum + out + lost, x + y;
    ShlSum(sum, out, both, w);
    ShlSum(both, lost, all, w);
    ShlSum(x, y, total, w);
    ShlSum(total, carry, all, w);
    ShlAdds(dropped, lost, w);
    ShlOfBit(carry, w);
    ShlOfBit(dropped, w);
  }

  /** The chain's result, its carry and what it lost add up to the true sum. */
  lemma {:induction false} AdcChainAddsUp(f: bv16, w: nat, xs: seq<Word>, ys: seq<Word>)
    requires IsWidth(w) && |xs| == |ys| && AreWords(w, xs) && AreWords(w, ys)
    ensures
      var (out, g) := AdcChain(f, w, xs, ys);
      Value(w, out) + CarryWeight(g, w, |xs|) + Lost(f, w, xs, ys) == Value(w, xs) + Value(w, ys) + CarryBit(f)
    decreases |xs|
  {
    hide Adc, Test, Shl, Pow2;
    if xs != [] {
      var r := Adc(f, w, xs[0], ys[0]);
      AdcMeans(f, w, xs[0], ys[0]);
      var (rest, g) := AdcChain(r.flags, w, xs[1..], ys[1..]);
      AdcChainAddsUp(r.flags, w, xs[1..], ys[1..]);
      AdcTail(w, Value(w, xs[1..]), Value(w, ys[1..]), Value(w, rest), CarryWeight(g, w, |xs| - 1),
              Lost(r.flags, w, xs[1..], ys[1..]), CarryBit(r.flags),
              if Test(f, CF) && xs[0] + ys[0] >= Pow2(w) then 1 else 0);
      ShlZero(w);
      assert ([r.value] + rest)[1..] == rest;
    }
  }

  lemma {:induction false} ShlOfPositive(v: nat, k: nat)
    ensures Shl(v, k) == 0 <==> v == 0
    decreases k
  {
    if k > 0 {
      ShlOfPositive(v, k - 1);
    }
  }

  lemma {:induction false} NothingLostExactly(f: bv16, w: nat, xs: seq<Word>, ys: seq<Word>)
    requires IsWidth(w) && |xs| == |ys| && AreWords(w, xs) && AreWords(w, ys)
    ensures Lost(f, w, xs, ys) == 0 <==> NoCarryMeetsCarry(w, xs, ys, Test(f, CF))
    decreases |xs|
  {
    hide Adc, Test, Shl;
    if xs != [] {
      var r := Adc(f, w, xs[0], ys[0]);
      AdcMeans(f, w, xs[0], ys[0]);
      NothingLostExactly(r.flags, w, xs[1..], ys[1..]);
      ShlOfPositive((if Test(f, CF) && xs[0] + ys[0] >= Pow2(w) then 1 else 0) + Lost(r.flags, w, xs[1..], ys[1..]), w);
    }
  }

  /** Numbers of any length are added correctly by ADC exactly when no carry meets a carry. */
  lemma AdcChainIsExactWhen(f: bv16, w: nat, xs: seq<Word>, ys: seq<Word>)
    requires IsWidth(w) && |xs| == |ys| && AreWords(w, xs) && AreWords(w, ys)
    ensures
      var (out, g) := AdcChain(f, w, xs, ys);
      NoCarryMeetsCarry(w, xs, ys, Test(f, CF)) <==>
        Value(w, out) + CarryWeight(g, w, |xs|) == Value(w, xs) + Value(w, ys) + CarryBit(f)
  {
    hide Adc, Test, Shl, AdcChain, Lost, Value, NoCarryMeetsCarry;
    AdcChainAddsUp(f, w, xs, ys);
    NothingLostExactly(f, w, xs, ys);
  }

  /** The shortest failure: FFh + FFh with the carry set loses it. */
  lemma AdcLosesCarry(f: bv16)
    requires Test(f, CF)
    ensures Adc(f, 8, 0xFF, 0xFF).value == 0xFF && !Carry(Adc(f, 8, 0xFF, 0xFF))
  {
    assert Pow2(4) == 16 && Pow2(8) == 256;
    AdcMeans(f, 8, 0xFF, 0xFF);
  }

  // ----- Subtracting with borrow

  function SbbChain(f: bv16, w: nat, xs: seq<Word>, ys: seq<Word>): (seq<Word>, bv16)
    requires IsWidth(w) && |xs| == |ys| && AreWords(w, xs) && AreWords(w, ys)
    decreases |xs|
  {
    if xs == [] then ([], f)
    else
      var r := Sbb(f, w, xs[0], ys[0]);
      var (rest, g) := SbbChain(r.flags, w, xs[1..], ys[1..]);
      ([r.value] + rest, g)
  }

  /** What the chain drops: every overwritten borrow, at its weight. */
  function LostBorrows(f: bv16, w: nat, xs: seq<Word>, ys: seq<Word>): nat
    requires IsWidth(w) && |xs| == |ys| && AreWords(w, xs) && AreWords(w, ys)
    decreases |xs|
  {
    if xs == [] then 0
    else
      Shl((if Test(f, CF) && xs[0] < ys[0] then 1 else 0)
          + LostBorrows(Sbb(f, w, xs[0], ys[0]).flags, w, xs[1..], ys[1..]), w)
  }

  /** No word whose operands borrow by themselves owes a borrow from below. */
  predicate NoBorrowMeetsBorrow(xs: seq<Word>, ys: seq<Word>, borrow: bool)
    requires |xs| == |ys|
    decreases |xs|
  {
    xs == [] ||
    (&& !(borrow && xs[0] < ys[0])
     && NoBorrowMeetsBorrow(xs[1..], ys[1..], xs[0] < ys[0] + (if borrow then 1 else 0)))
  }

  /** The chain's result, less its borrow and what it lost, is the true difference. */
  lemma {:induction false} SbbChainAddsUp(f: bv16, w: nat, xs: seq<Word>, ys: seq<Word>)
    requires IsWidth(w) && |xs| == |ys| && AreWords(w, xs) && AreWords(w, ys)
    ensures
      var (out, g) := SbbChain(f, w, xs, ys);
      Value(w, out) + Value(w, ys) + CarryBit(f) == Value(w, xs) + CarryWeight(g, w, |xs|) + LostBorrows(f, w, xs, ys)
    decreases |xs|
  {
    hide Sbb, Test, Shl, Pow2;
    if xs != [] {
      var r := Sbb(f, w, xs[0], ys[0]);
      SbbMeans(f, w, xs[0], ys[0]);
      var (rest, g) := SbbChain(r.flags, w, xs[1..], ys[1..]);
      SbbChainAddsUp(r.flags, w, xs[1..], ys[1..]);
      SbbTail(w, Value(w, xs[1..]), Value(w, ys[1..]), Value(w, rest), CarryWeight(g, w, |xs| - 1),
              LostBorrows(r.flags, w, xs[1..], ys[1..]), CarryBit(r.flags),
              if Test(f, CF) && xs[0] < ys[0] then 1 else 0);
      ShlZero(w);
      assert ([r.value] + rest)[1..] == rest;
    }
  }

  lemma SbbTail(w: nat, x: nat, y: nat, diff: nat, out: nat, lost: nat, borrow: nat, dropped: nat)
    requires diff + y + borrow == x + out + lost && borrow <= 1 && dropped <= 1
    ensures Shl(diff, w) + Shl(y, w) + (if borrow == 1 then Pow2(w) else 0) + (if dropped == 1 then Pow2(w) else 0)
         == Shl(x, w) + Shl(out, w) + Shl(dropped + lost, w)
  {
    hide Shl, Pow2;
    AdcTail(w, diff, y, x, out, lost, borrow, dropped);
  }

  lemma {:induction false} NoBorrowLostExactly(f: bv16, w: nat, xs: seq<Word>, ys: seq<Word>)
    requires IsWidth(w) && |xs| == |ys| && AreWords(w, xs) && AreWords(w, ys)
    ensures LostBorrows(f, w, xs, ys) == 0 <==> NoBorrowMeetsBorrow(xs, ys, Test(f, CF))
    decreases |xs|
  {
    hide Sbb, Test, Shl;
    if xs != [] {
      var r := Sbb(f, w, xs[0], ys[0]);
      SbbMeans(f, w, xs[0], ys[0]);
      NoBorrowLostExactly(r.flags, w, xs[1..], ys[1..]);
      ShlOfPositive((if Test(f, CF) && xs[0] < ys[0] then 1 else 0) + LostBorrows(r.flags, w, xs[1..], ys[1..]), w);
    }
  }

  /** Numbers of any length are subtracted correctly by SBB exactly when no borrow meets a borrow. */
  lemma SbbChainIsExactWhen(f: bv16, w: nat, xs: seq<Word>, ys: seq<Word>)
    requires IsWidth(w) && |xs| == |ys| && AreWords(w, xs) && AreWords(w, ys)
    ensures
      var (out, g) := SbbChain(f, w, xs, ys);
      NoBorrowMeetsBorrow(xs, ys, Test(f, CF)) <==>
        Value(w, out) - CarryWeight(g, w, |xs|) == Value(w, xs) - Value(w, ys) - CarryBit(f)
  {
    hide Sbb, Test, Shl, SbbChain, LostBorrows, Value, NoBorrowMeetsBorrow;
    SbbChainAddsUp(f, w, xs, ys);
    NoBorrowLostExactly(f, w, xs, ys);
  }
}
