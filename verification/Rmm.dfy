/** The operand of a ModR/M byte: a register or a memory location, updated in place by its operators. */
module Rmm {
  import opened Machine
  import opened Bits
  import opened Alu
  import opened ShiftCounts
  import opened Bytes

  /** The register file is one row of 16 bytes, seen as eight words or as eight halves of the first four. */
  class CpuCore {
    const regs: array<u8>
    var flags: bv16

    constructor ()
      ensures fresh(regs) && regs.Length == 16 && flags == 0xf002
    {
      regs := new u8[16](_ => 0);
      flags := 0xf002;
    }
  }

  function RegisterOffset(n: nat, w: nat): nat
    requires n < 8
  {
    if w == 16 || n < 4 then 2 * n else 2 * (n - 4) + 1
  }

  class Rmm {
    const core: CpuCore
    const cells: array<u8>
    const at: nat
    const w: nat

    ghost predicate Valid()
      reads cells
    {
      Holds(cells[..], at, w)
    }

    constructor Register(core: CpuCore, n: nat, w: nat)
      requires n < 8 && IsWidth(w) && core.regs.Length == 16
      ensures Valid() && this.core == core && cells == core.regs && at == RegisterOffset(n, w) && this.w == w
    {
      this.core, this.w, cells := core, w, core.regs;
      at := RegisterOffset(n, w);
    }

    constructor InMemory(core: CpuCore, mem: array<u8>, seg: u16, off: u16, w: nat)
      requires IsWidth(w) && AbsMemory(seg, off) + Size(w) <= mem.Length
      ensures Valid() && this.core == core && cells == mem && at == 0x10 * seg + off as int && this.w == w
    {
      this.core, this.w, cells := core, w, mem;
      at := AbsMemory(seg, off);
    }

    function Get(): (v: Word)
      requires Valid()
      reads cells
      ensures v < Pow2(w)
    {
      Load(cells[..], at, w)
    }

    method Set(v: Word)
      requires Valid() && v < Pow2(w)
      modifies cells
      ensures cells[..] == Store(old(cells[..]), at, w, v)
      ensures Valid() && Get() == v
      ensures cells[at] as int == v % 0x100 && (w == 16 ==> cells[at + 1] as int == v / 0x100)
    {
      WidthValues();
      StoreMeans(cells[..], at, w, v);
      if w == 8 {
        cells[at] := v;
      } else {
        cells[at] := v % 0x100;
        cells[at + 1] := v / 0x100;
      }
      assert cells[..] == Store(old(cells[..]), at, w, v);
    }

    method SetFlagsPsz(cur: Word)
      requires IsWidth(w)
      modifies core`flags
      ensures core.flags == WithPsz(old(core.flags), w, cur)
    {
      hide Put, PopCount, And, Pow2;
      var count := KernPopcount(cur);
      core.flags := Put(core.flags, PF, count % 2 == 0);
      core.flags := Put(core.flags, ZF, cur == 0);
      core.flags := Put(core.flags, SF, Msb(w, cur));
    }

    method SetFlagsFromBig(cur: nat) returns (v: Word)
      requires IsWidth(w)
      modifies core`flags
      ensures Out(v, core.flags) == FromBig(old(core.flags), w, cur) && v < Pow2(w)
    {
      hide Put, And, WithPsz;
      MasksAreMasks(w);
      core.flags := Put(core.flags, OF, And(cur, OfMask(w)) != 0);
      core.flags := Put(core.flags, CF, And(cur, CfMask(w)) != 0);
      v := Low(cur, w);
      SetFlagsPsz(v);
    }

    /** The operand holds a result, the flags are those of the result, and no other byte has changed. */
    twostate predicate Became(r: Out)
      reads this, core, cells
    {
      old(Valid()) && r.value < Pow2(w) && cells[..] == Store(old(cells[..]), at, w, r.value) && core.flags == r.flags
    }

    method AddAssign(other: Word)
      requires Valid() && other < Pow2(w)
      modifies cells, core`flags
      ensures Valid() && Became(Add(old(core.flags), w, old(Get()), other))
      ensures Get() + (if Test(core.flags, CF) then Pow2(w) else 0) == old(Get()) + other
      ensures ShowsPsz(core.flags, w, Get())
    {
      hide FromBig, Load, Store, Pow2, ShowsPsz;
      AddIsExact(core.flags, w, Get(), other);
      var v := SetFlagsFromBig(Get() + other);
      Set(v);
    }

    method SubAssign(other: Word)
      requires Valid() && other < Pow2(w)
      modifies cells, core`flags
      ensures Valid() && Became(Sub(old(core.flags), w, old(Get()), other))
      ensures Get() - (if Test(core.flags, CF) then Pow2(w) else 0) == old(Get()) - other
      ensures ShowsPsz(core.flags, w, Get()) && (Test(core.flags, ZF) <==> old(Get()) == other)
    {
      SubIsExact(core.flags, w, Get(), other);
      hide FromBig, Load, Store, Pow2, ShowsPsz;
      var cur := Difference(w, Get(), other);
      var v := SetFlagsFromBig(cur);
      Set(v);
    }

    /** The flags of a subtraction; the operand keeps its value. */
    method Cmp(other: Word)
      requires Valid() && other < Pow2(w)
      modifies core`flags
      ensures core.flags == Sub(old(core.flags), w, Get(), other).flags
      ensures Test(core.flags, CF) <==> Get() < other
      ensures Test(core.flags, ZF) <==> Get() == other
      ensures var (a, b) := (Get(), other); ShowsPsz(core.flags, w, if a >= b then a - b else Pow2(w) + a - b)
    {
      hide FromBig, Load, Store, Pow2, ShowsPsz, Test;
      ComparisonTells(core.flags, w, Get(), other);
      var cur := Difference(w, Get(), other);
      var _ := SetFlagsFromBig(cur);
    }

    method StoreLogic(cur: Word)
      requires Valid() && cur < Pow2(w)
      modifies cells, core`flags
      ensures Valid() && Became(Logic(old(core.flags), w, cur)) && Get() == cur
      ensures OnlyPszSet(core.flags) && ShowsPsz(core.flags, w, cur)
    {
      LogicLeavesOnlyPsz(core.flags, w, cur);
      hide Clear, WithPsz, Load, Store, ShowsPsz, OnlyPszSet;
      core.flags := Clear(core.flags, CF | OF | AF);
      SetFlagsPsz(cur);
      Set(cur);
    }

    method OrAssign(other: Word)
      requires Valid() && other < Pow2(w)
      modifies cells, core`flags
      ensures Valid() && Became(Logic(old(core.flags), w, Or(old(Get()), other)))
      ensures forall i: nat :: Bit(Get(), i) <==> Bit(old(Get()), i) || Bit(other, i)
      ensures OnlyPszSet(core.flags) && ShowsPsz(core.flags, w, Get())
    {
      hide Logic, Load, Store, Or, Bit, ShowsPsz, OnlyPszSet;
      ghost var v := Get();
      BitwiseBound(v, other, w);
      StoreLogic(Or(Get(), other));
      forall i: nat ensures Bit(Get(), i) <==> Bit(v, i) || Bit(other, i) {
        OrBits(v, other, i);
      }
    }

    method XorAssign(other: Word)
      requires Valid() && other < Pow2(w)
      modifies cells, core`flags
      ensures Valid() && Became(Logic(old(core.flags), w, Xor(old(Get()), other)))
      ensures forall i: nat :: Bit(Get(), i) <==> Bit(old(Get()), i) != Bit(other, i)
      ensures OnlyPszSet(core.flags) && ShowsPsz(core.flags, w, Get())
    {
      hide Logic, Load, Store, Xor, Bit, ShowsPsz, OnlyPszSet;
      ghost var v := Get();
      BitwiseBound(v, other, w);
      StoreLogic(Xor(Get(), other));
      forall i: nat ensures Bit(Get(), i) <==> Bit(v, i) != Bit(other, i) {
        XorBits(v, other, i);
      }
    }

    method AndAssign(other: Word)
      requires Valid() && other < Pow2(w)
      modifies cells, core`flags
      ensures Valid() && Became(Logic(old(core.flags), w, And(old(Get()), other)))
      ensures forall i: nat :: Bit(Get(), i) <==> Bit(old(Get()), i) && Bit(other, i)
      ensures OnlyPszSet(core.flags) && ShowsPsz(core.flags, w, Get())
    {
      hide Logic, Load, Store, And, Bit, ShowsPsz, OnlyPszSet;
      ghost var v := Get();
      BitwiseBound(v, other, w);
      StoreLogic(And(Get(), other));
      forall i: nat ensures Bit(Get(), i) <==> Bit(v, i) && Bit(other, i) {
        AndBits(v, other, i);
      }
    }

    method Negate()
      requires Valid()
      modifies cells, core`flags
      ensures Valid() && Became(Neg(old(core.flags), w, old(Get())))
      ensures Get() == (if old(Get()) == 0 then 0 else Pow2(w) - old(Get())) && ShowsPsz(core.flags, w, Get())
      ensures Test(core.flags, CF) <==> old(Get()) == 0
      ensures Test(core.flags, OF) <==> old(Get()) <= Pow2(w - 1)
    {
      hide FromBig, Load, Store, Pow2, ShowsPsz, Test, Fits, Signed, Sub;
      NegInvertsCarry(core.flags, w, Get());
      var v := SetFlagsFromBig(Pow2(w) - Get());
      Set(v);
    }

    method StoreShifted(carry: bool, wide: nat)
      requires Valid()
      modifies cells, core`flags
      ensures Valid() && Became(Shifted(old(core.flags), w, carry, wide)) && Get() == Low(wide, w)
    {
      hide Put, WithPsz, Load, Store, Low;
      core.flags := Put(core.flags, CF, carry);
      var v := Low(wide, w);
      Set(v);
      SetFlagsPsz(v);
    }

    method ShiftLeft(num: nat)
      requires Valid() && num < 32
      modifies cells, core`flags
      ensures Valid() && Became(ShlOp(old(core.flags), w, old(Get()), num))
      ensures Get() == old(Get()) * Pow2(num) % Pow2(w) && ShowsPsz(core.flags, w, Get())
      ensures Test(core.flags, CF) <==> old(Get()) >= Pow2(w - 1)
    {
      var v := Get();
      ShlMeans(core.flags, w, v, num);
      hide Shifted, Load, Store, And, Or, Pow2, Test, ShowsPsz;
      StoreShifted(Msb(w, v), Shl(v, num));
    }

    method RotateLeft(num: nat)
      requires Valid() && num < 32
      modifies cells, core`flags
      ensures Valid() && Became(RolOp(old(core.flags), w, old(Get()), num))
    {
      hide Shifted, Load, Store, And, Or, Pow2;
      var v := Get();
      var lsb := if Msb(w, v) then 1 else 0;
      StoreShifted(Msb(w, v), Or(Shl(v, num), lsb));
    }

    method RotateLeftThroughCarry(num: nat)
      requires Valid() && num < 32
      modifies cells, core`flags
      ensures Valid() && Became(RclOp(old(core.flags), w, old(Get()), num))
    {
      hide Shifted, Load, Store, And, Or, Pow2;
      var v := Get();
      var lsb := if Test(core.flags, CF) then 1 else 0;
      StoreShifted(Msb(w, v), Or(Shl(v, num), lsb));
    }

    method ShiftRight(num: nat)
      requires Valid() && num < 32
      modifies cells, core`flags
      ensures Valid() && Became(ShrOp(old(core.flags), w, old(Get()), num))
      ensures Get() == old(Get()) / Pow2(num) && ShowsPsz(core.flags, w, Get())
      ensures Test(core.flags, CF) <==> old(Get()) % 2 == 1
    {
      var v := Get();
      ShrMeans(core.flags, w, v, num);
      hide Shifted, Load, Store, And, Or, Pow2, Test, ShowsPsz;
      StoreShifted(Lsb(v), Shr(v, num));
    }

    method RotateRightThroughCarry(num: nat)
      requires Valid() && num < 32
      modifies cells, core`flags
      ensures Valid() && Became(RcrOp(old(core.flags), w, old(Get()), num))
    {
      hide Shifted, Load, Store, And, Or, Pow2;
      var v := Get();
      var msb := if Test(core.flags, CF) then MsbMask(w) else 0;
      StoreShifted(Lsb(v), Or(Shr(v, num), msb));
    }

    method RotateRight(num: nat)
      requires Valid() && num < 32
      modifies cells, core`flags
      ensures Valid() && Became(RorOp(old(core.flags), w, old(Get()), num))
    {
      hide Shifted, Load, Store, And, Or, Pow2;
      var v := Get();
      var msb := if Lsb(v) then MsbMask(w) else 0;
      StoreShifted(Lsb(v), Or(Shr(v, num), msb));
    }

    method ShiftArithmeticRight(num: nat)
      requires Valid() && num < 32
      modifies cells, core`flags
      ensures Valid() && Became(SarOp(old(core.flags), w, old(Get()), num))
    {
      hide Shifted, Load, Store, And, Or, Pow2;
      var v := Get();
      var neg := Msb(w, v);
      var rest := Shr(And(v, MsbMask(w) - 1), num);
      if neg {
        rest := Or(rest, MsbMask(w));
      }
      StoreShifted(Lsb(v), rest);
    }
  }

  // ----- The register file

  /** The first four words are each made of two halves. */
  lemma WordIsTwoHalves(file: seq<u8>, n: nat)
    requires |file| == 16 && n < 4
    ensures Load(file, RegisterOffset(n, 16), 16)
         == Load(file, RegisterOffset(n, 8), 8) + 0x100 * Load(file, RegisterOffset(n + 4, 8), 8)
  {
  }

  /** Writing a register changes no other register of its width, and writing a half changes no other word. */
  lemma RegistersAreApart(file: seq<u8>, n: nat, m: nat, w: nat, v: Word)
    requires |file| == 16 && n < 8 && m < 8 && IsWidth(w) && v < Pow2(w)
    ensures
      var g := Store(file, RegisterOffset(n, w), w, v);
      && Load(g, RegisterOffset(m, w), w) == (if m == n then v else Load(file, RegisterOffset(m, w), w))
      && (w == 8 && (m >= 4 || (n != m && n != m + 4)) ==>
            Load(g, RegisterOffset(m, 16), 16) == Load(file, RegisterOffset(m, 16), 16))
  {
    StoreMeans(file, RegisterOffset(n, w), w, v);
  }

  predicate Disjoint(left: Rmm, right: Rmm) {
    left.cells != right.cells || left.at + Size(left.w) <= right.at || right.at + Size(right.w) <= left.at
  }

  /** Whether a byte of a row belongs to an operand. */
  predicate Covers(r: Rmm, cells: array<u8>, i: nat) {
    r.cells == cells && r.at <= i < r.at + Size(r.w)
  }

  /** Exchanges two operands of one width. When they share a byte, only the right one is sure to be exchanged. */
  method Swap(left: Rmm, right: Rmm)
    requires left.Valid() && right.Valid() && left.w == right.w
    modifies left.cells, right.cells
    ensures left.Valid() && right.Valid()
    ensures right.Get() == old(left.Get())
    ensures Disjoint(left, right) ==> left.Get() == old(right.Get())
    ensures forall i: nat :: i < left.cells.Length ==>
      Covers(left, left.cells, i) || Covers(right, left.cells, i) || left.cells[i] == old(left.cells[i])
    ensures forall i: nat :: i < right.cells.Length ==>
      Covers(left, right.cells, i) || Covers(right, right.cells, i) || right.cells[i] == old(right.cells[i])
  {
    var temp := left.Get();
    StoreMeans(left.cells[..], left.at, left.w, right.Get());
    left.Set(right.Get());
    StoreMeans(right.cells[..], right.at, right.w, temp);
    right.Set(temp);
  }
}
