/** The part of the processor that an interrupt uses: a few registers, and a stack in memory. */
module Cpu {
  import opened Machine
  import opened Bits
  import opened Bytes

  /** CF is the lowest bit of the flags word. */
  predicate HasCarry(flags: u16) { flags % 2 == 1 }

  function WithCarry(flags: u16, on: bool): (f: u16)
    ensures HasCarry(f) == on
    ensures f / 2 == flags / 2 && f % 2 == (if on then 1 else 0)
  {
    flags - flags % 2 + (if on then 1 else 0)
  }

  /** The stack pointer n words further down, in 16 bits. */
  function Down(sp: u16, n: nat): u16
    requires n <= 3
  {
    Wrap16(sp as int - 2 * n)
  }

  /** The source does not check that the stack lies in memory. */
  predicate StackHolds(memory: seq<u8>, ss: u16, sp: u16, n: nat)
    requires n <= 3
  {
    forall k :: 1 <= k <= n ==> Holds(memory, AbsMemory(ss, Down(sp, k)), 16)
  }

  class CPU {
    const memory: array<u8>
    var ax: u16
    var bx: u16
    var flags: u16
    var cs: u16
    var ip: u16
    var ss: u16
    var sp: u16

    constructor (memory: array<u8>)
      ensures this.memory == memory
    {
      this.memory := memory;
      ax, bx, flags, cs, ip, ss, sp := 0, 0, 0xf002, 0, 0, 0, 0;
    }

    method SetWord(at: nat, v: u16)
      requires Holds(memory[..], at, 16)
      modifies memory
      ensures v < Pow2(16) && memory[..] == Store(old(memory[..]), at, 16, v)
    {
      WidthValues();
      memory[at] := v % 0x100;
      memory[at + 1] := v / 0x100;
      assert memory[..] == Store(old(memory[..]), at, 16, v);
    }

    method Push(v: u16)
      requires StackHolds(memory[..], ss, sp, 1)
      modifies this`sp, memory
      ensures sp == Down(old(sp), 1) && memory[..] == PushedWord(old(memory[..]), ss, sp, v)
    {
      assert Holds(memory[..], AbsMemory(ss, Down(sp, 1)), 16);
      sp := Wrap16(sp as int - 2);
      SetWord(AbsMemory(ss, sp), v);
    }

    method Pop() returns (v: u16)
      requires Holds(memory[..], AbsMemory(ss, sp), 16)
      modifies this`sp
      ensures v == TopWord(memory[..], ss, old(sp)) && sp == Wrap16(old(sp) as int + 2)
    {
      WidthValues();
      var at := AbsMemory(ss, sp);
      v := memory[at] as int + 0x100 * memory[at + 1] as int;
      sp := Wrap16(sp as int + 2);
    }

    /** How an interrupt begins. */
    method SaveState()
      requires StackHolds(memory[..], ss, sp, 3)
      modifies this`sp, memory
      ensures sp == Down(old(sp), 3) && memory[..] == Saved(old(memory[..]), ss, old(sp), flags, cs, ip)
      ensures sp as int == (old(sp) - 6) % 0x1_0000
    {
      hide PushedWord;
      SavedIsRestored(memory[..], ss, sp, flags, cs, ip);
      Push(flags);
      Push(cs);
      Push(ip);
    }

    /** How it ends, unless the handler returns by itself: top is the stack pointer from before it began. */
    method RestoreState(ghost top: u16)
      requires sp == Down(top, 3) && StackHolds(memory[..], ss, top, 3)
      modifies this`sp, this`ip, this`cs, this`flags
      ensures sp == top && ip == TopWord(memory[..], ss, Down(top, 3)) && cs == TopWord(memory[..], ss, Down(top, 2))
      ensures flags == TopWord(memory[..], ss, Down(top, 1))
    {
      hide TopWord;
      ip := Pop();
      assert sp == Down(top, 2);
      cs := Pop();
      assert sp == Down(top, 1);
      flags := Pop();
    }
  }

  function PushedWord(memory: seq<u8>, ss: u16, sp: u16, v: u16): (r: seq<u8>)
    requires Holds(memory, AbsMemory(ss, sp), 16)
    ensures |r| == |memory|
  {
    WidthValues();
    Store(memory, AbsMemory(ss, sp), 16, v)
  }

  function TopWord(memory: seq<u8>, ss: u16, sp: u16): u16
    requires Holds(memory, AbsMemory(ss, sp), 16)
  {
    WidthValues();
    Load(memory, AbsMemory(ss, sp), 16)
  }

  /** Memory once an interrupt has saved the flags, the code segment and the instruction pointer. */
  function Saved(memory: seq<u8>, ss: u16, sp: u16, flags: u16, cs: u16, ip: u16): (r: seq<u8>)
    requires StackHolds(memory, ss, sp, 3)
    ensures |r| == |memory|
  {
    var m1 := PushedWord(memory, ss, Down(sp, 1), flags);
    var m2 := PushedWord(m1, ss, Down(sp, 2), cs);
    PushedWord(m2, ss, Down(sp, 3), ip)
  }

  lemma PushedIsOnTop(memory: seq<u8>, ss: u16, sp: u16, v: u16)
    requires Holds(memory, AbsMemory(ss, sp), 16)
    ensures TopWord(PushedWord(memory, ss, sp, v), ss, sp) == v
  {
    WidthValues();
    StoreMeans(memory, AbsMemory(ss, sp), 16, v);
  }

  lemma PushKeepsWord(memory: seq<u8>, ss: u16, sp: u16, v: u16, other: u16)
    requires Holds(memory, AbsMemory(ss, sp), 16) && Holds(memory, AbsMemory(ss, other), 16)
    requires sp as int + 2 <= other || other as int + 2 <= sp
    ensures TopWord(PushedWord(memory, ss, sp, v), ss, other) == TopWord(memory, ss, other)
  {
    WidthValues();
    StoreMeans(memory, AbsMemory(ss, sp), 16, v);
  }

  /** The three words come back from the stack, wherever it lies and even where the stack pointer wraps. */
  lemma SavedIsRestored(memory: seq<u8>, ss: u16, sp: u16, flags: u16, cs: u16, ip: u16)
    requires StackHolds(memory, ss, sp, 3)
    ensures
      var m := Saved(memory, ss, sp, flags, cs, ip);
      && StackHolds(m, ss, sp, 3)
      && TopWord(m, ss, Down(sp, 3)) == ip && TopWord(m, ss, Down(sp, 2)) == cs && TopWord(m, ss, Down(sp, 1)) == flags
  {
    hide PushedWord, TopWord;
    var m1 := PushedWord(memory, ss, Down(sp, 1), flags);
    var m2 := PushedWord(m1, ss, Down(sp, 2), cs);
    PushedIsOnTop(memory, ss, Down(sp, 1), flags);
    PushedIsOnTop(m1, ss, Down(sp, 2), cs);
    PushedIsOnTop(m2, ss, Down(sp, 3), ip);
    PushKeepsWord(m1, ss, Down(sp, 2), cs, Down(sp, 1));
    PushKeepsWord(m2, ss, Down(sp, 3), ip, Down(sp, 1));
    PushKeepsWord(m2, ss, Down(sp, 3), ip, Down(sp, 2));
  }

  /** Nothing above the six bytes of the stack, nor anything else in memory, is touched. */
  lemma SavedKeepsOthers(memory: seq<u8>, ss: u16, sp: u16, flags: u16, cs: u16, ip: u16, i: nat)
    requires StackHolds(memory, ss, sp, 3) && i < |memory|
    requires forall k :: 1 <= k <= 3 ==> !(AbsMemory(ss, Down(sp, k)) <= i < AbsMemory(ss, Down(sp, k)) + 2)
    ensures Saved(memory, ss, sp, flags, cs, ip)[i] == memory[i]
  {
    hide PushedWord;
    var m1 := PushedWord(memory, ss, Down(sp, 1), flags);
    PushKeepsByte(memory, ss, Down(sp, 1), flags, i);
    PushKeepsByte(m1, ss, Down(sp, 2), cs, i);
    PushKeepsByte(PushedWord(m1, ss, Down(sp, 2), cs), ss, Down(sp, 3), ip, i);
  }

  lemma PushKeepsByte(memory: seq<u8>, ss: u16, sp: u16, v: u16, i: nat)
    requires Holds(memory, AbsMemory(ss, sp), 16) && i < |memory|
    requires !(AbsMemory(ss, sp) <= i < AbsMemory(ss, sp) + 2)
    ensures PushedWord(memory, ss, sp, v)[i] == memory[i]
  {
    WidthValues();
    StoreMeans(memory, AbsMemory(ss, sp), 16, v);
  }
}
