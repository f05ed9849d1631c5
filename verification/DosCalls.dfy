/** INT 21h functions 48h (allocate), 49h (free) and 58h (strategy) over the memory manager, and what a program sees. */
module DosCalls {
  import opened Machine
  import opened Blocks
  import opened Allocator
  import opened Bytes
  import opened Cpu
  import opened DosMemory
  import opened Placement

  datatype DosState = DosState(mem: State, ax: u16, bx: u16, carry: bool)

  /** One paragraph is added for the memory control block, in 16 bits; AX skips it. */
  function Function48(s: DosState): DosState {
    var (mem, r) := Step(s.mem, Allocate(Wrap16(s.bx as int + 1)));
    if r.Granted? then s.(mem := mem, ax := Wrap16(r.start as int + 1), carry := false) else s.(carry := true)
  }

  function Function49(s: DosState): DosState {
    var (mem, r) := Step(s.mem, Release(Wrap16(s.bx as int - 1)));
    s.(mem := mem, carry := r != Freed(true))
  }

  function Function58(s: DosState): DosState {
    if s.ax % 0x100 == 0 then s.(bx := if s.mem.fit.Last? then 2 else 0)
    else if s.ax % 0x100 == 1 then s.(mem := Step(s.mem, SetStrategy(if s.bx == 2 then Last else First)).0)
    else s
  }

  /** The functions of INT 21h that are modelled; AH tells which. */
  predicate Known(s: DosState) {
    s.ax / 0x100 == 0x48 || s.ax / 0x100 == 0x49 || s.ax / 0x100 == 0x58
  }

  /** What the handler of INT 21h leaves. */
  function Handled(s: DosState): DosState
    requires Known(s)
  {
    if s.ax / 0x100 == 0x48 then Function48(s) else if s.ax / 0x100 == 0x49 then Function49(s) else Function58(s)
  }

  /** What the program sees when it goes on: the handler's registers, and the flags it had before. */
  function Interrupted(s: DosState): DosState
    requires Known(s)
  {
    Handled(s).(carry := s.carry)
  }

  class Dos {
    const cpu: CPU
    const memMgr: DosMemoryManager

    ghost predicate Valid()
      reads memMgr
    {
      memMgr.Valid()
    }

    ghost function View(): DosState
      reads cpu, memMgr
    {
      DosState(State(memMgr.blocks, memMgr.fit), cpu.ax, cpu.bx, HasCarry(cpu.flags))
    }

    constructor (cpu: CPU)
      ensures Valid() && fresh(memMgr) && this.cpu == cpu
      ensures View().mem == Boot(0x0800, 0x9FC0) && memMgr.startSeg == 0x0800 && memMgr.endSeg == 0x9FC0
    {
      this.cpu := cpu;
      memMgr := new DosMemoryManager(0x0800, 0x9FC0);
    }

    method Allocate()
      requires Valid()
      modifies cpu`ax, cpu`flags, memMgr`blocks
      ensures Valid() && View() == Function48(old(View()))
    {
      hide Answers, Allocated, Tiled;
      RefusalKeepsBlocks(memMgr.blocks, Wrap16(cpu.bx as int + 1), memMgr.fit);
      var r := memMgr.Allocate(Wrap16(cpu.bx as int + 1));
      if r.Some? {
        cpu.ax := Wrap16(r.value as int + 1);
        cpu.flags := WithCarry(cpu.flags, false);
      } else {
        cpu.flags := WithCarry(cpu.flags, true);
      }
    }

    method Free()
      requires Valid()
      modifies cpu`flags, memMgr`blocks
      ensures Valid() && View() == Function49(old(View()))
    {
      var success := memMgr.Release(Wrap16(cpu.bx as int - 1));
      cpu.flags := WithCarry(cpu.flags, !success);
    }

    method MemoryStrategy()
      requires Valid()
      modifies cpu`bx, memMgr`fit
      ensures Valid() && View() == Function58(old(View()))
    {
      if cpu.ax % 0x100 == 0 {
        cpu.bx := if memMgr.fit.Last? then 2 else 0;
      } else if cpu.ax % 0x100 == 1 {
        memMgr.SetStrategy(if cpu.bx == 2 then Last else First);
      }
    }

    method Int21()
      requires Valid() && Known(View())
      modifies cpu`ax, cpu`bx, cpu`flags, memMgr
      ensures Valid() && View() == Handled(old(View()))
      ensures old(cpu.ax) / 0x100 == 0x48 ==> View() == Function48(old(View()))
      ensures old(cpu.ax) / 0x100 == 0x49 ==> View() == Function49(old(View()))
      ensures old(cpu.ax) / 0x100 == 0x58 ==> View() == Function58(old(View()))
    {
      hide Function48, Function49, Function58;
      if cpu.ax / 0x100 == 0x48 {
        Allocate();
      } else if cpu.ax / 0x100 == 0x49 {
        Free();
      } else {
        MemoryStrategy();
      }
    }

    /** INT 21h as the processor runs it: to the program's own handler, if it has set the vector, else through the
        handler above. Either way the flags, CS and IP are saved on the stack; in the second they are taken back. */
    method CallInterrupt() returns (hooked: bool)
      requires Valid() && Known(View()) && StackHolds(cpu.memory[..], cpu.ss, cpu.sp, 3) && cpu.memory.Length >= 0x400
      modifies cpu, cpu.memory, memMgr
      ensures Valid()
      ensures hooked <==> old(cpu.memory[0x84..0x88]) != [0x21, 0, 0, 0]
      ensures cpu.memory[..]
           == Saved(old(cpu.memory[..]), old(cpu.ss), old(cpu.sp), old(cpu.flags), old(cpu.cs), old(cpu.ip))
      ensures cpu.ss == old(cpu.ss)
      ensures hooked ==> View() == old(View()) && cpu.flags == old(cpu.flags)
                         && cpu.ip as int == old(cpu.memory[0x84]) as int + 0x100 * old(cpu.memory[0x85]) as int
                         && cpu.cs as int == old(cpu.memory[0x86]) as int + 0x100 * old(cpu.memory[0x87]) as int
                         && cpu.sp as int == (old(cpu.sp) - 6) % 0x1_0000
      ensures !hooked ==> View() == Interrupted(old(View())) && cpu.flags == old(cpu.flags)
                          && cpu.cs == old(cpu.cs) && cpu.ip == old(cpu.ip) && cpu.sp == old(cpu.sp)
    {
      hide Handled, Saved, TopWord, Load;
      var off := WordAt(cpu.memory, 0x84);
      var seg := WordAt(cpu.memory, 0x86);
      ghost var top := cpu.sp;
      SavedIsRestored(cpu.memory[..], cpu.ss, cpu.sp, cpu.flags, cpu.cs, cpu.ip);
      cpu.SaveState();
      if seg != 0 || off != 0x21 {
        cpu.cs := seg;
        cpu.ip := off;
        return true;
      }
      Int21();
      cpu.RestoreState(top);
      return false;
    }
  }

  method WordAt(memory: array<u8>, at: nat) returns (v: u16)
    requires Holds(memory[..], at, 16)
    ensures v == memory[at] as int + 0x100 * memory[at + 1] as int
  {
    v := memory[at] as int + 0x100 * memory[at + 1] as int;
  }

  // ----- Runs of calls

  /** A call with the registers the program loads first, AH among them. */
  datatype DosCall = Allocate48(bx: u16) | Free49(bx: u16) | Strategy58(al: u8, bx: u16)

  function Loaded(s: DosState, c: DosCall): (r: DosState)
    ensures Known(r)
  {
    match c
    case Allocate48(bx) => s.(ax := 0x4800 + s.ax % 0x100, bx := bx)
    case Free49(bx) => s.(ax := 0x4900 + s.ax % 0x100, bx := bx)
    case Strategy58(al, bx) => s.(ax := 0x5800 + al, bx := bx)
  }

  /** The state after a call, as the program sees it. */
  function DosStep(s: DosState, c: DosCall): DosState {
    Interrupted(Loaded(s, c))
  }

  /** Whether the handler set CF. The program does not see it. */
  predicate Failed(s: DosState, c: DosCall) {
    Handled(Loaded(s, c)).carry
  }

  type Areas = map<u16, int>

  /** The areas that are handed out: the AX that was given, and the BX that was asked for. */
  function TrackDos(held: Areas, c: DosCall, ax: u16, carry: bool): Areas {
    match c
    case Allocate48(bx) => if carry then held else held[ax := bx]
    case Free49(bx) => if carry then held else held - {bx}
    case Strategy58(_, _) => held
  }

  /** A granted area lies in the arena, above its control block, apart from all others and their control blocks. */
  ghost predicate DosPermitted(held: Areas, lo: int, hi: int, c: DosCall, ax: u16, carry: bool) {
    match c
    case Allocate48(bx) =>
      carry ||
      (&& lo < ax && ax + bx <= hi && ax !in held
       && forall t :: t in held ==> Apart(ax - 1, bx + 1, t - 1, held[t] + 1))
    case Free49(bx) => carry <==> bx !in held
    case Strategy58(_, _) => true
  }

  /** No block, used or free, begins inside a granted area: control blocks are out of its owner's reach. */
  ghost predicate NoBoundaryInside(bs: seq<Block>, held: Areas) {
    forall t, i :: t in held && 0 <= i < |bs| ==> !(t <= bs[i].start < t + held[t])
  }

  ghost predicate DosLawful(s: DosState, held: Areas, lo: int, hi: int, calls: seq<DosCall>)
    decreases |calls|
  {
    && NoBoundaryInside(s.mem.blocks, held)
    && (calls != [] ==>
      var (after, failed) := (DosStep(s, calls[0]), Failed(s, calls[0]));
      && DosPermitted(held, lo, hi, calls[0], after.ax, failed)
      && DosLawful(after, TrackDos(held, calls[0], after.ax, failed), lo, hi, calls[1..]))
  }

  predicate AllCountable(calls: seq<DosCall>) {
    forall c :: c in calls ==> Countable(c)
  }

  /** The manager's grants without their first paragraph, which is the control block. */
  function AreasOf(live: Grants): Areas {
    map t: u16 | Below(t) in live :: live[Below(t)] - 1
  }

  function Below(t: u16): int { t - 1 }

  ghost predicate InRange(live: Grants) {
    forall s :: s in live ==> 0 < live[s] && s as int + live[s] <= 0xFFFF
  }

  predicate Countable(c: DosCall) {
    c.Allocate48? ==> c.bx < 0xFFFF
  }

  lemma AreasHoldNoBoundary(bs: seq<Block>, live: Grants, lo: int, hi: int)
    requires Tiled(bs, lo, hi) && Represents(bs, live) && InRange(live)
    ensures NoBoundaryInside(bs, AreasOf(live))
  {
    forall t, i | t in AreasOf(live) && 0 <= i < |bs| ensures !(t <= bs[i].start < t + AreasOf(live)[t]) {
      var s := Below(t);
      var k :| 0 <= k < |bs| && StartsUsed(bs[k], s);
      TiledIsOrdered(bs, lo, hi, if i < k then i else k, if i < k then k else i);
    }
  }

  /** The grants of the memory manager that one call makes or gives back. */
  function ManagerCall(fit: Fit, c: DosCall): Call {
    match c
    case Allocate48(bx) => Allocate(Wrap16(bx as int + 1))
    case Free49(bx) => Release(Wrap16(bx as int - 1))
    case Strategy58(al, bx) => SetStrategy(if al != 1 then fit else if bx == 2 then Last else First)
  }

  lemma AreasAfterGrant(live: Grants, start: u16, n: u16)
    requires start < 0xFFFF
    ensures AreasOf(live[start := n]) == AreasOf(live)[start + 1 := n - 1]
  {
    var a, b := AreasOf(live[start := n]), AreasOf(live)[start + 1 := n - 1];
    forall t: u16 ensures (t in a <==> t in b) && (t in a ==> a[t] == b[t]) {
      assert Below(t) == start <==> t == start + 1;
    }
  }

  lemma AreasAfterRelease(live: Grants, bx: u16)
    requires Below(bx) in live
    ensures AreasOf(live - {Below(bx)}) == AreasOf(live) - {bx}
  {
    var a, b := AreasOf(live - {Below(bx)}), AreasOf(live) - {bx};
    forall t: u16 ensures t in a <==> t in b {
      assert Below(t) == Below(bx) <==> t == bx;
    }
  }

  /** One call's registers are permitted, and take the areas of live to those of live'. */
  ghost predicate Moves(live: Grants, live': Grants, lo: int, hi: int, c: DosCall, ax: u16, carry: bool) {
    && InRange(live) && InRange(live')
    && DosPermitted(AreasOf(live), lo, hi, c, ax, carry) && TrackDos(AreasOf(live), c, ax, carry) == AreasOf(live')
  }

  lemma GrantIsPermitted(live: Grants, lo: int, hi: int, bx: u16, start: u16)
    requires 0 <= lo && hi < 0x1_0000 && InRange(live) && bx < 0xFFFF
    requires Permitted(live, lo, hi, Allocate(bx + 1), Granted(start))
    ensures start < 0xFFFF && DosPermitted(AreasOf(live), lo, hi, Allocate48(bx), start + 1, false)
  {
    assert Below(start + 1) == start;
    forall t | t in AreasOf(live) ensures Apart(start as int, bx + 1, t - 1, AreasOf(live)[t] + 1) {
      assert Below(t) in live;
    }
  }

  lemma GrantMoves(live: Grants, lo: int, hi: int, bx: u16, start: u16)
    requires 0 <= lo && hi < 0x1_0000 && InRange(live) && bx < 0xFFFF
    requires Permitted(live, lo, hi, Allocate(bx + 1), Granted(start))
    ensures start < 0xFFFF && Moves(live, live[start := bx + 1], lo, hi, Allocate48(bx), start + 1, false)
  {
    GrantIsPermitted(live, lo, hi, bx, start);
    AreasAfterGrant(live, start, bx + 1);
  }

  lemma ReleaseMoves(live: Grants, lo: int, hi: int, bx: u16, ax: u16, r: Reply)
    requires InRange(live) && Permitted(live, lo, hi, Release(Wrap16(bx as int - 1)), r)
    ensures Moves(live, Track(live, Release(Wrap16(bx as int - 1)), r), lo, hi, Free49(bx), ax, r != Freed(true))
  {
    assert 0xFFFF !in live;
    assert bx in AreasOf(live) <==> Wrap16(bx as int - 1) in live;
    if bx in AreasOf(live) {
      AreasAfterRelease(live, bx);
    }
  }

  /** The manager's reply, as AX and the handler's CF show it. */
  predicate Shows(c: DosCall, r: Reply, ax: u16, carry: bool) {
    match c
    case Allocate48(_) => carry == !r.Granted? && (r.Granted? ==> ax == Wrap16(r.start as int + 1))
    case Free49(_) => carry == (r != Freed(true))
    case Strategy58(_, _) => true
  }

  lemma Dispatches(s: DosState, c: DosCall)
    ensures Handled(Loaded(s, c)) ==
      match c
      case Allocate48(_) => Function48(Loaded(s, c))
      case Free49(_) => Function49(Loaded(s, c))
      case Strategy58(_, _) => Function58(Loaded(s, c))
  {
    hide Function48, Function49, Function58;
  }

  lemma DosStepShows(s: DosState, c: DosCall)
    ensures DosStep(s, c).mem == Step(s.mem, ManagerCall(s.mem.fit, c)).0
    ensures Shows(c, Step(s.mem, ManagerCall(s.mem.fit, c)).1, DosStep(s, c).ax, Failed(s, c))
  {
    hide Handled, Step;
    Dispatches(s, c);
    OnlyGrantsChangeBlocks(s.mem, ManagerCall(s.mem.fit, c));
    if c.Strategy58? {
      assert Loaded(s, c).ax % 0x100 == c.al;
    }
  }

  lemma OnlyGrantsChangeBlocks(st: State, d: Call)
    ensures d.SetStrategy? ==> Step(st, d).0 == st.(fit := d.fit)
    ensures d.Allocate? && !Step(st, d).1.Granted? ==> Step(st, d).0 == st
  {
  }

  lemma NothingMoves(live: Grants, lo: int, hi: int, c: DosCall, ax: u16, carry: bool)
    requires InRange(live) && (c.Strategy58? || (c.Allocate48? && carry))
    ensures Moves(live, live, lo, hi, c, ax, carry)
  {
  }

  lemma ShownReplyMoves(live: Grants, lo: int, hi: int, fit: Fit, c: DosCall, r: Reply, ax: u16, carry: bool)
    requires 0 <= lo && hi < 0x1_0000 && InRange(live) && Countable(c)
    requires Permitted(live, lo, hi, ManagerCall(fit, c), r) && Shows(c, r, ax, carry)
    ensures Moves(live, Track(live, ManagerCall(fit, c), r), lo, hi, c, ax, carry)
  {
    hide Moves, Permitted, InRange;
    if c.Free49? {
      ReleaseMoves(live, lo, hi, c.bx, ax, r);
    } else if c.Allocate48? && r.Granted? {
      GrantMoves(live, lo, hi, c.bx, r.start);
      assert Track(live, ManagerCall(fit, c), r) == live[r.start := c.bx + 1] && ax == r.start + 1;
    } else {
      NothingMoves(live, lo, hi, c, ax, carry);
      assert Track(live, ManagerCall(fit, c), r) == live;
    }
  }

  lemma DosStepMoves(s: DosState, live: Grants, lo: int, hi: int, c: DosCall) returns (live': Grants)
    requires 0 <= lo && Inv(s.mem, lo, hi) && Represents(s.mem.blocks, live) && InRange(live) && Countable(c)
    ensures Inv(DosStep(s, c).mem, lo, hi) && Represents(DosStep(s, c).mem.blocks, live')
    ensures Moves(live, live', lo, hi, c, DosStep(s, c).ax, Failed(s, c))
  {
    var d := ManagerCall(s.mem.fit, c);
    StepIsPermitted(s.mem, live, lo, hi, d);
    DosStepShows(s, c);
    var r := Step(s.mem, d).1;
    ShownReplyMoves(live, lo, hi, s.mem.fit, c, r, DosStep(s, c).ax, Failed(s, c));
    live' := Track(live, d, r);
  }

  lemma {:induction false} DosRunIsLawful(s: DosState, live: Grants, lo: int, hi: int, calls: seq<DosCall>)
    requires 0 <= lo && Inv(s.mem, lo, hi) && Represents(s.mem.blocks, live) && InRange(live)
    requires AllCountable(calls)
    ensures DosLawful(s, AreasOf(live), lo, hi, calls)
    decreases |calls|
  {
    AreasHoldNoBoundary(s.mem.blocks, live, lo, hi);
    if calls != [] {
      var live' := DosStepMoves(s, live, lo, hi, calls[0]);
      assert Countable(calls[0]);
      DosRunIsLawful(DosStep(s, calls[0]), live', lo, hi, calls[1..]);
    }
  }

  /** Over every run of these calls with BX below FFFFh, areas handed out stay apart and hold no control block, and the
      handler's CF and AX tell which they are. */
  lemma EveryDosRunIsLawful(s: DosState, lo: u16, hi: u16, calls: seq<DosCall>)
    requires lo <= hi && s.mem == Boot(lo, hi)
    requires AllCountable(calls)
    ensures DosLawful(s, map[], lo, hi, calls)
  {
    DosRunIsLawful(s, map[], lo, hi, calls);
    assert AreasOf(map[]) == map[];
  }

  /** A granted area lies in the arena exactly when BX is not FFFFh, for which BX + 1 wraps to a request for 0. */
  lemma GrantLiesInArenaExactly(s: DosState, lo: int, hi: int, bx: u16)
    requires 0 <= lo && Tiled(s.mem.blocks, lo, hi) && hi < 0x1_0000 && !Failed(s, Allocate48(bx))
    ensures
      var ax := DosStep(s, Allocate48(bx)).ax;
      lo < ax && ax + bx <= hi <==> bx != 0xFFFF
  {
    var n: u16 := Wrap16(bx as int + 1);
    var i := Chosen(s.mem.blocks, n, s.mem.fit);
    TiledInArena(s.mem.blocks, lo, hi, i);
  }

  /** The wrapped request is granted right after booting, for an area that no arena below FFFFh can hold. */
  lemma WrappedRequestIsGranted(s: DosState, lo: u16, hi: u16)
    requires lo <= hi && lo < 0xFFFF && s.mem == Boot(lo, hi)
    ensures
      var ax := DosStep(s, Allocate48(0xFFFF)).ax;
      !Failed(s, Allocate48(0xFFFF)) && ax == lo + 1 && ax as int + 0xFFFF > hi
  {
    assert Wrap16(0x1_0000) == 0;
  }

  /** AH=49h succeeds exactly when the segment below BX starts a used block. */
  lemma FreeSucceedsExactly(s: DosState, bx: u16)
    ensures !Failed(s, Free49(bx))
        <==> exists i :: 0 <= i < |s.mem.blocks| && StartsUsed(s.mem.blocks[i], Wrap16(bx as int - 1))
  {
    var i := FindUsed(s.mem.blocks, Wrap16(bx as int - 1));
    assert i < |s.mem.blocks| ==> StartsUsed(s.mem.blocks[i], Wrap16(bx as int - 1));
  }

  // ----- The strategy

  predicate SetsStrategy(c: DosCall) { c.Strategy58? && c.al == 1 }

  lemma {:induction false} StrategyStays(s: DosState, calls: seq<DosCall>)
    requires forall c :: c in calls ==> !SetsStrategy(c)
    ensures DosRun(s, calls).mem.fit == s.mem.fit
    decreases |calls|
  {
    if calls != [] {
      hide DosStep;
      assert calls[0] in calls;
      OtherCallsKeepStrategy(s, calls[0]);
      StrategyStays(DosStep(s, calls[0]), calls[1..]);
    }
  }

  lemma OtherCallsKeepStrategy(s: DosState, c: DosCall)
    requires !SetsStrategy(c)
    ensures DosStep(s, c).mem.fit == s.mem.fit
  {
    hide Handled;
    Dispatches(s, c);
  }

  /** What AL=1 has set, AL=0 reads back after any calls that do not set it: 2 for last fit, else 0. Neither touches the
      blocks. */
  lemma StrategyReadsBack(s: DosState, bx: u16, calls: seq<DosCall>, other: u16)
    requires forall c :: c in calls ==> !SetsStrategy(c)
    ensures
      var set1 := DosStep(s, Strategy58(1, bx));
      var t := DosRun(set1, calls);
      var got := DosStep(t, Strategy58(0, other));
      got.bx == (if bx == 2 then 2 else 0) && got.mem == t.mem && set1.mem.blocks == s.mem.blocks
  {
    var set1 := DosStep(s, Strategy58(1, bx));
    StrategyIs(s, bx, other);
    StrategyStays(set1, calls);
    StrategyIs(DosRun(set1, calls), bx, other);
  }

  /** A request that is granted later is cut from the top of the highest fitting block exactly when 2 was set. */
  lemma StrategyDecides(s: DosState, bx: u16, calls: seq<DosCall>, lo: int, hi: int, n: u16)
    requires forall c :: c in calls ==> !SetsStrategy(c)
    requires
      var t := DosRun(DosStep(s, Strategy58(1, bx)), calls);
      Tiled(t.mem.blocks, lo, hi) && hi < 0x1_0000 && !Failed(t, Allocate48(n))
    ensures
      var t := DosRun(DosStep(s, Strategy58(1, bx)), calls);
      var u := DosStep(t, Allocate48(n));
      IsCut(t.mem.blocks, u.mem.blocks, (n as int + 1) % 0x1_0000, bx == 2, (u.ax as int - 1) % 0x1_0000)
  {
    hide IsCut, Tiled, DosStep, Failed;
    StrategyIs(s, bx, 0);
    StrategyStays(DosStep(s, Strategy58(1, bx)), calls);
    RequestIsCut(DosRun(DosStep(s, Strategy58(1, bx)), calls), lo, hi, n);
  }

  lemma StrategyIs(s: DosState, bx: u16, other: u16)
    ensures DosStep(s, Strategy58(1, bx)).mem == s.mem.(fit := if bx == 2 then Last else First)
    ensures
      var got := DosStep(s, Strategy58(0, other));
      got.bx == (if s.mem.fit.Last? then 2 else 0) && got.mem == s.mem
  {
    hide Handled;
    Dispatches(s, Strategy58(1, bx));
    Dispatches(s, Strategy58(0, other));
    assert Loaded(s, Strategy58(1, bx)).ax % 0x100 == 1 && Loaded(s, Strategy58(0, other)).ax % 0x100 == 0;
  }

  lemma RequestIsCut(t: DosState, lo: int, hi: int, n: u16)
    requires Tiled(t.mem.blocks, lo, hi) && hi < 0x1_0000 && !Failed(t, Allocate48(n))
    ensures
      var u := DosStep(t, Allocate48(n));
      IsCut(t.mem.blocks, u.mem.blocks, (n as int + 1) % 0x1_0000, t.mem.fit.Last?, (u.ax as int - 1) % 0x1_0000)
  {
    hide Handled, IsCut, Allocated, Tiled;
    var segs: u16 := Wrap16(n as int + 1);
    Dispatches(t, Allocate48(n));
    AllocationCuts(t.mem.blocks, lo, hi, segs, t.mem.fit);
    var (after, r) := Allocated(t.mem.blocks, segs, t.mem.fit);
    assert DosStep(t, Allocate48(n)).mem.blocks == after;
    assert DosStep(t, Allocate48(n)).ax == Wrap16(r.value as int + 1);
  }

  // ----- What the program sees of the outcome

  lemma {:induction false} CarryNeverChanges(s: DosState, calls: seq<DosCall>)
    ensures DosRun(s, calls).carry == s.carry
    decreases |calls|
  {
    if calls != [] {
      CarryNeverChanges(DosStep(s, calls[0]), calls[1..]);
    }
  }

  function DosRun(s: DosState, calls: seq<DosCall>): DosState
    decreases |calls|
  {
    if calls == [] then s else DosRun(DosStep(s, calls[0]), calls[1..])
  }

  /** After any run the CF that a program sees is the one it started with, so it is right about the next call exactly
      when it happens to equal the outcome: for an allocation, whether no free block fits; for a release, whether no
      used block starts below BX. */
  lemma CarrySeenIsRightExactly(s: DosState, calls: seq<DosCall>, bx: u16)
    ensures
      var t := DosRun(s, calls);
      var bs := t.mem.blocks;
      && DosStep(t, Allocate48(bx)).carry == DosStep(t, Free49(bx)).carry == s.carry
      && (s.carry == Failed(t, Allocate48(bx)) <==>
            (s.carry <==> forall i :: 0 <= i < |bs| ==> !Fits(bs[i], Wrap16(bx as int + 1))))
      && (s.carry == Failed(t, Free49(bx)) <==>
            (s.carry <==> forall i :: 0 <= i < |bs| ==> !StartsUsed(bs[i], Wrap16(bx as int - 1))))
  {
    var t := DosRun(s, calls);
    CarryNeverChanges(s, calls);
    RefusedExactlyWhenNothingFits(t.mem, Wrap16(bx as int + 1));
    FreeSucceedsExactly(t, bx);
  }

  /** A refusal that looks like a grant: CF is clear, and the 48xxh still in AX lies in the arena. */
  lemma RefusalLooksLikeGrant(s: DosState)
    requires s.mem == Boot(0x0800, 0x9FC0) && !s.carry
    ensures
      var r := DosStep(s, Allocate48(0xFFF0));
      Failed(s, Allocate48(0xFFF0)) && !r.carry && r.ax == 0x4800 + s.ax % 0x100 && 0x0800 < r.ax < 0x9FC0
  {
    RefusedExactlyWhenNothingFits(s.mem, 0xFFF1);
  }

  /** A release that looks refused, with CF set before. */
  lemma ReleaseLooksRefused(s: DosState)
    requires s.mem == Boot(0x0800, 0x9FC0) && s.carry
    ensures
      var t := DosStep(s, Allocate48(0x0F));
      t.ax == 0x0801 && !Failed(t, Free49(t.ax)) && DosStep(t, Free49(t.ax)).carry
  {
    var t := DosStep(s, Allocate48(0x0F));
    assert StartsUsed(t.mem.blocks[0], 0x0800);
    FreeSucceedsExactly(t, 0x0801);
  }
}
