/** What run control guarantees over every interleaving of client threads and the CPU thread. */
module DebuggerRuns {
  import opened Debugger

  /** What has happened: commands queued and taken, in order, each return of int1, and whether anyone detached. */
  datatype History = History(pushed: seq<Command>, taken: seq<Command>, exits: seq<Return>, detached: bool)

  datatype Trace = Trace(now: State, past: History)

  function Start(): Trace {
    Trace(Init(), History([], [], [], false))
  }

  /** The command that the next section of the CPU thread takes out, if any. */
  function TakenBy(s: State): seq<Command> {
    if s.pc.Popping? then s.queue[..if s.queue == [] then 0 else 1] else []
  }

  /** The return of int1 that the next section makes, if any, after n commands were taken. */
  function ExitBy(s: State, n: nat): seq<Return> {
    match s.pc
    case LoopTop => if s.attached then [] else [Return(NotAttached, s.debuggee, n)]
    case Idle => if s.debuggee.Running? then [Return(FreeRun, Running, n)] else []
    case Dispatching(c) => if Resumes(c) then [Return(ByCommand(c), CpuStep(s).debuggee, n)] else []
    case _ => []
  }

  function CpuExtend(t: Trace): Trace {
    Trace(CpuStep(t.now),
          t.past.(taken := t.past.taken + TakenBy(t.now), exits := t.past.exits + ExitBy(t.now, |t.past.taken|)))
  }

  function Extend(t: Trace, e: Event): Trace {
    match e
    case Cpu => CpuExtend(t)
    case Push(c) => Trace(ClientStep(t.now, e), t.past.(pushed := t.past.pushed + [c]))
    case Attach => Trace(ClientStep(t.now, e), t.past)
    case Detach => Trace(ClientStep(t.now, e), t.past.(detached := true))
  }

  function Run(t: Trace, events: seq<Event>): Trace
    decreases |events|
  {
    if events == [] then t else Run(Extend(t, events[0]), events[1..])
  }

  /** How often the CPU thread goes from inside int1 to outside. */
  function Returns(t: Trace, events: seq<Event>): nat
    decreases |events|
  {
    if events == [] then 0
    else
      var u := Extend(t, events[0]);
      (if !t.now.pc.Outside? && u.now.pc.Outside? then 1 else 0) + Returns(u, events[1..])
  }

  /** The history records every return. */
  lemma {:induction false} ExitsAreReturns(t: Trace, events: seq<Event>)
    ensures |Run(t, events).past.exits| == |t.past.exits| + Returns(t, events)
    decreases |events|
  {
    if events != [] {
      ExitsAreReturns(Extend(t, events[0]), events[1..]);
    }
  }

  /** The commands acted upon: all that were taken, but for one still being dispatched. */
  function Handled(t: Trace): seq<Command> {
    if t.now.pc.Dispatching? && t.past.taken != [] then t.past.taken[..|t.past.taken| - 1] else t.past.taken
  }

  /** Whether the last cont or step among the commands is a cont. */
  predicate ContLast(cmds: seq<Command>) {
    cmds != [] && (cmds[|cmds| - 1].Cont? || (!cmds[|cmds| - 1].Step? && ContLast(cmds[..|cmds| - 1])))
  }

  predicate Resumes(c: Command) {
    c.Cont? || c.Step?
  }

  function Count<T>(xs: seq<T>, p: T -> bool): nat {
    if xs == [] then 0 else Count(xs[..|xs| - 1], p) + (if p(xs[|xs| - 1]) then 1 else 0)
  }

  lemma CountAppend<T>(xs: seq<T>, x: T, p: T -> bool)
    ensures Count(xs + [x], p) == Count(xs, p) + (if p(x) then 1 else 0)
  {
    assert (xs + [x])[..|xs|] == xs;
  }

  predicate IsStep(c: Command) { c.Step? }
  predicate LeftStepping(r: Return) { r.left.Stepping? }
  predicate LeftByCommand(r: Return) { r.left.Stepping? && !r.cause.NotAttached? }
  predicate LeftUnattached(r: Return) { r.left.Stepping? && r.cause.NotAttached? }

  /** A return and the commands taken before it fit together. */
  predicate Accounted(r: Return, taken: seq<Command>) {
    && r.consumed <= |taken|
    && match r.cause
       case FreeRun => r.left.Running? && ContLast(taken[..r.consumed])
       case ByCommand(c) =>
         && r.consumed > 0 && taken[r.consumed - 1] == c && (c.Cont? || c.Step?)
         && r.left == (if c.Cont? then Running else Stepping)
       case NotAttached => true
  }

  ghost predicate Queued(t: Trace) {
    && t.past.pushed == t.past.taken + t.now.queue
    && (t.now.pc.Popping? ==> t.now.queue != [])
    && (t.now.pc.Dispatching? ==> t.past.taken != [] && t.past.taken[|t.past.taken| - 1] == t.now.pc.cmd)
  }

  ghost predicate Counted(t: Trace) {
    && (t.now.debuggee.Running? <==> ContLast(Handled(t)))
    && Count(t.past.exits, LeftByCommand) == Count(Handled(t), IsStep)
  }

  ghost predicate Explained(t: Trace) {
    forall i :: 0 <= i < |t.past.exits| ==> Accounted(t.past.exits[i], t.past.taken)
  }

  ghost predicate KeptAttached(t: Trace) {
    !t.past.detached ==>
      && (if t.now.pc.Outside? then !t.now.debuggee.Stopped? else t.now.attached)
      && (forall i :: 0 <= i < |t.past.exits| ==> !t.past.exits[i].cause.NotAttached?)
  }

  /** Outside int1 the state is as the last return left it. */
  ghost predicate AsLeft(t: Trace) {
    var exits := t.past.exits;
    t.now.pc.Outside? ==> t.now.debuggee == if exits == [] then Stepping else exits[|exits| - 1].left
  }

  ghost predicate Good(t: Trace) {
    Queued(t) && Counted(t) && Explained(t) && KeptAttached(t) && AsLeft(t)
  }

  lemma ClientEventKeepsGood(t: Trace, e: Event)
    requires Good(t) && !e.Cpu?
    ensures Good(Extend(t, e))
  {
    assert Handled(Extend(t, e)) == Handled(t);
  }

  lemma CpuKeepsQueued(t: Trace)
    requires Queued(t)
    ensures Queued(CpuExtend(t))
  {
  }

  lemma HandledGrows(t: Trace)
    requires Queued(t)
    ensures Handled(CpuExtend(t)) == Handled(t) + (if t.now.pc.Dispatching? then [t.now.pc.cmd] else [])
  {
    if t.now.pc.Dispatching? {
      assert t.past.taken == t.past.taken[..|t.past.taken| - 1] + [t.now.pc.cmd];
    }
  }

  lemma ContLastAppend(cmds: seq<Command>, c: Command)
    ensures ContLast(cmds + [c]) <==> c.Cont? || (!c.Step? && ContLast(cmds))
  {
    assert (cmds + [c])[..|cmds|] == cmds;
  }

  lemma DispatchKeepsCounted(t: Trace)
    requires Queued(t) && Counted(t) && t.now.pc.Dispatching?
    ensures Counted(CpuExtend(t))
  {
    hide Count, ContLast;
    var t', c, n := CpuExtend(t), t.now.pc.cmd, |t.past.taken|;
    HandledGrows(t);
    ContLastAppend(Handled(t), c);
    CountAppend(Handled(t), c, IsStep);
    CountAppend(t.past.exits, Return(ByCommand(c), t'.now.debuggee, n), LeftByCommand);
    assert !Resumes(c) ==> t'.past.exits == t.past.exits;
  }

  lemma OtherSectionKeepsCounted(t: Trace)
    requires Queued(t) && Counted(t) && !t.now.pc.Dispatching?
    ensures Counted(CpuExtend(t))
  {
    hide Count, ContLast;
    var n := |t.past.taken|;
    HandledGrows(t);
    assert Handled(CpuExtend(t)) == Handled(t);
    CountAppend(t.past.exits, Return(NotAttached, t.now.debuggee, n), LeftByCommand);
    CountAppend(t.past.exits, Return(FreeRun, Running, n), LeftByCommand);
    assert ExitBy(t.now, n) == [] ==> CpuExtend(t).past.exits == t.past.exits;
  }

  lemma CpuKeepsExplained(t: Trace)
    requires Queued(t) && Counted(t) && Explained(t)
    ensures Explained(CpuExtend(t))
  {
    hide Count, ContLast;
    var exits, taken, n := t.past.exits, t.past.taken + TakenBy(t.now), |t.past.taken|;
    forall i | 0 <= i < |exits| ensures Accounted(exits[i], taken) {
      assert Accounted(exits[i], t.past.taken);
      assert taken[..exits[i].consumed] == t.past.taken[..exits[i].consumed];
    }
    if ExitBy(t.now, n) != [] {
      assert taken[..n] == t.past.taken;
      assert Accounted(ExitBy(t.now, n)[0], taken);
    }
  }

  lemma CpuKeepsAttached(t: Trace)
    requires KeptAttached(t) && AsLeft(t)
    ensures KeptAttached(CpuExtend(t)) && AsLeft(CpuExtend(t))
  {
  }

  lemma {:induction false} RunKeepsGood(t: Trace, events: seq<Event>)
    requires Good(t)
    ensures Good(Run(t, events))
    decreases |events|
  {
    if events != [] {
      if !events[0].Cpu? {
        ClientEventKeepsGood(t, events[0]);
      } else {
        CpuKeepsQueued(t);
        if t.now.pc.Dispatching? { DispatchKeepsCounted(t); } else { OtherSectionKeepsCounted(t); }
        CpuKeepsExplained(t);
        CpuKeepsAttached(t);
      }
      RunKeepsGood(Extend(t, events[0]), events[1..]);
    }
  }

  /** The events of a call of int1: what other threads do before each of its sections, and the section. */
  function Interleaved(s: State, arrivals: seq<seq<Event>>): seq<Event>
    requires AllByClients(arrivals)
    decreases |arrivals|
  {
    if arrivals == [] || s.pc.Outside? then []
    else arrivals[0] + ([Cpu] + Interleaved(CpuStep(ClientSteps(s, arrivals[0])), arrivals[1..]))
  }

  lemma {:induction false} InterleavedRuns(t: Trace, arrivals: seq<seq<Event>>)
    requires AllByClients(arrivals)
    ensures
      var events := Interleaved(t.now, arrivals);
      && Run(t, events).now == Sections(t.now, arrivals)
      && Returns(t, events) == (if !t.now.pc.Outside? && Run(t, events).now.pc.Outside? then 1 else 0)
    decreases |arrivals|
  {
    if arrivals != [] && !t.now.pc.Outside? {
      var t1 := Run(t, arrivals[0]);
      var t2 := Extend(t1, Cpu);
      var rest := Interleaved(t2.now, arrivals[1..]);
      ClientsRun(t, arrivals[0]);
      InterleavedRuns(t2, arrivals[1..]);
      RunAppend(t, arrivals[0], [Cpu] + rest);
      ReturnsAppend(t, arrivals[0], [Cpu] + rest);
      assert ([Cpu] + rest)[1..] == rest;
      if t2.now.pc.Outside? {
        assert rest == [];
      }
    }
  }

  /** A call of int1 after any run, arrivals included, is a longer run, in which it returns at most once. */
  lemma Int1IsARun(before: seq<Event>, arrivals: seq<seq<Event>>)
    requires AllByClients(arrivals)
    ensures
      var t := Run(Start(), before);
      var r := Run(Start(), before + Interleaved(t.now, arrivals));
      && r.now == Sections(t.now, arrivals)
      && |r.past.exits| == |t.past.exits| + (if !t.now.pc.Outside? && r.now.pc.Outside? then 1 else 0)
  {
    hide Run;
    var t := Run(Start(), before);
    InterleavedRuns(t, arrivals);
    RunAppend(Start(), before, Interleaved(t.now, arrivals));
    ExitsAreReturns(t, Interleaved(t.now, arrivals));
  }

  lemma {:induction false} ClientsRun(t: Trace, events: seq<Event>)
    requires ByClients(events)
    ensures Run(t, events).now == ClientSteps(t.now, events) && Returns(t, events) == 0
    ensures Run(t, events).now.pc == t.now.pc
    decreases |events|
  {
    if events != [] {
      ClientsRun(Extend(t, events[0]), events[1..]);
    }
  }

  lemma {:induction false} RunAppend(t: Trace, a: seq<Event>, b: seq<Event>)
    ensures Run(t, a + b) == Run(Run(t, a), b)
    decreases |a|
  {
    if a == [] {
      assert a + b == b;
    } else {
      assert (a + b)[0] == a[0] && (a + b)[1..] == a[1..] + b;
      RunAppend(Extend(t, a[0]), a[1..], b);
    }
  }

  lemma {:induction false} ReturnsAppend(t: Trace, a: seq<Event>, b: seq<Event>)
    ensures Returns(t, a + b) == Returns(t, a) + Returns(Run(t, a), b)
    decreases |a|
  {
    if a == [] {
      assert a + b == b;
    } else {
      assert (a + b)[0] == a[0] && (a + b)[1..] == a[1..] + b;
      ReturnsAppend(Extend(t, a[0]), a[1..], b);
    }
  }

  // ----- The guarantees

  /** Commands are taken exactly once each, in the order in which they were queued. */
  lemma TakenInOrderOnce(events: seq<Event>)
    ensures var t := Run(Start(), events); t.past.pushed == t.past.taken + t.now.queue
  {
    RunKeepsGood(Start(), events);
  }

  /** The wait in pop never blocks: the CPU thread only takes a command where it has seen one. */
  lemma PopNeverWaits(events: seq<Event>)
    ensures var t := Run(Start(), events); t.now.pc.Popping? ==> CpuStep(t.now).pc.Dispatching?
  {
    RunKeepsGood(Start(), events);
  }

  lemma {:induction false} StepsAndUnattached(exits: seq<Return>)
    ensures Count(exits, LeftStepping) == Count(exits, LeftByCommand) + Count(exits, LeftUnattached)
    ensures (forall i :: 0 <= i < |exits| ==> !exits[i].cause.NotAttached?) ==> Count(exits, LeftUnattached) == 0
  {
    if exits != [] {
      StepsAndUnattached(exits[..|exits| - 1]);
    }
  }

  /** The returns that leave the state stepping are as many as the step commands acted upon, and the returns that found
      nobody attached while it was stepping; without a detach there are none of those. */
  lemma OneReturnPerStep(events: seq<Event>)
    ensures
      var t := Run(Start(), events);
      && Count(t.past.exits, LeftStepping) == Count(Handled(t), IsStep) + Count(t.past.exits, LeftUnattached)
      && (Detach !in events ==> Count(t.past.exits, LeftStepping) == Count(Handled(t), IsStep))
  {
    var t := Run(Start(), events);
    RunKeepsGood(Start(), events);
    StepsAndUnattached(t.past.exits);
    if Detach !in events {
      DetachedOnlyByDetach(Start(), events);
    }
  }

  /** int1 returns without a command only while the last cont or step it took was a cont. */
  lemma FreeRunOnlyAfterCont(events: seq<Event>, i: nat)
    ensures
      var h := Run(Start(), events).past;
      i < |h.exits| && h.exits[i].cause.FreeRun? ==>
        h.exits[i].consumed <= |h.taken| && ContLast(h.taken[..h.exits[i].consumed])
  {
    RunKeepsGood(Start(), events);
  }

  /** While nobody detaches, the state is stopped only while the CPU thread is inside int1. */
  lemma StoppedOnlyInsideInt1(events: seq<Event>)
    requires Detach !in events
    ensures var s := Run(Start(), events).now; s.debuggee.Stopped? ==> !s.pc.Outside?
  {
    RunKeepsGood(Start(), events);
    DetachedOnlyByDetach(Start(), events);
  }

  lemma {:induction false} DetachedOnlyByDetach(t: Trace, events: seq<Event>)
    requires Detach !in events
    ensures Run(t, events).past.detached == t.past.detached
    decreases |events|
  {
    if events != [] {
      DetachedOnlyByDetach(Extend(t, events[0]), events[1..]);
    }
  }

  /** With detaches, stopped is seen outside exactly when the last return found nobody attached and left it so. */
  lemma StoppedOutsideExactly(events: seq<Event>)
    ensures
      var t := Run(Start(), events);
      var exits := t.past.exits;
      t.now.pc.Outside? ==>
        (t.now.debuggee.Stopped? <==>
          exits != [] && exits[|exits| - 1].cause.NotAttached? && exits[|exits| - 1].left.Stopped?)
  {
    var t := Run(Start(), events);
    RunKeepsGood(Start(), events);
    if t.past.exits != [] {
      assert Accounted(t.past.exits[|t.past.exits| - 1], t.past.taken);
    }
  }

  /** The CPU thread's sections among the events, and the commands queued by them. */
  function Sectioned(events: seq<Event>): nat {
    if events == [] then 0 else (if events[0].Cpu? then 1 else 0) + Sectioned(events[1..])
  }

  function PushedBy(events: seq<Event>): seq<Command> {
    if events == [] then [] else PushedByOne(events[0]) + PushedBy(events[1..])
  }

  function PushedByOne(e: Event): seq<Command> { if e.Push? then [e.cmd] else [] }

  /** Whether the commands that the CPU thread still acts upon while nobody is attached leave the program stopped. */
  predicate WillStayStopped(s: State) {
    match s.pc
    case Outside => s.debuggee.Stopped?
    case LoopTop => s.debuggee.Stopped?
    case Testing => if s.queue == [] then !s.debuggee.Running? else s.debuggee.Stopped? && !Resumes(s.queue[0])
    case Idle => !s.debuggee.Running?
    case Popping => s.queue != [] && s.debuggee.Stopped? && !Resumes(s.queue[0])
    case Dispatching(c) => s.debuggee.Stopped? && !Resumes(c)
  }

  /** Nobody is attached, and the CPU thread has seen all of the queue that it will look at. */
  predicate Settled(s: State) {
    !s.attached && !s.pc.Testing? && (s.pc.Popping? ==> s.queue != [])
  }

  /** How many more sections it needs to leave. */
  function Remaining(s: State): nat {
    match s.pc
    case Outside => 0
    case LoopTop => 1
    case Idle => 2
    case Dispatching(_) => 2
    case Popping => 3
    case Testing => 4
  }

  lemma SettledStaysSo(t: Trace, e: Event)
    requires Settled(t.now) && !e.Attach?
    ensures
      var u := Extend(t, e).now;
      && Settled(u) && WillStayStopped(u) == WillStayStopped(t.now)
      && Remaining(u) <= (if e.Cpu? && Remaining(t.now) > 0 then Remaining(t.now) - 1 else Remaining(t.now))
  {
  }

  lemma {:induction false} SettledLeaves(t: Trace, events: seq<Event>)
    requires Settled(t.now) && Attach !in events && Sectioned(events) >= Remaining(t.now)
    ensures
      var end := Run(t, events).now;
      end.pc.Outside? && (end.debuggee.Stopped? <==> WillStayStopped(t.now))
    decreases |events|
  {
    if events != [] {
      hide Settled, WillStayStopped, Remaining, Extend;
      SettledStaysSo(t, events[0]);
      SettledLeaves(Extend(t, events[0]), events[1..]);
    }
  }

  lemma FirstSectionSettles(t: Trace)
    requires !t.now.attached && (t.now.pc.Popping? ==> t.now.queue != [])
    ensures
      var u := Extend(t, Cpu).now;
      Settled(u) && Remaining(u) <= 3 && WillStayStopped(u) == WillStayStopped(t.now)
  {
  }

  /** At any point of any run where nobody is attached, after a detach above all, and whatever other threads queue from
      then on: the CPU thread is out of int1 by the fourth of its sections, and from there on the program is stopped
      exactly when the state before the first of them says so. */
  lemma DetachLeavesStoppedExactly(before: seq<Event>, events: seq<Event>)
    requires !Run(Start(), before).now.attached && Attach !in events && Sectioned(events) >= 3
    ensures
      var end := Run(Start(), before + ([Cpu] + events)).now;
      end.pc.Outside? && (end.debuggee.Stopped? <==> WillStayStopped(Run(Start(), before).now))
  {
    hide WillStayStopped, Settled, Remaining, Extend;
    var t := Run(Start(), before);
    RunKeepsGood(Start(), before);
    FirstSectionSettles(t);
    RunAppend(Start(), before, [Cpu] + events);
    assert ([Cpu] + events)[1..] == events;
    SettledLeaves(Extend(t, Cpu), events);
  }

  /** A detach while the program is stopped lets int1 return with the state still stopped. */
  lemma DetachLeavesStopped()
    ensures exists events :: var s := Run(Start(), events).now; s.debuggee.Stopped? && s.pc.Outside?
  {
    var events := [Attach, Cpu, Cpu, Cpu, Cpu, Detach, Cpu];
    var t1 := Extend(Start(), Attach);
    var t2 := Extend(t1, Cpu);
    var t3 := Extend(t2, Cpu);
    var t4 := Extend(t3, Cpu);
    var t5 := Extend(t4, Cpu);
    var t6 := Extend(t5, Detach);
    var t7 := Extend(t6, Cpu);
    assert t7.now.debuggee.Stopped? && t7.now.pc.Outside?;
    assert events[1..] == [Cpu, Cpu, Cpu, Cpu, Detach, Cpu] && events[1..][1..] == [Cpu, Cpu, Cpu, Detach, Cpu];
    assert [Cpu, Cpu, Cpu, Detach, Cpu][1..] == [Cpu, Cpu, Detach, Cpu];
    assert [Cpu, Cpu, Detach, Cpu][1..] == [Cpu, Detach, Cpu];
    assert [Cpu, Detach, Cpu][1..] == [Detach, Cpu] && [Detach, Cpu][1..] == [Cpu] && [Cpu][1..] == [];
    calc {
      Run(Start(), events);
      Run(t2, [Cpu, Cpu, Cpu, Detach, Cpu]);
      Run(t4, [Cpu, Detach, Cpu]);
      Run(t6, [Cpu]);
      Run(t7, []);
    }
  }

  /** Lock step: if no cont was ever queued and nobody detached, int1 returns exactly once per step command taken. */
  lemma LockStepWithoutCont(events: seq<Event>)
    requires Detach !in events && Push(Cont) !in events
    ensures Returns(Start(), events) == Count(Handled(Run(Start(), events)), IsStep)
  {
    var t := Run(Start(), events);
    ExitsAreReturns(Start(), events);
    RunKeepsGood(Start(), events);
    DetachedOnlyByDetach(Start(), events);
    PushedOnlyByPush(Start(), events);
    forall i | 0 <= i < |t.past.exits| ensures LeftByCommand(t.past.exits[i]) {
      var r := t.past.exits[i];
      assert Accounted(r, t.past.taken);
      if r.cause.FreeRun? {
        ContLastHasCont(t.past.taken[..r.consumed]);
        assert false;
      } else {
        assert r.cause.cmd in t.past.taken && r.cause.cmd in t.past.pushed;
      }
    }
    CountAll(t.past.exits, LeftByCommand);
  }

  lemma {:induction false} PushedOnlyByPush(t: Trace, events: seq<Event>)
    requires Push(Cont) !in events && Cont !in t.past.pushed
    ensures Cont !in Run(t, events).past.pushed
    decreases |events|
  {
    if events != [] {
      PushedOnlyByPush(Extend(t, events[0]), events[1..]);
    }
  }

  lemma {:induction false} ContLastHasCont(cmds: seq<Command>)
    requires ContLast(cmds)
    ensures Cont in cmds
  {
    if !cmds[|cmds| - 1].Cont? {
      ContLastHasCont(cmds[..|cmds| - 1]);
    }
  }

  lemma {:induction false} CountAll<T>(xs: seq<T>, p: T -> bool)
    requires forall i :: 0 <= i < |xs| ==> p(xs[i])
    ensures Count(xs, p) == |xs|
  {
    if xs != [] {
      CountAll(xs[..|xs| - 1], p);
    }
  }

  // ----- Progress

  /** The next section of the CPU thread leaves int1, whatever is queued. */
  predicate Leaving(s: State) {
    (s.pc.Idle? && s.debuggee.Running?) || (s.pc.Dispatching? && Resumes(s.pc.cmd))
  }

  /** The CPU thread is inside int1, about to leave or with the first cont or step in the queue behind k others. */
  predicate Pending(s: State, k: nat) {
    && s.attached && !s.pc.Outside?
    && (Leaving(s) || (k < |s.queue| && Resumes(s.queue[k]) && forall i :: 0 <= i < k ==> !Resumes(s.queue[i])))
  }

  /** How many more sections the CPU thread needs to leave. */
  function Due(s: State, k: nat): (n: nat)
    ensures n <= 4 * k + 5
  {
    if Leaving(s) then 1
    else match s.pc
      case Outside => 0
      case LoopTop => 4 * k + 4
      case Testing => 4 * k + 3
      case Popping => 4 * k + 2
      case _ => 4 * k + 5
  }

  function ResumedBy(c: Command): Debuggee { if c.Cont? then Running else Stepping }

  /** What it leaves: the state set by the command that makes it leave, or running, and the queue behind it. */
  function Leaves(s: State, k: nat): (Debuggee, seq<Command>)
    requires Pending(s, k)
  {
    if s.pc.Idle? && s.debuggee.Running? then (Running, s.queue)
    else if s.pc.Dispatching? && Resumes(s.pc.cmd) then (ResumedBy(s.pc.cmd), s.queue)
    else (ResumedBy(s.queue[k]), s.queue[k + 1..])
  }

  /** The queue only grows behind what is pending. */
  lemma ClientsDoNotDelay(s: State, k: nat, e: Event)
    requires Pending(s, k) && !e.Detach? && !e.Cpu?
    ensures
      var u := ClientStep(s, e);
      && Pending(u, k) && Due(u, k) == Due(s, k) && Leaves(u, k).0 == Leaves(s, k).0
      && Leaves(u, k).1 == Leaves(s, k).1 + PushedByOne(e)
  {
  }

  /** Each section of the CPU thread is progress. */
  lemma SectionIsProgress(s: State, k: nat) returns (k': nat)
    requires Pending(s, k) && Due(s, k) > 1
    ensures
      var u := CpuStep(s);
      Pending(u, k') && Due(u, k') == Due(s, k) - 1 && Leaves(u, k') == Leaves(s, k)
  {
    k' := if s.pc.Popping? && k > 0 then k - 1 else k;
    if s.pc.Popping? && k > 0 {
      assert s.queue[1..][k - 1] == s.queue[k] && s.queue[1..][k..] == s.queue[k + 1..];
    }
  }

  lemma Regroup(a: seq<Command>, b: seq<Command>, c: seq<Command>)
    ensures (a + b) + c == a + (b + c)
  {
  }

  lemma {:induction false} StaysInside(t: Trace, k: nat, events: seq<Event>) returns (k': nat)
    requires Pending(t.now, k) && Detach !in events && Sectioned(events) < Due(t.now, k)
    ensures
      var u := Run(t, events).now;
      && Pending(u, k') && Due(u, k') == Due(t.now, k) - Sectioned(events) && Leaves(u, k').0 == Leaves(t.now, k).0
      && Leaves(u, k').1 == Leaves(t.now, k).1 + PushedBy(events)
    decreases |events|
  {
    hide Pending, Due, Leaves, CpuStep, ClientStep;
    k' := k;
    if events != [] {
      var next := k;
      if events[0].Cpu? {
        next := SectionIsProgress(t.now, k);
      } else {
        ClientsDoNotDelay(t.now, k, events[0]);
      }
      k' := StaysInside(Extend(t, events[0]), next, events[1..]);
      Regroup(Leaves(t.now, k).1, PushedByOne(events[0]), PushedBy(events[1..]));
    }
  }

  /** Whatever other threads queue meanwhile, and if nobody detaches: the CPU thread leaves int1 with exactly the
      section that is due, the 4k + 5th at the latest, and as the first cont or step tells. */
  lemma CpuThreadLeavesInt1(t: Trace, k: nat, events: seq<Event>)
    requires Pending(t.now, k) && Detach !in events && Sectioned(events) + 1 == Due(t.now, k)
    ensures !Run(t, events).now.pc.Outside?
    ensures
      var end := Run(t, events + [Cpu]).now;
      && end.pc.Outside? && end.debuggee == Leaves(t.now, k).0 && end.queue == Leaves(t.now, k).1 + PushedBy(events)
  {
    var _ := StaysInside(t, k, events);
    RunAppend(t, events, [Cpu]);
    var u := Run(t, events);
    assert Run(u, [Cpu]) == Run(Extend(u, Cpu), []) == Extend(u, Cpu);
  }

  /** A cont or step behind k other commands is acted upon by section 4k + 4 of a call of int1. */
  lemma QueuedCommandResumes(t: Trace, k: nat, events: seq<Event>)
    requires t.now.attached && t.now.pc.LoopTop? && k < |t.now.queue| && Resumes(t.now.queue[k])
    requires forall i :: 0 <= i < k ==> !Resumes(t.now.queue[i])
    requires Detach !in events && Sectioned(events) == 4 * k + 3
    ensures
      var (end, q) := (Run(t, events + [Cpu]).now, t.now.queue);
      && end.pc.Outside? && end.queue == q[k + 1..] + PushedBy(events)
      && end.debuggee == (if q[k].Cont? then Running else Stepping)
  {
    CpuThreadLeavesInt1(t, k, events);
  }

  /** Enough sections for a running program to leave by itself: four for each command in its way. */
  function Enough(s: State): nat {
    if Leaving(s) then 1
    else match s.pc
      case Outside => 0
      case LoopTop => 4 * |s.queue| + 3
      case Testing => 4 * |s.queue| + 2
      case Popping => 4 * |s.queue| + 1
      case _ => 4 * |s.queue| + 4
  }

  lemma RunningEvent(t: Trace, e: Event)
    requires t.now.debuggee.Running? && !t.now.pc.Outside? && (t.now.pc.Popping? ==> t.now.queue != [])
    ensures
      var u := Extend(t, e).now;
      u.pc.Outside? ||
      (&& u.debuggee.Running? && (u.pc.Popping? ==> u.queue != [])
       && Enough(u) + (if e.Cpu? then 1 else 0) <= Enough(t.now) + 4 * |PushedByOne(e)|)
  {
  }

  /** A running program leaves int1 without any cont or step, whatever other threads queue, attach or detach: within 4
      sections of the CPU thread, and 4 for each command in the queue or queued meanwhile. */
  lemma {:induction false} RunningProgramLeaves(t: Trace, events: seq<Event>) returns (n: nat)
    requires t.now.debuggee.Running? && !t.now.pc.Outside? && (t.now.pc.Popping? ==> t.now.queue != [])
    requires Sectioned(events) >= Enough(t.now) + 4 * |PushedBy(events)|
    ensures n <= |events| && Run(t, events[..n]).now.pc.Outside?
    decreases |events|
  {
    hide Extend, Enough;
    SomethingIsDue(t.now);
    var t1, rest := Extend(t, events[0]), events[1..];
    RunningEvent(t, events[0]);
    if t1.now.pc.Outside? {
      n := 1;
      assert events[..1][1..] == [];
    } else {
      var m := RunningProgramLeaves(t1, rest);
      n := m + 1;
      assert events[..n][1..] == rest[..m];
    }
  }

  lemma SomethingIsDue(s: State)
    requires !s.pc.Outside?
    ensures 0 < Enough(s) <= 4 * |s.queue| + 4
  {
  }

  /** A program that is not running stays inside until a cont or step is queued, or somebody detaches. */
  lemma {:induction false} WaitsForResume(t: Trace, events: seq<Event>)
    requires t.now.attached && !t.now.pc.Outside? && !t.now.debuggee.Running? && !Leaving(t.now)
    requires forall c :: c in t.now.queue ==> !Resumes(c)
    requires Detach !in events && forall c :: Push(c) in events ==> !Resumes(c)
    ensures !Run(t, events).now.pc.Outside?
    decreases |events|
  {
    if events != [] {
      assert events[0] in events;
      var u := Extend(t, events[0]);
      assert forall c :: c in u.now.queue ==> c in t.now.queue || events[0] == Push(c);
      WaitsForResume(u, events[1..]);
    }
  }
}
