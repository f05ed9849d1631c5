/** Run control: client threads queue commands that the CPU thread takes out inside interrupt 1. */
module Debugger {
  import opened Machine

  datatype Command = Cont | Step | StepIn | StepOut | ListBreakpoints | ListWatchpoints | ShowRegisters | ShowMemory
  datatype Debuggee = Running | Stepping | Stopped

  /** Where the CPU thread stands: outside int1, or before one of the sections of its loop that run undisturbed. */
  datatype Pc =
    | Outside               // executing instructions
    | LoopTop               // about to load debugger_attached
    | Testing               // about to ask whether the queue is empty
    | Idle                  // saw an empty queue, about to lock the state
    | Popping               // saw commands, about to take one
    | Dispatching(cmd: Command)

  datatype State = State(queue: seq<Command>, debuggee: Debuggee, attached: bool, pc: Pc)

  /** Why int1 returned, the state it left, and how many commands had been taken by then. */
  datatype Cause = FreeRun | ByCommand(cmd: Command) | NotAttached
  datatype Return = Return(cause: Cause, left: Debuggee, consumed: nat)

  datatype Event = Push(cmd: Command) | Attach | Detach | Cpu

  predicate ByClients(events: seq<Event>) {
    forall i :: 0 <= i < |events| ==> !events[i].Cpu?
  }

  predicate AllByClients(arrivals: seq<seq<Event>>) {
    forall k :: 0 <= k < |arrivals| ==> ByClients(arrivals[k])
  }

  function ClientStep(s: State, e: Event): State
    requires !e.Cpu?
  {
    match e
    case Push(c) => s.(queue := s.queue + [c])
    case Attach => s.(attached := true)
    case Detach => s.(attached := false)
  }

  /** The next section of the CPU thread. Taking from an empty queue waits, which changes nothing. */
  function CpuStep(s: State): State {
    match s.pc
    case Outside => if s.attached then s.(pc := LoopTop) else s
    case LoopTop => s.(pc := if s.attached then Testing else Outside)
    case Testing => s.(pc := if s.queue == [] then Idle else Popping)
    case Idle => if s.debuggee.Running? then s.(pc := Outside) else s.(debuggee := Stopped, pc := LoopTop)
    case Popping => if s.queue == [] then s else s.(queue := s.queue[1..], pc := Dispatching(s.queue[0]))
    case Dispatching(Cont) => s.(debuggee := Running, pc := Outside)
    case Dispatching(Step) => s.(debuggee := Stepping, pc := Outside)
    case Dispatching(_) => s.(pc := LoopTop)
  }

  class BlockingQueue<T> {
    var items: seq<T>

    constructor ()
      ensures items == []
    {
      items := [];
    }

    method Push(data: T)
      modifies this
      ensures items == old(items) + [data]
    {
      items := items + [data];
    }

    /** The wait for a first item is over when this section runs. */
    method Pop() returns (val: T)
      requires items != []
      modifies this
      ensures [val] + items == old(items)
    {
      val := items[0];
      items := items[1..];
    }

    predicate Empty()
      reads this
    {
      items == []
    }
  }

  class DebuggerBackend {
    const cmds: BlockingQueue<Command>
    var state: Debuggee
    var attached: bool
    ghost var pc: Pc

    ghost function View(): State
      reads this, cmds
    {
      State(cmds.items, state, attached, pc)
    }

    constructor ()
      ensures fresh(cmds) && View() == Init()
      ensures cmds.items == [] && state == Stepping && !attached && pc == Outside
    {
      cmds := new BlockingQueue<Command>();
      state, attached, pc := Stepping, false, Outside;
    }

    /** What other threads do between two sections of the CPU thread. */
    method Clients(events: seq<Event>)
      requires ByClients(events)
      modifies this`attached, cmds
      ensures View() == ClientSteps(old(View()), events) && pc == old(pc)
      ensures old(cmds.items) <= cmds.items
    {
      var i := 0;
      while i < |events|
        invariant 0 <= i <= |events| && old(cmds.items) <= cmds.items
        invariant ClientSteps(View(), events[i..]) == ClientSteps(old(View()), events)
      {
        match events[i] {
          case Push(c) => cmds.Push(c);
          case Attach => attached := true;
          case Detach => attached := false;
        }
        i := i + 1;
      }
    }

    // The sections of the loop in int1, each after what other threads did just before it.

    method LoadAttached(events: seq<Event>) returns (yes: bool)
      requires pc == LoopTop && ByClients(events)
      modifies this, cmds
      ensures View() == CpuStep(ClientSteps(old(View()), events))
      ensures pc == if yes then Testing else Outside
    {
      Clients(events);
      yes, pc := attached, if attached then Testing else Outside;
    }

    method QueueIsEmpty(events: seq<Event>) returns (empty: bool)
      requires pc == Testing && ByClients(events)
      modifies this, cmds
      ensures View() == CpuStep(ClientSteps(old(View()), events))
      ensures if empty then pc == Idle else pc == Popping && cmds.items != []
    {
      Clients(events);
      empty := cmds.Empty();
      pc := if empty then Idle else Popping;
    }

    method StopUnlessRunning(events: seq<Event>) returns (running: bool)
      requires pc == Idle && ByClients(events)
      modifies this, cmds
      ensures View() == CpuStep(ClientSteps(old(View()), events))
      ensures pc == if running then Outside else LoopTop
    {
      Clients(events);
      running := state.Running?;
      if running {
        pc := Outside;
      } else {
        state, pc := Stopped, LoopTop;
      }
    }

    method TakeCommand(events: seq<Event>) returns (cmd: Command)
      requires pc == Popping && cmds.items != [] && ByClients(events)
      modifies this, cmds
      ensures View() == CpuStep(ClientSteps(old(View()), events))
      ensures pc == Dispatching(cmd)
    {
      Clients(events);
      cmd := cmds.Pop();
      pc := Dispatching(cmd);
    }

    method Dispatch(events: seq<Event>, cmd: Command) returns (resume: bool)
      requires pc == Dispatching(cmd) && ByClients(events)
      modifies this, cmds
      ensures View() == CpuStep(ClientSteps(old(View()), events))
      ensures pc == if resume then Outside else LoopTop
    {
      Clients(events);
      match cmd {
        case Cont => state, pc, resume := Running, Outside, true;
        case Step => state, pc, resume := Stepping, Outside, true;
        case _ => pc, resume := LoopTop, false;
      }
    }

    /** Interrupt 1, with arrivals[k] happening before its k-th section. It may still be inside after the last one. */
    method Int1(arrivals: seq<seq<Event>>) returns (returned: bool)
      requires pc == LoopTop && AllByClients(arrivals)
      modifies this, cmds
      ensures View() == Sections(old(View()), arrivals)
      ensures returned <==> pc == Outside
    {
      ghost var end := Sections(View(), arrivals);
      var k := 0;
      while k < |arrivals|
        invariant 0 <= k <= |arrivals| && pc == LoopTop
        invariant Sections(View(), arrivals[k..]) == end
        decreases |arrivals| - k
      {
        NextSection(View(), arrivals, k);
        var go := LoadAttached(arrivals[k]);
        if !go { return true; }
        if k + 1 == |arrivals| { return false; }

        NextSection(View(), arrivals, k + 1);
        var empty := QueueIsEmpty(arrivals[k + 1]);
        if k + 2 == |arrivals| { return false; }

        NextSection(View(), arrivals, k + 2);
        if empty {
          var running := StopUnlessRunning(arrivals[k + 2]);
          if running { return true; }
          k := k + 3;
          continue;
        }
        var cmd := TakeCommand(arrivals[k + 2]);
        if k + 3 == |arrivals| { return false; }

        NextSection(View(), arrivals, k + 3);
        var resume := Dispatch(arrivals[k + 3], cmd);
        if resume { return true; }
        k := k + 4;
      }
      return false;
    }
  }

  function Init(): State {
    State([], Stepping, false, Outside)
  }

  function ClientSteps(s: State, events: seq<Event>): State
    requires ByClients(events)
    decreases |events|
  {
    if events == [] then s else ClientSteps(ClientStep(s, events[0]), events[1..])
  }

  /** One int1 call, each of its sections preceded by what other threads do. */
  function Sections(s: State, arrivals: seq<seq<Event>>): State
    requires AllByClients(arrivals)
    decreases |arrivals|
  {
    if arrivals == [] || s.pc.Outside? then s
    else Sections(CpuStep(ClientSteps(s, arrivals[0])), arrivals[1..])
  }

  lemma NextSection(s: State, arrivals: seq<seq<Event>>, k: nat)
    requires AllByClients(arrivals)
    requires k < |arrivals| && !s.pc.Outside?
    ensures Sections(s, arrivals[k..]) == Sections(CpuStep(ClientSteps(s, arrivals[k])), arrivals[k + 1..])
  {
    assert arrivals[k..][1..] == arrivals[k + 1..];
  }
}
