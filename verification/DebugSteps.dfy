/**
  The kernel's entry points are the steps of a debugging session: what they do to the
  contexts of a debugger and its debuggee is what `DebugSession` says about the pair.
 */
module DebugSteps {
  import opened Common
  import opened BreakpointModel
  import opened DebugSession
  import opened BreakpointList
  import opened DebugKernelObject

  /** The session that a debugger's and a debuggee's context stand for. */
  ghost function SessionOf(debugger: ExecContext, child: ExecContext): Session
    requires debugger.dbg != null
    reads debugger, debugger.dbg, debugger.dbg.code, child, child.memory
  {
    Session(debugger.dbg.State(), child.Machine(), child.state, debugger.state, debugger.regs.rax)
  }

  /** `child` is a process of the kernel and `debugger` its parent, with its own debugger data. */
  ghost predicate Paired(k: DebugKernel, debugger: ExecContext, child: ExecContext)
    reads k, k.contexts, debugger, debugger.dbg, child
    reads if debugger.dbg == null then {} else set n | n in debugger.dbg.nodes
  {
    && k.Valid()
    && child.ppid < MAX_PROCESSES && k.contexts[child.ppid] == debugger && debugger != child
    && debugger.dbg != null && debugger.dbg.Valid() && child.dbg == null
  }

  /** While it lives, `child` is the process that the debugger's search for a child finds. */
  ghost predicate OnlyChild(k: DebugKernel, debugger: ExecContext, child: ExecContext)
    requires k.Valid()
    reads k, k.contexts, k.contexts[..], debugger, child
  {
    && child.ppid == debugger.pid != debugger.ppid
    && (exists c :: 1 <= c < MAX_PROCESSES && k.contexts[c] == child)
    && forall i :: 1 <= i < MAX_PROCESSES && k.contexts[i] != child ==>
         k.contexts[i].state == UNUSED || k.contexts[i].ppid != debugger.pid
  }

  /** become_debugger and the fork handler start a session: no breakpoints, the code as it
      is, and the debugger running. */
  method Start(k: DebugKernel, debugger: ExecContext, child: ExecContext, code: CodeMemory)
    requires k.Valid() && child.ppid < MAX_PROCESSES && k.contexts[child.ppid] == debugger && debugger != child
    requires debugger.state == READY
    modifies debugger`dbg, child`dbg, child`state
    ensures Paired(k, debugger, child) && debugger.dbg.code == code && debugger.dbg.breakptNum == 0
    ensures Agree(SessionOf(debugger, child).table, code.bytes) && OneRuns(SessionOf(debugger, child))
  {
    hide DebugInfo.Valid, Agree;
    var result := k.BecomeDebugger(debugger, true, code);
    k.DebuggerOnFork(child);
    StartOfSession(code.bytes, child.Machine(), debugger.regs.rax);
  }

  /** The processor executes the INT3 under rip and enters the handler. */
  method Trap(k: DebugKernel, debugger: ExecContext, child: ExecContext, ghost exec: Cpu -> Cpu) returns (result: int)
    requires Paired(k, debugger, child) && Hits(SessionOf(debugger, child))
    requires Walkable(SessionOf(debugger, child), Instruction)
    modifies child`regs, child`state, child.memory, debugger`state, debugger`regs, debugger.dbg.backtraceInfo
    ensures result == 0 && Paired(k, debugger, child)
    ensures SessionOf(debugger, child) == Happen(old(SessionOf(debugger, child)), Instruction, exec)
    ensures Terminated(debugger.dbg.backtraceInfo[..], Recorded(child.Machine()))
  {
    assert debugger.dbg.backtraceInfo.Length == MAX_BACKTRACE;
    hide DebugInfo.Valid, Readable, Recorded, Terminated, Sub, NativeStep;
    child.regs := child.regs.(rip := Add(child.regs.rip, 1));
    result := k.Int3Handler(child);
  }

  lemma ChildIs(k: DebugKernel, debugger: ExecContext, child: ExecContext)
    requires k.Valid() && OnlyChild(k, debugger, child)
    ensures forall c :: 1 <= c < MAX_PROCESSES ==>
              (k.IsChild(debugger.pid, c) <==> k.contexts[c] == child && child.state != UNUSED)
    ensures child.state != UNUSED ==> exists c :: 1 <= c < MAX_PROCESSES && k.IsChild(debugger.pid, c)
  {
    var c :| 1 <= c < MAX_PROCESSES && k.contexts[c] == child;
    assert child.state != UNUSED ==> k.IsChild(debugger.pid, c);
  }

  /** The debugger's wait.  Without a child the call returns at once, with its answer in rax. */
  method Continue(k: DebugKernel, debugger: ExecContext, child: ExecContext, ghost exec: Cpu -> Cpu)
    requires Paired(k, debugger, child) && OnlyChild(k, debugger, child)
    modifies debugger`state, debugger`regs, (set x | x in k.contexts[..])`state
    ensures Paired(k, debugger, child) && OnlyChild(k, debugger, child)
    ensures SessionOf(debugger, child) == Happen(old(SessionOf(debugger, child)), Wait, exec)
  {
    hide DebugInfo.Valid, NativeStep, Emulate;
    ChildIs(k, debugger, child);
    var result, woken := k.WaitAndContinue(debugger);
    assert woken == if old(child.state) == UNUSED then null else child by {
      assert forall c :: 1 <= c < MAX_PROCESSES ==>
               (old(k.IsChild(debugger.pid, c)) <==> k.contexts[c] == child && old(child.state) != UNUSED);
    }
    assert forall i :: 0 <= i < MAX_PROCESSES ==> k.contexts[i] in k.contexts[..];
    if woken == null {
      debugger.regs := debugger.regs.(rax := MINUS_ONE);
    }
  }

  /** The debuggee exits: exit handler, then its slot is unused. */
  method ExitChild(k: DebugKernel, debugger: ExecContext, child: ExecContext, ghost exec: Cpu -> Cpu)
    requires Paired(k, debugger, child)
    modifies child`dbg, child`state, debugger`state, debugger`regs
    ensures Paired(k, debugger, child)
    ensures SessionOf(debugger, child) == Happen(old(SessionOf(debugger, child)), ChildExits, exec)
  {
    k.DebuggerOnExit(child);
    child.state := UNUSED;
  }

  /** One of the four breakpoint commands. */
  method Execute(k: DebugKernel, debugger: ExecContext, child: ExecContext, c: Command, ghost exec: Cpu -> Cpu)
      returns (result: int)
    requires Paired(k, debugger, child) && debugger.dbg.breakptNum < 0x7fff_ffff
    modifies debugger.dbg, debugger.dbg.nodes, debugger.dbg.code
    ensures Paired(k, debugger, child)
    ensures SessionOf(debugger, child) == Happen(old(SessionOf(debugger, child)), Debugger(c), exec)
    ensures forall n :: n in debugger.dbg.nodes ==> n in old(debugger.dbg.nodes) || fresh(n)
  {
    hide DebugInfo.Valid, Obey;
    result := debugger.dbg.Execute(c);
  }

  /** The debuggee's next instruction: it traps, or the processor just executes it. */
  method RunInstruction(k: DebugKernel, debugger: ExecContext, child: ExecContext, exec: Cpu -> Cpu)
    requires Paired(k, debugger, child) && Walkable(SessionOf(debugger, child), Instruction)
    modifies child`regs, child`state, child.memory, debugger`state, debugger`regs, debugger.dbg.backtraceInfo
    ensures Paired(k, debugger, child)
    ensures SessionOf(debugger, child) == Happen(old(SessionOf(debugger, child)), Instruction, exec)
  {
    hide DebugInfo.Valid, Readable, Terminated, Recorded, Emulate, Int3, NativeStep;
    var code := debugger.dbg.code.bytes;
    if child.regs.rip in code && code[child.regs.rip] == INT3_OPCODE {
      var result := Trap(k, debugger, child, exec);
    } else {
      var c := NativeStep(code, exec, Cpu(child.regs, child.memory.words));
      child.regs, child.memory.words := c.regs, c.mem;
    }
  }

  /** Any event of a session, on the contexts. */
  method Step(k: DebugKernel, debugger: ExecContext, child: ExecContext, e: Event, exec: Cpu -> Cpu)
    requires Paired(k, debugger, child) && OnlyChild(k, debugger, child) && Walkable(SessionOf(debugger, child), e)
    modifies child`regs, child`state, child`dbg, child.memory, debugger`state, debugger`regs
    modifies debugger.dbg, (set n | n in debugger.dbg.nodes), debugger.dbg.code, debugger.dbg.backtraceInfo
    modifies (set x | x in k.contexts[..])`state
    ensures Paired(k, debugger, child) && OnlyChild(k, debugger, child)
    ensures SessionOf(debugger, child) == Happen(old(SessionOf(debugger, child)), e, exec)
    ensures forall n :: n in debugger.dbg.nodes ==> n in old(debugger.dbg.nodes) || fresh(n)
  {
    hide DebugInfo.Valid, Readable, Emulate, Int3, NativeStep, Hits, Obey;
    match e {
      case Instruction => RunInstruction(k, debugger, child, exec);
      case Debugger(c) => var result := Execute(k, debugger, child, c, exec);
      case Wait => Continue(k, debugger, child, exec);
      case ChildExits => ExitChild(k, debugger, child, exec);
    }
  }

  lemma RunFirst(s: Session, es: seq<Event>, exec: Cpu -> Cpu)
    requires Feasible(s, es, exec)
    ensures es == [] ==> RunSession(s, es, exec) == s
    ensures es != [] ==>
              var s' := Happen(s, es[0], exec);
              && Walkable(s, es[0]) && Feasible(s', es[1..], exec)
              && RunSession(s, es, exec) == RunSession(s', es[1..], exec)
  {
  }

  /** A whole session on the contexts, the linked list and the patched bytes: the debuggee's
      registers and memory end as those of the undebugged program after as many
      instructions, list and code agree, and exactly one of the two is runnable. */
  method RunAll(k: DebugKernel, debugger: ExecContext, child: ExecContext, es: seq<Event>, exec: Cpu -> Cpu,
                ghost orig: Code)
    requires Paired(k, debugger, child) && OnlyChild(k, debugger, child)
    requires var s := SessionOf(debugger, child);
             && Agree(s.table, orig) && NoInt3(orig) && OneRuns(s)
             && Possible(s, es, exec, orig) && Feasible(s, es, exec)
    modifies child`regs, child`state, child`dbg, child.memory, debugger`state, debugger`regs
    modifies debugger.dbg, (set n | n in debugger.dbg.nodes), debugger.dbg.code, debugger.dbg.backtraceInfo
    modifies (set x | x in k.contexts[..])`state
    ensures Paired(k, debugger, child)
    ensures SessionOf(debugger, child) == RunSession(old(SessionOf(debugger, child)), es, exec)
    ensures child.Machine() == NativeRun(orig, exec, old(child.Machine()), Instructions(es))
    ensures Agree(debugger.dbg.State(), orig) && OneRuns(SessionOf(debugger, child))
  {
    hide DebugInfo.Valid, OnlyChild, Feasible, Walkable, Possible;
    hide RunSession, NativeRun, Instructions, Agree, NoInt3, Happen;
    ghost var s := SessionOf(debugger, child);
    Transparent(s, es, exec, orig);
    var i := 0;
    while i < |es|
      invariant 0 <= i <= |es|
      invariant Paired(k, debugger, child) && OnlyChild(k, debugger, child) && debugger.dbg == old(debugger.dbg)
      invariant Feasible(SessionOf(debugger, child), es[i..], exec)
      invariant RunSession(SessionOf(debugger, child), es[i..], exec) == RunSession(s, es, exec)
      invariant forall n :: n in debugger.dbg.nodes ==> n in old(debugger.dbg.nodes) || fresh(n)
    {
      RunFirst(SessionOf(debugger, child), es[i..], exec);
      assert es[i..][0] == es[i] && es[i..][1..] == es[i + 1..];
      Step(k, debugger, child, es[i], exec);
      i := i + 1;
    }
    RunFirst(SessionOf(debugger, child), es[i..], exec);
  }
}
