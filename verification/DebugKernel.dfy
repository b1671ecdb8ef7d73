/**
  The kernel's debugging entry points on process contexts that are updated in place.
 */
module DebugKernelObject {
  import opened Common
  import opened BreakpointModel
  import opened DebugSession
  import opened BreakpointList

  class UserMemory {
    var words: Memory
  }

  class ExecContext {
    const pid: nat
    var ppid: nat
    var state: ProcState
    var regs: Regs
    var dbg: DebugInfo?
    const memory: UserMemory

    ghost function Machine(): Cpu
      reads this, memory
    {
      Cpu(regs, memory.words)
    }

    constructor (pid: nat, ppid: nat, regs: Regs, memory: UserMemory)
      ensures this.pid == pid && this.ppid == ppid && this.regs == regs && this.memory == memory
      ensures state == READY && dbg == null
    {
      this.pid, this.ppid, this.regs, this.memory := pid, ppid, regs, memory;
      state, dbg := READY, null;
    }
  }

  /** The process table; the context of process `p` is entry `p`. */
  class DebugKernel {
    const contexts: array<ExecContext>

    ghost predicate Valid()
      reads this, contexts
    {
      && contexts.Length == MAX_PROCESSES
      && (forall i, j :: 0 <= i < j < MAX_PROCESSES ==> contexts[i] != contexts[j])
    }

    constructor (contexts: array<ExecContext>)
      requires contexts.Length == MAX_PROCESSES
      requires forall i, j :: 0 <= i < j < MAX_PROCESSES ==> contexts[i] != contexts[j]
      ensures Valid() && this.contexts == contexts
    {
      this.contexts := contexts;
    }

    function Parent(ctx: ExecContext): ExecContext
      reads this, contexts, ctx
      requires Valid() && ctx.ppid < MAX_PROCESSES
    {
      contexts[ctx.ppid]
    }

    /** Debugger data without breakpoints for the caller, if there is memory for it. */
    method BecomeDebugger(ctx: ExecContext, memory: bool, code: CodeMemory) returns (result: int)
      modifies ctx`dbg
      ensures result == if memory then 0 else -1
      ensures ctx.dbg == null <==> !memory
      ensures ctx.dbg != null ==>
                && ctx.dbg.Valid() && fresh(ctx.dbg) && fresh(ctx.dbg.backtraceInfo) && ctx.dbg.code == code
                && ctx.dbg.State() == Table([], 0, code.bytes)
    {
      if !memory {
        ctx.dbg := null;
        return -1;
      }
      ctx.dbg := new DebugInfo(code);
      return 0;
    }

    /** A forked child has no debugger data of its own and sleeps until it is waited for. */
    method DebuggerOnFork(child: ExecContext)
      modifies child`dbg, child`state
      ensures child.dbg == null && child.state == WAITING
    {
      child.dbg := null;
      child.state := WAITING;
    }

    /** The debuggee hit an INT3. */
    method Int3Handler(ctx: ExecContext) returns (result: int)
      requires Valid()
      requires ctx.ppid < MAX_PROCESSES && Parent(ctx) != ctx
      requires Parent(ctx).dbg != null ==>
                 && Parent(ctx).dbg.backtraceInfo.Length == MAX_BACKTRACE
                 && Readable(Emulate(ctx.Machine()).mem, Emulate(ctx.Machine()).regs.rsp, MAX_BACKTRACE - 1)
      modifies ctx`regs, ctx`state, ctx.memory, Parent(ctx)`state, Parent(ctx)`regs
      modifies if Parent(ctx).dbg != null then {Parent(ctx).dbg.backtraceInfo} else {}
      ensures result == if Parent(ctx).dbg == null then -1 else 0
      ensures Parent(ctx).dbg == null ==>
                ctx.Machine() == old(ctx.Machine()) && ctx.state == old(ctx.state)
                && Parent(ctx).state == old(Parent(ctx).state)
                && Parent(ctx).regs == old(Parent(ctx).regs)
      ensures Parent(ctx).dbg != null ==>
                && ctx.Machine() == Emulate(old(ctx.Machine()))
                && ctx.state == WAITING && Parent(ctx).state == READY
                && Parent(ctx).regs == old(Parent(ctx).regs).(rax := Sub(old(ctx.regs.rip), 1))
                && Terminated(Parent(ctx).dbg.backtraceInfo[..], Recorded(ctx.Machine()))
    {
      var parent := contexts[ctx.ppid];
      if parent.dbg == null {
        return -1;
      }
      ctx.memory.words := ctx.memory.words[Sub(ctx.regs.rsp, 8) := ctx.regs.rbp];
      ctx.regs := ctx.regs.(rsp := Sub(ctx.regs.rsp, 8));
      ctx.state := WAITING;
      parent.state := READY;
      RecordFrames(parent.dbg.backtraceInfo, ctx.memory, Sub(ctx.regs.rip, 1), ctx.regs.rsp);
      parent.regs := parent.regs.(rax := Sub(ctx.regs.rip, 1));
      return 0;
    }

    /** The backtrace loop of the handler. */
    method RecordFrames(info: array<Word>, memory: UserMemory, rip: Word, rsp: Word)
      requires info.Length == MAX_BACKTRACE
      requires Readable(memory.words, rsp, MAX_BACKTRACE - 1)
      modifies info
      ensures Terminated(info[..], [rip] + Frames(memory.words, rsp, MAX_BACKTRACE - 1))
    {
      hide Readable, Frames, Add;
      ghost var all := [rip] + Frames(memory.words, rsp, MAX_BACKTRACE - 1);
      FrameStep(memory.words, rsp, MAX_BACKTRACE - 1);
      info[0] := rip;
      var idx := 1;
      var fp := rsp;
      var addr := memory.words[Add(fp, 8)];
      while addr != END_ADDR && idx < MAX_BACKTRACE
        invariant 1 <= idx <= MAX_BACKTRACE
        invariant Readable(memory.words, fp, MAX_BACKTRACE - idx)
        invariant Add(fp, 8) in memory.words && addr == memory.words[Add(fp, 8)]
        invariant all == info[..idx] + Frames(memory.words, fp, MAX_BACKTRACE - idx)
        decreases MAX_BACKTRACE - idx
      {
        FrameStep(memory.words, fp, MAX_BACKTRACE - idx);
        info[idx] := addr;
        idx := idx + 1;
        fp := memory.words[fp];
        FrameStep(memory.words, fp, MAX_BACKTRACE - idx);
        addr := memory.words[Add(fp, 8)];
      }
      FrameStep(memory.words, fp, MAX_BACKTRACE - idx);
      assert all == info[..idx];
      if idx < MAX_BACKTRACE {
        info[idx] := END_ADDR;
      }
      assert info[..][..idx] == info[..idx];
    }

    /** The exit handler of debugger and debuggee. */
    method DebuggerOnExit(ctx: ExecContext)
      requires Valid() && ctx.ppid < MAX_PROCESSES && Parent(ctx) != ctx
      requires ctx.dbg != null ==> ctx.dbg.Valid()
      modifies ctx`dbg, Parent(ctx)`state, Parent(ctx)`regs
      modifies if ctx.dbg != null then {ctx.dbg} else {}
      ensures ctx.dbg == null
      ensures old(ctx.dbg) != null ==> old(ctx.dbg).live == {}
      ensures Parent(ctx).dbg != null ==>
                Parent(ctx).state == READY
                && Parent(ctx).regs == old(Parent(ctx).regs).(rax := CHILD_EXIT)
      ensures Parent(ctx).dbg == null ==>
                Parent(ctx).state == old(Parent(ctx).state)
                && Parent(ctx).regs == old(Parent(ctx).regs)
    {
      if ctx.dbg != null {
        ctx.dbg.FreeAll();
        ctx.dbg := null;
      }
      var parent := contexts[ctx.ppid];
      if parent.dbg != null {
        parent.state := READY;
        parent.regs := parent.regs.(rax := CHILD_EXIT);
      }
    }

    /** Process `c` is the first live one whose parent is `pid`. */
    ghost predicate FirstChild(pid: nat, c: nat)
      reads this, contexts, contexts[..]
      requires Valid()
    {
      && 1 <= c < MAX_PROCESSES && IsChild(pid, c)
      && forall k :: 1 <= k < c ==> !IsChild(pid, k)
    }

    ghost predicate IsChild(pid: nat, c: nat)
      reads this, contexts, contexts[..]
      requires Valid()
    {
      c < MAX_PROCESSES && contexts[c].state != UNUSED && contexts[c].ppid == pid
    }

    method FindChild(pid: nat) returns (child: ExecContext?, ghost c: nat)
      requires Valid()
      ensures child == null <==> forall k :: 1 <= k < MAX_PROCESSES ==> !IsChild(pid, k)
      ensures child != null ==> FirstChild(pid, c) && child == contexts[c]
    {
      child, c := null, 0;
      var ctr := 1;
      while ctr < MAX_PROCESSES
        invariant 1 <= ctr <= MAX_PROCESSES
        invariant forall k :: 1 <= k < ctr ==> !IsChild(pid, k)
      {
        if contexts[ctr].state != UNUSED {
          if contexts[ctr].ppid == pid {
            assert IsChild(pid, ctr);
            return contexts[ctr], ctr;
          }
        }
        ctr := ctr + 1;
      }
    }

    /** The debugger sleeps and its first child runs; without a child nothing changes. */
    method WaitAndContinue(ctx: ExecContext) returns (result: int, child: ExecContext?)
      requires Valid()
      modifies ctx`state, ctx`regs, (set c | c in contexts[..])`state
      ensures result == -1
      ensures child == null <==> ctx.dbg == null || forall k :: 1 <= k < MAX_PROCESSES ==> !old(IsChild(ctx.pid, k))
      ensures child == null ==> ctx.regs == old(ctx.regs)
                                && forall c :: c in contexts[..] ==> c.state == old(c.state)
      ensures child != null ==>
                && (exists c: nat :: old(FirstChild(ctx.pid, c)) && child == contexts[c])
                && ctx.regs == old(ctx.regs).(rax := MINUS_ONE)
                && child.state == READY && (ctx != child ==> ctx.state == WAITING)
                && forall c :: c in contexts[..] && c != ctx && c != child ==> c.state == old(c.state)
    {
      if ctx.dbg == null {
        return -1, null;
      }
      ghost var c: nat;
      child, c := FindChild(ctx.pid);
      assert forall k :: 1 <= k < MAX_PROCESSES ==> IsChild(ctx.pid, k) == old(IsChild(ctx.pid, k));
      if child == null {
        return -1, null;
      }
      assert child == contexts[..][c];
      assert old(FirstChild(ctx.pid, c));
      ctx.state := WAITING;
      child.state := READY;
      ctx.regs := ctx.regs.(rax := MINUS_ONE);
      return -1, child;
    }

    /** The registers of the first child, moved back to where the breakpoint was hit. */
    method InfoRegisters(ctx: ExecContext) returns (result: int, shown: Regs, child: ExecContext?)
      requires Valid()
      ensures result == if child == null then -1 else 0
      ensures child == null <==> forall k :: 1 <= k < MAX_PROCESSES ==> !IsChild(ctx.pid, k)
      ensures child != null ==>
                (exists c: nat :: FirstChild(ctx.pid, c) && child == contexts[c]) && shown == ShownRegs(child.regs)
    {
      ghost var c: nat;
      child, c := FindChild(ctx.pid);
      if child == null {
        return -1, ctx.regs, null;
      }
      return 0, child.regs.(rip := Sub(child.regs.rip, 1), rsp := Add(child.regs.rsp, 8)), child;
    }

    /** Copies the recorded addresses up to the end mark into the caller's buffer. */
    method Backtrace(ctx: ExecContext, bt: array<Word>) returns (count: int)
      requires ctx.dbg != null ==> ctx.dbg.backtraceInfo.Length == MAX_BACKTRACE && ctx.dbg.backtraceInfo != bt
      requires bt.Length >= MAX_BACKTRACE
      modifies bt
      ensures ctx.dbg == null ==> count == -1 && bt[..] == old(bt[..])
      ensures ctx.dbg != null ==>
                var r := UpToEnd(ctx.dbg.backtraceInfo[..]);
                count == |r| && bt[..count] == r && bt[count..] == old(bt[count..])
    {
      if ctx.dbg == null {
        return -1;
      }
      var info := ctx.dbg.backtraceInfo;
      count := 0;
      while count < MAX_BACKTRACE && info[count] != END_ADDR
        invariant 0 <= count <= MAX_BACKTRACE
        invariant bt[..count] == info[..count] && END_ADDR !in info[..count]
        invariant bt[count..] == old(bt[count..])
        decreases MAX_BACKTRACE - count
      {
        ghost var tail := bt[count + 1..];
        bt[count] := info[count];
        count := count + 1;
        assert bt[count..] == tail;
      }
      assert info[..][..count] == info[..count];
      UpToEndIs(info[..], info[..count]);
    }
  }
}
