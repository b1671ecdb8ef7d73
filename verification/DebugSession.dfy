/**
  A debugger and its one debuggee: what a hit does to the debuggee, who may run when,
  and why the debuggee cannot tell that it is being debugged.
 */
module DebugSession {
  import opened Common
  import opened BreakpointModel

  const CHILD_EXIT := 0
  const END_ADDR: Word := 0x1_0000_003B

  function Add(a: Word, n: nat): Word { (a + n) % WORDS }

  function Sub(a: Word, n: nat): Word { (a - n) % WORDS }

  /** The saved user registers; `others` are those no debugger code computes with. */
  datatype Regs = Regs(rip: Word, rsp: Word, rbp: Word, rax: Word, others: seq<Word>)

  type Memory = map<Word, Word>

  datatype Cpu = Cpu(regs: Regs, mem: Memory)

  /** The one-byte instruction 0x55. */
  function PushRbp(c: Cpu): Cpu {
    var sp := Sub(c.regs.rsp, 8);
    Cpu(c.regs.(rip := Add(c.regs.rip, 1), rsp := sp), c.mem[sp := c.regs.rbp])
  }

  /** The one-byte instruction 0xCC, as far as the saved user registers go. */
  function Int3(c: Cpu): Cpu {
    c.(regs := c.regs.(rip := Add(c.regs.rip, 1)))
  }

  /** What int3_handler does to the debuggee it was called for. */
  function Emulate(c: Cpu): Cpu {
    var sp := Sub(c.regs.rsp, 8);
    Cpu(c.regs.(rsp := sp), c.mem[sp := c.regs.rbp])
  }

  /** One instruction of the unpatched program.  `exec` is every instruction but
      `push rbp`; it does not read the bytes that breakpoints patch. */
  function NativeStep(orig: Code, exec: Cpu -> Cpu, c: Cpu): Cpu {
    if c.regs.rip in orig && orig[c.regs.rip] == PUSHRBP_OPCODE then PushRbp(c) else exec(c)
  }

  function NativeRun(orig: Code, exec: Cpu -> Cpu, c: Cpu, n: nat): Cpu
    decreases n
  {
    if n == 0 then c else NativeRun(orig, exec, NativeStep(orig, exec, c), n - 1)
  }

  // ---- Sessions ----

  datatype ProcState = UNUSED | READY | WAITING

  /** `rax` is what the debugger's last wait returned. */
  datatype Session = Session(table: Table, cpu: Cpu, child: ProcState, parent: ProcState, rax: Word)

  datatype Event =
    | Instruction
    | Debugger(c: Command)
    | Wait
    | ChildExits

  const MINUS_ONE: Word := 0xffff_ffff_ffff_ffff

  predicate Hits(s: Session) {
    s.cpu.regs.rip in s.table.code && s.table.code[s.cpu.regs.rip] == INT3_OPCODE
  }

  predicate CanHappen(s: Session, e: Event, orig: Code) {
    match e
    case Instruction => s.child == READY
    case Debugger(c) => s.parent == READY && Proper(c, orig)
    case Wait => s.parent == READY
    case ChildExits => s.child == READY
  }

  /** The patched machine.  On a hit the debuggee stops and the debugger's wait returns
      the address; otherwise the byte under rip is executed. */
  function Happen(s: Session, e: Event, exec: Cpu -> Cpu): Session {
    match e
    case Instruction =>
      if Hits(s) then
        var trapped := Int3(s.cpu);
        Session(s.table, Emulate(trapped), WAITING, READY, Sub(trapped.regs.rip, 1))
      else s.(cpu := NativeStep(s.table.code, exec, s.cpu))
    case Debugger(c) => s.(table := Obey(s.table, c))
    case Wait =>
      if s.child == UNUSED then s.(rax := MINUS_ONE)
      else s.(parent := WAITING, child := READY, rax := MINUS_ONE)
    case ChildExits => s.(child := UNUSED, parent := READY, rax := CHILD_EXIT)
  }

  ghost predicate Possible(s: Session, es: seq<Event>, exec: Cpu -> Cpu, orig: Code)
    decreases |es|
  {
    es == [] || (CanHappen(s, es[0], orig) && Possible(Happen(s, es[0], exec), es[1..], exec, orig))
  }

  function RunSession(s: Session, es: seq<Event>, exec: Cpu -> Cpu): Session
    decreases |es|
  {
    if es == [] then s else RunSession(Happen(s, es[0], exec), es[1..], exec)
  }

  function Instructions(es: seq<Event>): nat {
    if es == [] then 0 else (if es[0] == Instruction then 1 else 0) + Instructions(es[1..])
  }

  /** The program contains no INT3 of its own. */
  predicate NoInt3(orig: Code) {
    forall a :: a in orig ==> orig[a] != INT3_OPCODE
  }

  /** Exactly one of the two is runnable while the debuggee exists; afterwards the debugger is. */
  predicate OneRuns(s: Session) {
    || (s.child == READY && s.parent == WAITING)
    || (s.child != READY && s.parent == READY)
  }

  // ---- Transparency ----

  /** A trap and the handler do what the displaced instruction does. */
  lemma HitIsPush(c: Cpu)
    ensures Emulate(Int3(c)) == PushRbp(c)
    ensures Sub(Int3(c).regs.rip, 1) == c.regs.rip
  {
  }

  /** One instruction on the patched code is one instruction of the program. */
  lemma InstructionIsNative(s: Session, exec: Cpu -> Cpu, orig: Code)
    requires Agree(s.table, orig) && NoInt3(orig)
    ensures Happen(s, Instruction, exec).cpu == NativeStep(orig, exec, s.cpu)
    ensures Hits(s) <==> exists i :: 0 <= i < |s.table.list| && s.table.list[i].enabled
                                     && s.table.list[i].addr == s.cpu.regs.rip
  {
    var rip := s.cpu.regs.rip;
    var i := Find(s.table.list, rip);
    if rip in orig {
      assert s.table.code[rip] == Patched(s.table.list, orig, rip);
      HitIsPush(s.cpu);
    }
    if k: nat :| k < |s.table.list| && s.table.list[k].enabled && s.table.list[k].addr == rip {
      FindUnique(s.table.list, rip, k);
    }
  }

  lemma HappenKeeps(s: Session, e: Event, exec: Cpu -> Cpu, orig: Code)
    requires Agree(s.table, orig) && NoInt3(orig) && OneRuns(s) && CanHappen(s, e, orig)
    ensures Agree(Happen(s, e, exec).table, orig) && OneRuns(Happen(s, e, exec))
    ensures Happen(s, e, exec).cpu == if e == Instruction then NativeStep(orig, exec, s.cpu) else s.cpu
  {
    if e.Debugger? {
      ObeyAgrees(s.table, orig, e.c);
    } else if e == Instruction {
      InstructionIsNative(s, exec, orig);
    }
  }

  /** However breakpoints are set, removed, enabled and disabled between hits, the
      debuggee goes through the states of the undebugged program, one per instruction;
      at every moment exactly one of the two processes is runnable. */
  lemma {:induction false} Transparent(s: Session, es: seq<Event>, exec: Cpu -> Cpu, orig: Code)
    requires Agree(s.table, orig) && NoInt3(orig) && OneRuns(s) && Possible(s, es, exec, orig)
    ensures var s' := RunSession(s, es, exec);
            && s'.cpu == NativeRun(orig, exec, s.cpu, Instructions(es))
            && Agree(s'.table, orig) && OneRuns(s')
    decreases |es|
  {
    if es == [] {
    } else {
      HappenKeeps(s, es[0], exec, orig);
      Transparent(Happen(s, es[0], exec), es[1..], exec, orig);
    }
  }

  /** A debugger without breakpoints whose forked child sleeps is such a start: the code is
      the program, and the debugger runs. */
  lemma StartOfSession(code: Code, cpu: Cpu, rax: Word)
    ensures var s := Session(Table([], 0, code), cpu, WAITING, READY, rax); Agree(s.table, code) && OneRuns(s)
  {
  }

  // ---- Control ----

  /** When the debugger gets control back, its wait has returned CHILD_EXIT because the
      debuggee is gone, or the address of an enabled breakpoint the debuggee stopped at. */
  lemma ResumesWith(s: Session, es: seq<Event>, e: Event, exec: Cpu -> Cpu, orig: Code)
    requires Agree(s.table, orig) && NoInt3(orig) && OneRuns(s) && Possible(s, es, exec, orig)
    requires CanHappen(RunSession(s, es, exec), e, orig)
    requires RunSession(s, es, exec).parent == WAITING && Happen(RunSession(s, es, exec), e, exec).parent == READY
    ensures var s1, s2 := RunSession(s, es, exec), Happen(RunSession(s, es, exec), e, exec);
            || (e == ChildExits && s2.rax == CHILD_EXIT && s2.child == UNUSED)
            || (e == Instruction && s2.child == WAITING && s2.rax == s1.cpu.regs.rip
                && exists b :: b in s2.table.list && b.enabled && b.addr == s2.rax)
  {
    Transparent(s, es, exec, orig);
    var s1, s2 := RunSession(s, es, exec), Happen(RunSession(s, es, exec), e, exec);
    if e == Instruction {
      InstructionIsNative(s1, exec, orig);
      HitIsPush(s1.cpu);
      var i :| 0 <= i < |s1.table.list| && s1.table.list[i].enabled && s1.table.list[i].addr == s1.cpu.regs.rip;
      assert s1.table.list[i] in s2.table.list;
    }
  }

  /** A breakpoint that was set stops the debuggee there, and the debugger's wait returns its
      address; one that was disabled or removed does not. */
  lemma SetStops(s: Session, a: Word, exec: Cpu -> Cpu)
    requires s.cpu.regs.rip == a && |s.table.list| < MAX_BREAKPOINTS
    ensures var s' := Happen(Happen(s, Debugger(Set(a, true)), exec), Instruction, exec);
            s'.child == WAITING && s'.parent == READY && s'.rax == a
  {
    hide SetBreakpoint, Emulate;
    SetExact(s.table, a, true);
    HitIsPush(s.cpu);
  }

  lemma OffDoesNotStop(s: Session, c: Command, a: Word, exec: Cpu -> Cpu)
    requires s.cpu.regs.rip == a && Distinct(s.table.list) && Listed(s.table.list, a) && c in {Disable(a), Remove(a)}
    ensures var s' := Happen(Happen(s, Debugger(c), exec), Instruction, exec);
            s'.child == s.child && s'.parent == s.parent && s'.rax == s.rax && s'.cpu == PushRbp(s.cpu)
  {
    hide Switch, RemoveBreakpoint;
    SwitchExact(s.table, a, false);
    RemoveExact(s.table, a);
  }

  /** The registers the debugger is shown while the debuggee is stopped. */
  function ShownRegs(r: Regs): Regs {
    r.(rip := Sub(r.rip, 1), rsp := Add(r.rsp, 8))
  }

  /** They are those the debuggee had when it reached the breakpoint. */
  lemma ShownRegsAtBreakpoint(c: Cpu)
    ensures ShownRegs(Emulate(Int3(c)).regs) == c.regs
  {
  }

  // ---- Backtraces ----

  /** The return addresses found from frame pointer `fp` on, at most `n` of them. */
  function Frames(mem: Memory, fp: Word, n: nat): (r: seq<Word>)
    requires Readable(mem, fp, n)
    ensures |r| <= n && END_ADDR !in r
    decreases n
  {
    var addr := mem[Add(fp, 8)];
    if addr == END_ADDR || n == 0 then [] else [addr] + Frames(mem, mem[fp], n - 1)
  }

  /** The chain can be walked for `n` frames and the return address behind them can be read. */
  predicate Readable(mem: Memory, fp: Word, n: nat)
    decreases n
  {
    && Add(fp, 8) in mem
    && (mem[Add(fp, 8)] == END_ADDR || n == 0 || (fp in mem && Readable(mem, mem[fp], n - 1)))
  }

  /** The frame pointer of the `k`-th frame of the chain that starts at `fp`. */
  function NthFrame(mem: Memory, fp: Word, k: nat): (r: Option<Word>) {
    if k == 0 then Some(fp)
    else
      var before := NthFrame(mem, fp, k - 1);
      if before.Some? && before.value in mem then Some(mem[before.value]) else None
  }

  /** The recorded return addresses are those above the saved frame pointers of the chain,
      from the first frame on, and the walk ends at the end address or after `n`. */
  lemma {:induction false} FramesAre(mem: Memory, fp: Word, n: nat)
    requires Readable(mem, fp, n)
    ensures var r := Frames(mem, fp, n);
            && (forall k :: 0 <= k < |r| ==>
                  var f := NthFrame(mem, fp, k); f.Some? && Add(f.value, 8) in mem && r[k] == mem[Add(f.value, 8)])
            && (|r| < n ==>
                  var f := NthFrame(mem, fp, |r|);
                  f.Some? && Add(f.value, 8) in mem && mem[Add(f.value, 8)] == END_ADDR)
    decreases n
  {
    FrameStep(mem, fp, n);
    if mem[Add(fp, 8)] == END_ADDR || n == 0 {
    } else {
      hide Readable, Frames, Add;
      FramesAre(mem, mem[fp], n - 1);
      forall k: nat ensures NthFrame(mem, fp, k + 1) == NthFrame(mem, mem[fp], k) {
        NextFrame(mem, fp, k);
      }
      var r, rest := Frames(mem, fp, n), Frames(mem, mem[fp], n - 1);
      forall k | 0 <= k < |r|
        ensures var f := NthFrame(mem, fp, k); f.Some? && Add(f.value, 8) in mem && r[k] == mem[Add(f.value, 8)]
      {
        if k > 0 {
          assert r[k] == rest[k - 1] && NthFrame(mem, fp, (k - 1) + 1) == NthFrame(mem, mem[fp], k - 1);
        }
      }
    }
  }

  lemma {:induction false} NextFrame(mem: Memory, fp: Word, k: nat)
    requires fp in mem
    ensures NthFrame(mem, fp, k + 1) == NthFrame(mem, mem[fp], k)
  {
    if k == 0 {
    } else {
      NextFrame(mem, fp, k - 1);
    }
  }

  /** One turn of the walk over the frames. */
  lemma FrameStep(mem: Memory, fp: Word, n: nat)
    requires Readable(mem, fp, n)
    ensures Add(fp, 8) in mem
    ensures mem[Add(fp, 8)] == END_ADDR || n == 0 ==> Frames(mem, fp, n) == []
    ensures mem[Add(fp, 8)] != END_ADDR && n > 0 ==>
              && fp in mem && Readable(mem, mem[fp], n - 1)
              && Frames(mem, fp, n) == [mem[Add(fp, 8)]] + Frames(mem, mem[fp], n - 1)
  {
  }

  /** What a hit records for a debuggee that was trapped and emulated to `c`. */
  function Recorded(c: Cpu): (r: seq<Word>)
    requires Readable(c.mem, c.regs.rsp, MAX_BACKTRACE - 1)
    ensures 0 < |r| <= MAX_BACKTRACE
  {
    [Sub(c.regs.rip, 1)] + Frames(c.mem, c.regs.rsp, MAX_BACKTRACE - 1)
  }

  /** What the entry points take for granted of an event: a hit can walk the frame chain,
      and the counter of breakpoint numbers is below the largest int. */
  predicate Walkable(s: Session, e: Event) {
    match e
    case Instruction =>
      var c := Emulate(Int3(s.cpu)); Hits(s) ==> Readable(c.mem, c.regs.rsp, MAX_BACKTRACE - 1)
    case Debugger(c) => s.table.issued < INT_LIMIT - 1
    case _ => true
  }

  predicate Feasible(s: Session, es: seq<Event>, exec: Cpu -> Cpu)
    decreases |es|
  {
    es == [] || (Walkable(s, es[0]) && Feasible(Happen(s, es[0], exec), es[1..], exec))
  }

  /** The recorded addresses are followed by the end mark unless they fill the array. */
  predicate Terminated(info: seq<Word>, recorded: seq<Word>) {
    && |info| == MAX_BACKTRACE && |recorded| <= MAX_BACKTRACE
    && info[..|recorded|] == recorded
    && (|recorded| < MAX_BACKTRACE ==> info[|recorded|] == END_ADDR)
  }

  /** What do_backtrace hands out: everything before the first end mark. */
  function UpToEnd(info: seq<Word>): (r: seq<Word>)
    ensures |r| <= |info| && r == info[..|r|] && END_ADDR !in r
    ensures |r| < |info| ==> info[|r|] == END_ADDR
  {
    if info == [] || info[0] == END_ADDR then [] else [info[0]] + UpToEnd(info[1..])
  }

  /** The frame chain does not pass through the word at `a`. */
  predicate Avoids(mem: Memory, fp: Word, n: nat, a: Word)
    requires Readable(mem, fp, n)
    decreases n
  {
    && Add(fp, 8) != a
    && (mem[Add(fp, 8)] == END_ADDR || n == 0 || (fp != a && Avoids(mem, mem[fp], n - 1, a)))
  }

  lemma {:induction false} FramesAfterStore(mem: Memory, fp: Word, n: nat, a: Word, v: Word)
    requires Readable(mem, fp, n) && Avoids(mem, fp, n, a)
    ensures Readable(mem[a := v], fp, n) && Frames(mem[a := v], fp, n) == Frames(mem, fp, n)
    decreases n
  {
    if mem[Add(fp, 8)] == END_ADDR || n == 0 {
    } else {
      FramesAfterStore(mem, mem[fp], n - 1, a, v);
    }
  }

  /** The backtrace of a hit, told from the registers and the stack before the hit: the
      breakpoint address, the return address on top of the stack, and the return
      addresses of the frame chain that starts at rbp. */
  lemma RecordedAtHit(c: Cpu)
    requires c.regs.rsp in c.mem && Readable(c.mem, c.regs.rbp, MAX_BACKTRACE - 2)
    requires Avoids(c.mem, c.regs.rbp, MAX_BACKTRACE - 2, Sub(c.regs.rsp, 8))
    ensures var c' := Emulate(Int3(c));
            && Readable(c'.mem, c'.regs.rsp, MAX_BACKTRACE - 1)
            && Recorded(c') == [c.regs.rip] +
                 if c.mem[c.regs.rsp] == END_ADDR then []
                 else [c.mem[c.regs.rsp]] + Frames(c.mem, c.regs.rbp, MAX_BACKTRACE - 2)
  {
    var sp := Sub(c.regs.rsp, 8);
    FramesAfterStore(c.mem, c.regs.rbp, MAX_BACKTRACE - 2, sp, c.regs.rbp);
    assert Add(sp, 8) == c.regs.rsp;
    HitIsPush(c);
  }

  /** Whatever older hits left in the array, the debugger is handed exactly what this hit
      recorded, provided the breakpoint itself is not at the end address; a breakpoint
      there yields nothing. */
  lemma BacktraceComposes(c: Cpu, info: seq<Word>)
    requires Readable(c.mem, c.regs.rsp, MAX_BACKTRACE - 1) && Terminated(info, Recorded(c))
    ensures UpToEnd(info) == Recorded(c) <==> Sub(c.regs.rip, 1) != END_ADDR
    ensures Sub(c.regs.rip, 1) == END_ADDR ==> UpToEnd(info) == []
  {
    assert info[0] == Recorded(c)[0];
    if Sub(c.regs.rip, 1) != END_ADDR {
      UpToEndIs(info, Recorded(c));
    }
  }

  lemma {:induction false} UpToEndIs(info: seq<Word>, r: seq<Word>)
    requires |r| <= |info| && info[..|r|] == r && END_ADDR !in r
    requires |r| < |info| ==> info[|r|] == END_ADDR
    ensures UpToEnd(info) == r
  {
    if r == [] {
    } else {
      assert info[0] == r[0];
      assert info[1..][..|r| - 1] == r[1..];
      UpToEndIs(info[1..], r[1..]);
    }
  }
}
