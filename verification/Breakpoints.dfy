/**
  The breakpoint list as the kernel keeps it: linked nodes, relinked in place, beside
  code bytes that are patched in place.
 */
module BreakpointList {
  import opened BreakpointModel

  class BreakpointInfo {
    var num: int
    var enabled: bool
    var addr: Word
    var next: BreakpointInfo?

    constructor (num: int, addr: Word, next: BreakpointInfo?)
      ensures this.num == num && this.enabled && this.addr == addr && this.next == next
    {
      this.num, this.enabled, this.addr, this.next := num, true, addr, next;
    }

    ghost predicate Holds(b: Breakpoint)
      reads this`num, this`enabled, this`addr
    {
      num == b.num && enabled == b.enabled && addr == b.addr
    }
  }

  class CodeMemory {
    var bytes: Code
  }

  // ---- The shape of a list ----

  ghost function NodeAt(nodes: seq<BreakpointInfo>, i: nat): BreakpointInfo? {
    if i < |nodes| then nodes[i] else null
  }

  /** Starting at `head` the next pointers run through exactly these nodes. */
  ghost predicate Linked(nodes: seq<BreakpointInfo>, head: BreakpointInfo?)
    reads nodes`next
  {
    && head == NodeAt(nodes, 0)
    && forall i :: 0 <= i < |nodes| ==> nodes[i].next == NodeAt(nodes, i + 1)
  }

  ghost predicate Holding(nodes: seq<BreakpointInfo>, list: seq<Breakpoint>)
    reads nodes`num, nodes`enabled, nodes`addr
  {
    && |nodes| == |list|
    && forall i :: 0 <= i < |nodes| ==> nodes[i].Holds(list[i])
  }

  ghost predicate NoCycle(nodes: seq<BreakpointInfo>) {
    forall i, j :: 0 <= i < j < |nodes| ==> nodes[i] != nodes[j]
  }

  ghost function NodeSet(nodes: seq<BreakpointInfo>): set<BreakpointInfo> {
    set n | n in nodes
  }

  lemma ConsNode(n: BreakpointInfo, b: Breakpoint, nodes: seq<BreakpointInfo>, list: seq<Breakpoint>)
    requires Linked(nodes, n.next) && Holding(nodes, list) && NoCycle(nodes) && n !in nodes && n.Holds(b)
    ensures Linked([n] + nodes, n) && Holding([n] + nodes, [b] + list) && NoCycle([n] + nodes)
    ensures NodeSet([n] + nodes) == NodeSet(nodes) + {n}
  {
  }

  lemma NodeIn(nodes: seq<BreakpointInfo>, i: nat)
    requires i < |nodes|
    ensures nodes[i] in NodeSet(nodes)
  {
  }

  ghost function Except<T>(s: seq<T>, i: nat): (r: seq<T>)
    requires i < |s|
    ensures |r| == |s| - 1
    ensures forall k :: 0 <= k < |r| ==> r[k] == s[if k < i then k else k + 1]
  {
    s[..i] + s[i + 1..]
  }

  lemma ExceptIn<T>(s: seq<T>, i: nat)
    requires i < |s|
    ensures forall x :: x in Except(s, i) ==> x in s
  {
  }

  /** What is left when a node was bypassed. */
  lemma BypassLinked(nodes: seq<BreakpointInfo>, i: nat, head: BreakpointInfo?)
    requires i < |nodes|
    requires head == if i == 0 then NodeAt(nodes, 1) else nodes[0]
    requires forall k :: 0 <= k < |nodes| && k + 1 != i ==> nodes[k].next == NodeAt(nodes, k + 1)
    requires i > 0 ==> nodes[i - 1].next == NodeAt(nodes, i + 1)
    ensures Linked(Except(nodes, i), head)
  {
  }

  lemma BypassHolding(nodes: seq<BreakpointInfo>, i: nat, list: seq<Breakpoint>)
    requires i < |nodes| && Holding(nodes, list)
    ensures Holding(Except(nodes, i), Except(list, i))
  {
  }

  lemma BypassSet(nodes: seq<BreakpointInfo>, i: nat)
    requires i < |nodes| && NoCycle(nodes)
    ensures NoCycle(Except(nodes, i)) && NodeSet(Except(nodes, i)) == NodeSet(nodes) - {nodes[i]}
  {
    var rest := Except(nodes, i);
    forall n | n in nodes && n != nodes[i] ensures n in rest {
      var k :| 0 <= k < |nodes| && nodes[k] == n;
      assert rest[if k < i then k else k - 1] == n;
    }
  }

  class DebugInfo {
    var head: BreakpointInfo?
    var size: int
    var breakptNum: int
    const backtraceInfo: array<Word>
    const code: CodeMemory
    /** The list from its head on, and what its nodes hold. */
    ghost var nodes: seq<BreakpointInfo>
    ghost var list: seq<Breakpoint>
    /** The nodes allocated and not freed yet. */
    ghost var live: set<BreakpointInfo>

    ghost predicate Valid()
      reads this, nodes
    {
      && size == |nodes|
      && backtraceInfo.Length == MAX_BACKTRACE
      && Linked(nodes, head) && Holding(nodes, list) && NoCycle(nodes)
      && live == NodeSet(nodes)
    }

    ghost function State(): Table
      reads this, code
    {
      Table(list, breakptNum, code.bytes)
    }

    constructor (code: CodeMemory)
      ensures Valid() && fresh(backtraceInfo) && this.code == code
      ensures State() == Table([], 0, code.bytes)
    {
      head, size, breakptNum := null, 0, 0;
      backtraceInfo := new Word[MAX_BACKTRACE](_ => 0);
      this.code := code;
      nodes, list, live := [], [], {};
    }

    /** free_breakpoint_info: nothing is freed twice. */
    ghost method Free(n: BreakpointInfo)
      requires n in live
      modifies this`live
      ensures live == old(live) - {n}
    {
      live := live - {n};
    }

    /** The walk every command starts with: the node on `addr` and the one before it. */
    method Search(addr: Word) returns (parent: BreakpointInfo?, found: BreakpointInfo?, ghost i: nat)
      requires Valid()
      ensures i == Find(list, addr)
      ensures found == NodeAt(nodes, i)
      ensures found != null ==> parent == if i > 0 then nodes[i - 1] else null
      ensures found != null ==> found.addr == addr
    {
      parent, found, i := null, head, 0;
      while found != null
        invariant 0 <= i <= |nodes|
        invariant found == NodeAt(nodes, i)
        invariant found != null ==> parent == if i > 0 then nodes[i - 1] else null
        invariant forall k :: 0 <= k < i ==> list[k].addr != addr
        decreases |nodes| - i
      {
        assert nodes[i].Holds(list[i]);
        if found.addr == addr {
          FindIs(list, addr, i);
          return;
        }
        assert nodes[i].next == NodeAt(nodes, i + 1);
        parent, found, i := found, found.next, i + 1;
      }
      FindIs(list, addr, i);
    }

    /** Marks the breakpoint and writes its code byte. */
    method Patch(n: BreakpointInfo, ghost i: nat, on: bool)
      requires Valid() && i < |nodes| && nodes[i] == n && i == Find(list, n.addr)
      modifies this`list, n`enabled, code
      ensures Valid()
      ensures State() == Switch(old(State()), n.addr, on).0
    {
      hide Linked, NodeSet;
      assert forall k :: 0 <= k < |nodes| ==> nodes[k].Holds(list[k]);
      n.enabled := on;
      list := list[i := list[i].(enabled := on)];
      code.bytes := code.bytes[n.addr := if on then INT3_OPCODE else PUSHRBP_OPCODE];
      assert Holding(nodes, list);
    }

    method SetBreakpointAt(addr: Word, memory: bool) returns (result: int)
      requires Valid() && breakptNum < 0x7fff_ffff
      modifies this, nodes, code
      ensures Valid()
      ensures (State(), result) == SetBreakpoint(old(State()), addr, memory)
      ensures result == 0 ==> Armed(list, addr) && addr in code.bytes && code.bytes[addr] == INT3_OPCODE
      ensures result != 0 <==> !Listed(old(list), addr) && (|old(list)| >= MAX_BREAKPOINTS || !memory)
      ensures forall n :: n in nodes ==> n in old(nodes) || fresh(n)
    {
      hide Linked, NoCycle, NodeSet, Armed, Listed;
      SetExact(State(), addr, memory);
      var parent, n, i := Search(addr);
      if n != null {
        Patch(n, i, true);
        return 0;
      }
      if size >= MAX_BREAKPOINTS {
        return -1;
      }
      if !memory {
        return -1;
      }
      Push(addr);
      code.bytes := code.bytes[addr := INT3_OPCODE];
      return 0;
    }

    /** A new node at the head of the list. */
    method Push(addr: Word)
      requires Valid()
      modifies this`breakptNum, this`head, this`size, this`nodes, this`list, this`live
      ensures Valid()
      ensures breakptNum == old(breakptNum) + 1
      ensures forall n :: n in nodes ==> n in old(nodes) || fresh(n)
      ensures list == [Breakpoint(old(breakptNum) + 1, true, addr)] + old(list)
    {
      hide Linked, Holding, NoCycle, NodeSet;
      breakptNum := breakptNum + 1;
      ghost var was := nodes;
      var node := new BreakpointInfo(breakptNum, addr, head);
      assert node !in was;
      ConsNode(node, Breakpoint(breakptNum, true, addr), nodes, list);
      head := node;
      size := size + 1;
      nodes, list, live := [node] + nodes, [Breakpoint(breakptNum, true, addr)] + list, live + {node};
    }

    method RemoveBreakpointAt(addr: Word) returns (result: int)
      requires Valid()
      modifies this, nodes, code
      ensures Valid()
      ensures (State(), result) == RemoveBreakpoint(old(State()), addr)
      ensures result == 0 ==> addr in code.bytes && code.bytes[addr] == PUSHRBP_OPCODE
      ensures result == 0 && Distinct(old(list)) ==> !Listed(list, addr)
      ensures result != 0 <==> !Listed(old(list), addr)
      ensures forall n :: n in nodes ==> n in old(nodes)
    {
      hide Linked, NoCycle, NodeSet, Listed, Distinct;
      RemoveExact(State(), addr);
      var parent, n, i := Search(addr);
      if n == null {
        return -1;
      }
      Unlink(parent, n, i);
      code.bytes := code.bytes[addr := PUSHRBP_OPCODE];
      return 0;
    }

    /** Takes the node at position `i` out of the list and frees it. */
    method Unlink(parent: BreakpointInfo?, n: BreakpointInfo, ghost i: nat)
      requires Valid() && i < |nodes| && n == nodes[i]
      requires parent == if i > 0 then nodes[i - 1] else null
      modifies this`head, this`size, this`nodes, this`list, this`live, nodes`next
      ensures Valid()
      ensures list == Except(old(list), i)
      ensures forall n :: n in nodes ==> n in old(nodes)
    {
      hide Linked, Holding, NoCycle, NodeSet, Except;
      BypassSet(nodes, i);
      BypassHolding(nodes, i, list);
      NodeIn(nodes, i);
      ExceptIn(nodes, i);
      Bypass(parent, n, i);
      Free(n);
      size := size - 1;
      nodes, list := Except(nodes, i), Except(list, i);
    }

    method Bypass(parent: BreakpointInfo?, n: BreakpointInfo, ghost i: nat)
      requires Linked(nodes, head) && NoCycle(nodes) && i < |nodes| && n == nodes[i]
      requires parent == if i > 0 then nodes[i - 1] else null
      modifies this`head, nodes`next
      ensures Linked(Except(nodes, i), head)
    {
      assert forall k :: 0 <= k < |nodes| ==> nodes[k].next == NodeAt(nodes, k + 1);
      if parent == null {
        head := n.next;
      } else {
        parent.next := n.next;
      }
      BypassLinked(nodes, i, head);
    }

    method EnableBreakpointAt(addr: Word) returns (result: int)
      requires Valid()
      modifies this`list, nodes, code
      ensures Valid()
      ensures (State(), result) == Switch(old(State()), addr, true)
      ensures result == 0 ==> Armed(list, addr) && addr in code.bytes && code.bytes[addr] == INT3_OPCODE
      ensures result != 0 <==> !Listed(old(list), addr)
    {
      hide Linked, NoCycle, NodeSet, Armed, Listed;
      SwitchExact(State(), addr, true);
      var parent, n, i := Search(addr);
      if n == null {
        return -1;
      }
      Patch(n, i, true);
      return 0;
    }

    method DisableBreakpointAt(addr: Word) returns (result: int)
      requires Valid()
      modifies this`list, nodes, code
      ensures Valid()
      ensures (State(), result) == Switch(old(State()), addr, false)
      ensures result == 0 ==> addr in code.bytes && code.bytes[addr] == PUSHRBP_OPCODE
      ensures result == 0 && Distinct(old(list)) ==> !Armed(list, addr)
      ensures result != 0 <==> !Listed(old(list), addr)
    {
      hide Linked, NoCycle, NodeSet, Armed, Listed, Distinct;
      SwitchExact(State(), addr, false);
      var parent, n, i := Search(addr);
      if n == null {
        return -1;
      }
      Patch(n, i, false);
      return 0;
    }

    /** One of the four commands. */
    method Execute(c: Command) returns (result: int)
      requires Valid() && breakptNum < 0x7fff_ffff
      modifies this, nodes, code
      ensures Valid() && State() == Obey(old(State()), c)
      ensures forall n :: n in nodes ==> n in old(nodes) || fresh(n)
    {
      hide Linked, Holding, NoCycle, NodeSet, SetBreakpoint, RemoveBreakpoint, Switch;
      match c {
        case Set(addr, memory) => result := SetBreakpointAt(addr, memory);
        case Remove(addr) => result := RemoveBreakpointAt(addr);
        case Enable(addr) => result := EnableBreakpointAt(addr);
        case Disable(addr) => result := DisableBreakpointAt(addr);
      }
    }

    /** Fills the caller's array from the back, so the oldest breakpoint comes first. */
    method InfoBreakpoints(ubp: array<Breakpoint>) returns (count: int)
      requires Valid() && ubp.Length >= size
      modifies ubp
      ensures count == |list| && ubp[..count] == Shown(list)
      ensures forall k :: count <= k < ubp.Length ==> ubp[k] == old(ubp[k])
    {
      hide Linked, Holding, NoCycle, NodeSet, Shown;
      FirstNode();
      var n := head;
      var idx := 0;
      while n != null
        invariant 0 <= idx <= |nodes|
        invariant n == NodeAt(nodes, idx)
        invariant forall k :: size - idx <= k < size ==> ubp[k] == list[size - 1 - k]
        invariant forall k :: size <= k < ubp.Length ==> ubp[k] == old(ubp[k])
        decreases |nodes| - idx
        modifies ubp
      {
        NodeFacts(idx);
        ubp[size - idx - 1] := Breakpoint(n.num, n.enabled, n.addr);
        idx := idx + 1;
        n := n.next;
      }
      ShownIs(list, ubp[..size]);
      return size;
    }

    lemma FirstNode()
      requires Valid()
      ensures head == NodeAt(nodes, 0) && |list| == |nodes|
    {
    }

    lemma NodeFacts(i: nat)
      requires Valid() && i < |nodes|
      ensures nodes[i].next == NodeAt(nodes, i + 1) && nodes[i].Holds(list[i])
    {
    }

    /** Reading the link of a node; only a node that is allocated can be read. */
    method NextOf(n: BreakpointInfo) returns (next: BreakpointInfo?)
      requires n in live
      ensures next == n.next
    {
      next := n.next;
    }

    /** The debugger exits: every node is freed once, and none is read after it was, as
        `Free` and `NextOf` ask for an allocated one. */
    method FreeAll()
      requires Valid()
      modifies this`live
      ensures live == {}
    {
      var n := head;
      ghost var i := 0;
      while n != null
        invariant 0 <= i <= |nodes|
        invariant n == NodeAt(nodes, i)
        invariant live == set m | m in nodes[i..]
        decreases |nodes| - i
      {
        assert nodes[i].next == NodeAt(nodes, i + 1);
        assert n in nodes[i..];
        var next := NextOf(n);
        Free(n);
        n := next;
        i := i + 1;
      }
    }
  }

  lemma ShownIs(list: seq<Breakpoint>, s: seq<Breakpoint>)
    requires |s| == |list| && forall k :: 0 <= k < |s| ==> s[k] == list[|list| - 1 - k]
    ensures s == Shown(list)
  {
  }

  lemma {:induction false} FindIs(list: seq<Breakpoint>, addr: Word, i: nat)
    requires i <= |list| && (i < |list| ==> list[i].addr == addr)
    requires forall k :: 0 <= k < i ==> list[k].addr != addr
    ensures Find(list, addr) == i
  {
  }
}
