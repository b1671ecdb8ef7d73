/**
  The breakpoint table of a debugger: the list of breakpoints, newest first, the last
  number issued, and the code bytes of the debuggee.
 */
module BreakpointModel {
  import opened Common

  const INT3_OPCODE := 0xCC
  const PUSHRBP_OPCODE := 0x55
  const MAX_BREAKPOINTS := 8
  const MAX_BACKTRACE := 64
  const WORDS := 0x1_0000_0000_0000_0000

  type Word = x: int | 0 <= x < 0x1_0000_0000_0000_0000
  type Code = map<Word, Byte>

  datatype Breakpoint = Breakpoint(num: int, enabled: bool, addr: Word)

  datatype Table = Table(list: seq<Breakpoint>, issued: int, code: Code)

  datatype Command =
    | Set(addr: Word, memory: bool)
    | Remove(addr: Word)
    | Enable(addr: Word)
    | Disable(addr: Word)

  /** Position of the first breakpoint on `addr`, or the length of the list. */
  function Find(list: seq<Breakpoint>, addr: Word): (i: nat)
    ensures i <= |list|
    ensures i < |list| ==> list[i].addr == addr
    ensures forall k :: 0 <= k < i ==> list[k].addr != addr
  {
    if list == [] || list[0].addr == addr then 0 else 1 + Find(list[1..], addr)
  }

  predicate Listed(list: seq<Breakpoint>, addr: Word) {
    exists i :: 0 <= i < |list| && list[i].addr == addr
  }

  function Switch(t: Table, addr: Word, on: bool): (Table, int) {
    var i := Find(t.list, addr);
    if i == |t.list| then (t, -1)
    else (t.(list := t.list[i := t.list[i].(enabled := on)],
             code := t.code[addr := if on then INT3_OPCODE else PUSHRBP_OPCODE]), 0)
  }

  /** Sets a breakpoint, or enables the one already there.  `memory` is the allocator's answer. */
  function SetBreakpoint(t: Table, addr: Word, memory: bool): (Table, int) {
    if Find(t.list, addr) < |t.list| then Switch(t, addr, true)
    else if |t.list| >= MAX_BREAKPOINTS || !memory then (t, -1)
    else (Table([Breakpoint(t.issued + 1, true, addr)] + t.list, t.issued + 1, t.code[addr := INT3_OPCODE]), 0)
  }

  function RemoveBreakpoint(t: Table, addr: Word): (Table, int) {
    var i := Find(t.list, addr);
    if i == |t.list| then (t, -1)
    else (t.(list := t.list[..i] + t.list[i + 1..], code := t.code[addr := PUSHRBP_OPCODE]), 0)
  }

  function Obey(t: Table, c: Command): Table {
    match c
    case Set(addr, memory) => SetBreakpoint(t, addr, memory).0
    case Remove(addr) => RemoveBreakpoint(t, addr).0
    case Enable(addr) => Switch(t, addr, true).0
    case Disable(addr) => Switch(t, addr, false).0
  }

  function ObeyAll(t: Table, cs: seq<Command>): Table
    decreases |cs|
  {
    if cs == [] then t else ObeyAll(Obey(t, cs[0]), cs[1..])
  }

  // ---- The list and the code bytes agree ----

  /** The byte that must be at `addr` of a program whose own bytes are `orig`. */
  function Patched(list: seq<Breakpoint>, orig: Code, addr: Word): Byte
    requires addr in orig
  {
    var i := Find(list, addr);
    if i == |list| then orig[addr] else if list[i].enabled then INT3_OPCODE else PUSHRBP_OPCODE
  }

  predicate Distinct(list: seq<Breakpoint>) {
    forall i, j :: 0 <= i < j < |list| ==> list[i].addr != list[j].addr
  }

  /** At most eight breakpoints, on distinct `push rbp` instructions. */
  predicate Placed(list: seq<Breakpoint>, orig: Code) {
    && |list| <= MAX_BREAKPOINTS
    && Distinct(list)
    && (forall i :: 0 <= i < |list| ==> list[i].addr in orig && orig[list[i].addr] == PUSHRBP_OPCODE)
  }

  predicate Agree(t: Table, orig: Code) {
    && Placed(t.list, orig)
    && t.code.Keys == orig.Keys
    && (forall a :: a in orig ==> t.code[a] == Patched(t.list, orig, a))
  }

  /** Numbers fall from the newest breakpoint to the oldest and none exceeds the last one issued. */
  predicate Numbered(t: Table) {
    && (forall i, j :: 0 <= i < j < |t.list| ==> t.list[j].num < t.list[i].num)
    && (forall i :: 0 <= i < |t.list| ==> t.list[i].num <= t.issued)
  }

  /** Breakpoints are set on `push rbp` instructions of the program only. */
  predicate Proper(c: Command, orig: Code) {
    c.Set? ==> c.addr in orig && orig[c.addr] == PUSHRBP_OPCODE
  }

  lemma FindUnique(list: seq<Breakpoint>, addr: Word, i: nat)
    requires i < |list| && list[i].addr == addr
    requires Distinct(list)
    ensures Find(list, addr) == i
  {
  }

  lemma PatchedAfterSwitch(t: Table, orig: Code, addr: Word, on: bool, a: Word)
    requires Placed(t.list, orig) && a in orig && Find(t.list, addr) < |t.list|
    ensures var t' := Switch(t, addr, on).0;
            Patched(t'.list, orig, a) == if a != addr then Patched(t.list, orig, a)
                                         else if on then INT3_OPCODE else PUSHRBP_OPCODE
  {
    var i, list' := Find(t.list, addr), Switch(t, addr, on).0.list;
    var k := Find(t.list, a);
    if k < |t.list| {
      FindUnique(list', a, k);
    } else {
      assert Find(list', a) == |list'| by {
        assert forall j :: 0 <= j < |list'| ==> list'[j].addr == t.list[j].addr;
      }
    }
  }

  lemma StaysPlaced(t: Table, orig: Code, addr: Word, on: bool)
    requires Placed(t.list, orig)
    ensures Placed(Switch(t, addr, on).0.list, orig)
    ensures Placed(RemoveBreakpoint(t, addr).0.list, orig)
  {
    var i := Find(t.list, addr);
    var list' := RemoveBreakpoint(t, addr).0.list;
    assert i < |t.list| ==> forall j :: 0 <= j < |list'| ==> list'[j] == t.list[if j < i then j else j + 1];
  }

  lemma SwitchAgrees(t: Table, orig: Code, addr: Word, on: bool)
    requires Agree(t, orig)
    ensures Agree(Switch(t, addr, on).0, orig)
  {
    StaysPlaced(t, orig, addr, on);
    if Find(t.list, addr) < |t.list| {
      forall a | a in orig ensures Switch(t, addr, on).0.code[a] == Patched(Switch(t, addr, on).0.list, orig, a) {
        PatchedAfterSwitch(t, orig, addr, on, a);
      }
    }
  }

  lemma {:induction false} FindAfterRemove(list: seq<Breakpoint>, i: nat, a: Word)
    requires i < |list| && Distinct(list)
    ensures var k, list' := Find(list, a), list[..i] + list[i + 1..];
            if k == |list| || k == i then Find(list', a) == |list'|
            else Find(list', a) < |list'| && list'[Find(list', a)] == list[k]
  {
    var k, list' := Find(list, a), list[..i] + list[i + 1..];
    assert forall j :: 0 <= j < |list'| ==> list'[j] == list[if j < i then j else j + 1];
    if k != |list| && k != i {
      FindUnique(list', a, if k < i then k else k - 1);
    }
  }

  lemma PatchedAfterRemove(t: Table, orig: Code, addr: Word, a: Word)
    requires Placed(t.list, orig) && a in orig && Find(t.list, addr) < |t.list|
    ensures var t' := RemoveBreakpoint(t, addr).0;
            Patched(t'.list, orig, a) == if a != addr then Patched(t.list, orig, a) else orig[a]
  {
    hide Find;
    FindAfterRemove(t.list, Find(t.list, addr), a);
    if a == addr {
      FindUnique(t.list, a, Find(t.list, addr));
    }
  }

  lemma RemoveAgrees(t: Table, orig: Code, addr: Word)
    requires Agree(t, orig)
    ensures Agree(RemoveBreakpoint(t, addr).0, orig)
  {
    StaysPlaced(t, orig, addr, true);
    if Find(t.list, addr) < |t.list| {
      forall a | a in orig
        ensures RemoveBreakpoint(t, addr).0.code[a] == Patched(RemoveBreakpoint(t, addr).0.list, orig, a)
      {
        PatchedAfterRemove(t, orig, addr, a);
      }
    }
  }

  lemma PushPlaced(list: seq<Breakpoint>, orig: Code, b: Breakpoint)
    requires Placed(list, orig) && |list| < MAX_BREAKPOINTS && Find(list, b.addr) == |list|
    requires b.addr in orig && orig[b.addr] == PUSHRBP_OPCODE
    ensures Placed([b] + list, orig)
  {
    hide Find;
  }

  lemma SetAgrees(t: Table, orig: Code, addr: Word, memory: bool)
    requires Agree(t, orig) && Proper(Set(addr, memory), orig)
    ensures Agree(SetBreakpoint(t, addr, memory).0, orig)
  {
    hide Find, Placed;
    if Find(t.list, addr) < |t.list| {
      SwitchAgrees(t, orig, addr, true);
    } else if |t.list| < MAX_BREAKPOINTS && memory {
      var b := Breakpoint(t.issued + 1, true, addr);
      assert |t.list| < MAX_BREAKPOINTS && Find(t.list, addr) == |t.list|;
      PushPlaced(t.list, orig, b);
      forall a | a in orig ensures t.code[addr := INT3_OPCODE][a] == Patched([b] + t.list, orig, a) {
        FindAfterCons(b, t.list, a);
      }
    }
  }

  lemma {:induction false} FindAfterCons(b: Breakpoint, list: seq<Breakpoint>, a: Word)
    ensures Find([b] + list, a) == if a == b.addr then 0 else 1 + Find(list, a)
  {
    assert ([b] + list)[1..] == list;
  }

  /** Every command keeps list and code in agreement. */
  lemma ObeyAgrees(t: Table, orig: Code, c: Command)
    requires Agree(t, orig) && Proper(c, orig)
    ensures Agree(Obey(t, c), orig)
  {
    match c
    case Set(addr, memory) => SetAgrees(t, orig, addr, memory);
    case Remove(addr) => RemoveAgrees(t, orig, addr);
    case Enable(addr) => SwitchAgrees(t, orig, addr, true);
    case Disable(addr) => SwitchAgrees(t, orig, addr, false);
  }

  /** ...and so does every run of commands, after which the program's bytes are back as
      soon as the list is empty. */
  lemma {:induction false} RunAgrees(t: Table, orig: Code, cs: seq<Command>)
    requires Agree(t, orig) && forall c :: c in cs ==> Proper(c, orig)
    ensures Agree(ObeyAll(t, cs), orig)
    ensures ObeyAll(t, cs).list == [] ==> ObeyAll(t, cs).code == orig
    decreases |cs|
  {
    if cs == [] {
    } else {
      ObeyAgrees(t, orig, cs[0]);
      RunAgrees(Obey(t, cs[0]), orig, cs[1..]);
    }
  }

  function Removals(list: seq<Breakpoint>): seq<Command> {
    if list == [] then [] else [Remove(list[0].addr)] + Removals(list[1..])
  }

  /** Removing every listed breakpoint restores the program exactly. */
  lemma {:induction false} RemoveAllRestores(t: Table, orig: Code)
    requires Agree(t, orig)
    ensures ObeyAll(t, Removals(t.list)).list == [] && ObeyAll(t, Removals(t.list)).code == orig
    decreases |t.list|
  {
    if t.list == [] {
    } else {
      var t' := Obey(t, Remove(t.list[0].addr));
      assert t'.list == t.list[1..];
      RemoveAgrees(t, orig, t.list[0].addr);
      RemoveAllRestores(t', orig);
      assert Removals(t.list)[1..] == Removals(t'.list);
    }
  }

  /** What goes wrong elsewhere: setting and removing a breakpoint gives the byte back
      if and only if it was a `push rbp`. */
  lemma SetRemoveRestores(t: Table, addr: Word)
    requires addr in t.code && !Listed(t.list, addr) && |t.list| < MAX_BREAKPOINTS
    ensures Obey(Obey(t, Set(addr, true)), Remove(addr)).code == t.code <==> t.code[addr] == PUSHRBP_OPCODE
  {
    var t1 := Obey(t, Set(addr, true));
    assert t1.list[0].addr == addr;
    var t2 := Obey(t1, Remove(addr));
    assert t2.code[addr] == PUSHRBP_OPCODE;
    assert forall a :: a in t.code && a != addr ==> t2.code[a] == t.code[a];
  }

  // ---- What each command answers and arms ----

  predicate Armed(list: seq<Breakpoint>, addr: Word) {
    exists i :: 0 <= i < |list| && list[i].addr == addr && list[i].enabled
  }

  /** Breakpoints and code bytes away from `addr` are the same ones in both tables. */
  ghost predicate SameElsewhere(t: Table, t': Table, addr: Word) {
    && (forall b: Breakpoint :: b.addr != addr ==> (b in t'.list <==> b in t.list))
    && (forall a :: a != addr ==> (a in t'.code <==> a in t.code))
    && (forall a :: a != addr && a in t.code ==> t'.code[a] == t.code[a])
  }

  /** Setting fails, without any effect, exactly for a new address when eight are listed or
      there is no memory.  Otherwise an enabled breakpoint is on the address, new or old,
      and INT3 is in the code. */
  lemma SetExact(t: Table, addr: Word, memory: bool)
    ensures var (t', result) := SetBreakpoint(t, addr, memory);
            && result in {0, -1}
            && (result == -1 <==> !Listed(t.list, addr) && (|t.list| >= MAX_BREAKPOINTS || !memory))
            && (result == -1 ==> t' == t)
            && (result == 0 ==> Armed(t'.list, addr) && addr in t'.code && t'.code[addr] == INT3_OPCODE)
            && |t'.list| == |t.list| + (if result == 0 && !Listed(t.list, addr) then 1 else 0)
            && t'.issued == t.issued + (if result == 0 && !Listed(t.list, addr) then 1 else 0)
            && SameElsewhere(t, t', addr)
  {
    hide Find;
    var t' := SetBreakpoint(t, addr, memory).0;
    if Listed(t.list, addr) {
      SwitchExact(t, addr, true);
    } else if t' != t {
      assert t'.list[0].addr == addr;
    }
  }

  /** Enabling and disabling fail exactly for an address without a breakpoint; otherwise the
      first one there is in that state, and the code has INT3 or `push rbp`. */
  lemma SwitchExact(t: Table, addr: Word, on: bool)
    ensures var (t', result) := Switch(t, addr, on);
            && result in {0, -1}
            && (result == -1 <==> !Listed(t.list, addr))
            && (result == -1 ==> t' == t)
            && (result == 0 ==>
                  && addr in t'.code && t'.code[addr] == (if on then INT3_OPCODE else PUSHRBP_OPCODE)
                  && (on ==> Armed(t'.list, addr))
                  && (!on && Distinct(t.list) ==> !Armed(t'.list, addr)))
            && |t'.list| == |t.list| && t'.issued == t.issued
            && SameElsewhere(t, t', addr)
  {
    hide Find;
    var i, t' := Find(t.list, addr), Switch(t, addr, on).0;
    if i < |t.list| {
      assert t'.list[i].addr == addr && t'.list[i].enabled == on;
      forall b: Breakpoint | b.addr != addr ensures b in t'.list <==> b in t.list {
        SwitchedIn(t.list, i, on, b);
      }
    }
  }

  lemma SwitchedIn(list: seq<Breakpoint>, i: nat, on: bool, b: Breakpoint)
    requires i < |list| && list[i].addr != b.addr
    ensures b in list[i := list[i].(enabled := on)] <==> b in list
  {
    var list' := list[i := list[i].(enabled := on)];
    if b in list {
      var k :| 0 <= k < |list| && list[k] == b;
      assert list'[k] == b;
    }
  }

  /** Removing fails exactly for an address without a breakpoint; otherwise there is none any
      more, and the code has `push rbp`. */
  lemma RemoveExact(t: Table, addr: Word)
    ensures var (t', result) := RemoveBreakpoint(t, addr);
            && result in {0, -1}
            && (result == -1 <==> !Listed(t.list, addr))
            && (result == -1 ==> t' == t)
            && (result == 0 ==>
                  && addr in t'.code && t'.code[addr] == PUSHRBP_OPCODE
                  && (Distinct(t.list) ==> !Listed(t'.list, addr)) && |t'.list| == |t.list| - 1)
            && t'.issued == t.issued
            && SameElsewhere(t, t', addr)
  {
    hide Find;
    var i, t' := Find(t.list, addr), RemoveBreakpoint(t, addr).0;
    if i < |t.list| {
      assert forall k :: 0 <= k < |t'.list| ==> t'.list[k] == t.list[if k < i then k else k + 1];
      forall b: Breakpoint | b.addr != addr && b in t.list ensures b in t'.list {
        var k :| 0 <= k < |t.list| && t.list[k] == b;
        assert t'.list[if k < i then k else k - 1] == b;
      }
    }
  }

  // ---- Numbers ----

  /** The list knows a breakpoint with this number on this address. */
  predicate Knows(list: seq<Breakpoint>, b: Breakpoint) {
    exists i :: 0 <= i < |list| && list[i].num == b.num && list[i].addr == b.addr
  }

  lemma RemoveNumbered(t: Table, addr: Word)
    requires Numbered(t)
    ensures Numbered(RemoveBreakpoint(t, addr).0)
    ensures forall b :: Knows(RemoveBreakpoint(t, addr).0.list, b) ==> Knows(t.list, b)
  {
    hide Find;
    var i, list' := Find(t.list, addr), RemoveBreakpoint(t, addr).0.list;
    assert i < |t.list| ==> forall j :: 0 <= j < |list'| ==> list'[j] == t.list[if j < i then j else j + 1];
  }

  lemma SwitchNumbered(t: Table, addr: Word, on: bool)
    requires Numbered(t)
    ensures Numbered(Switch(t, addr, on).0)
    ensures forall b :: Knows(Switch(t, addr, on).0.list, b) ==> Knows(t.list, b)
  {
    var list' := Switch(t, addr, on).0.list;
    assert forall j :: 0 <= j < |list'| ==> list'[j].num == t.list[j].num && list'[j].addr == t.list[j].addr;
  }

  lemma SetNumbered(t: Table, addr: Word, memory: bool)
    requires Numbered(t)
    ensures Numbered(SetBreakpoint(t, addr, memory).0)
    ensures forall b :: Knows(SetBreakpoint(t, addr, memory).0.list, b) && b.num <= t.issued ==> Knows(t.list, b)
  {
    var list' := SetBreakpoint(t, addr, memory).0.list;
    SwitchNumbered(t, addr, true);
    assert |list'| > |t.list| ==> forall j :: 0 < j < |list'| ==> list'[j] == t.list[j - 1];
  }

  lemma ObeyNumbered(t: Table, c: Command)
    requires Numbered(t)
    ensures Numbered(Obey(t, c)) && t.issued <= Obey(t, c).issued
    ensures forall b :: Knows(Obey(t, c).list, b) && b.num <= t.issued ==> Knows(t.list, b)
  {
    match c
    case Set(addr, memory) => SetNumbered(t, addr, memory);
    case Remove(addr) => RemoveNumbered(t, addr);
    case Enable(addr) => SwitchNumbered(t, addr, true);
    case Disable(addr) => SwitchNumbered(t, addr, false);
  }

  /** A number is issued once: whatever a run does, a breakpoint with an old number is
      the old breakpoint, on its old address.  The counter is an int: a command adds at
      most one to it. */
  lemma {:induction false} NumbersNotReused(t: Table, cs: seq<Command>)
    requires Numbered(t) && t.issued + |cs| < INT_LIMIT
    ensures Numbered(ObeyAll(t, cs)) && t.issued <= ObeyAll(t, cs).issued < INT_LIMIT
    ensures forall b :: Knows(ObeyAll(t, cs).list, b) && b.num <= t.issued ==> Knows(t.list, b)
    decreases |cs|
  {
    if cs == [] {
    } else {
      ObeyNumbered(t, cs[0]);
      NumbersNotReused(Obey(t, cs[0]), cs[1..]);
    }
  }

  /** The order in which breakpoints are shown to the user. */
  function Shown(list: seq<Breakpoint>): (r: seq<Breakpoint>)
    ensures |r| == |list|
    ensures forall i :: 0 <= i < |r| ==> r[i] == list[|list| - 1 - i]
  {
    if list == [] then [] else Shown(list[1..]) + [list[0]]
  }

  /** After any run the user sees the numbers in increasing order. */
  lemma ShownInOrder(t: Table, cs: seq<Command>, i: nat, j: nat)
    requires Numbered(t) && t.issued + |cs| < INT_LIMIT && i < j < |ObeyAll(t, cs).list|
    ensures Shown(ObeyAll(t, cs).list)[i].num < Shown(ObeyAll(t, cs).list)[j].num
  {
    NumbersNotReused(t, cs);
  }
}
