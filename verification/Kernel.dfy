/**
  The kernel's side of message queues: the descriptor-table loops of create, fork,
  close and exit over the memory of `KernelModel`.
 */
module KernelObject {
  import opened Common
  import opened QueueModel
  import opened KernelModel

  /** `p` has one of its first `n` descriptors open on `a`. */
  ghost predicate HoldsBelow(w: World, p: Pid, a: Addr, n: nat) {
    exists fd: nat :: fd < n && OpenOn(w, p, fd, a)
  }

  ghost function HeldBelow(w: World, p: Pid, n: nat): set<Addr> {
    set a | a in w.queues && HoldsBelow(w, p, a, n)
  }

  ghost predicate NamedBelow(table: seq<Descriptor>, a: Addr, n: nat)
    requires n <= |table|
  {
    exists i :: 0 <= i < n && table[i] == OtherFd(a)
  }

  class Kernel {
    var tables: map<Pid, seq<Descriptor>>
    var files: map<Addr, File>
    var queues: map<Addr, Info>
    var buffers: set<Addr>
    var others: map<Addr, int>

    constructor (tables: map<Pid, seq<Descriptor>>, others: map<Addr, int>)
      ensures State() == World(tables, map[], map[], {}, others)
    {
      this.tables, this.others := tables, others;
      files, queues, buffers := map[], map[], {};
    }

    ghost function State(): World
      reads this
    {
      World(tables, files, queues, buffers, others)
    }

    /** The scan for a free descriptor. */
    method FindSlot(pid: Pid) returns (fd: nat)
      requires pid in tables && |tables[pid]| == MAX_OPEN_FILES
      ensures fd == FreeSlot(tables[pid], Null, FIRST_FD)
    {
      fd := FIRST_FD;
      while tables[pid][fd] != Null
        invariant FIRST_FD <= fd < MAX_OPEN_FILES
        invariant FreeSlot(tables[pid], Null, FIRST_FD) == FreeSlot(tables[pid], Null, fd)
        decreases MAX_OPEN_FILES - fd
      {
        fd := fd + 1;
        if fd >= MAX_OPEN_FILES {
          return;
        }
      }
    }

    /** create_msg_queue: the first free descriptor from 3 on, or -ENOMEM for want of one, of
        a page for the queue or of a page for the file object. */
    method CreateMsgQueue(pid: Pid, pages: Pages) returns (code: int)
      requires Inv(State()) && CanStep(State(), Create(pid, pages))
      modifies this
      ensures State() == Next(old(State()), Create(pid, pages))
      ensures code == CreateCode(old(State()), pid, pages)
      ensures code >= 0 ==> OpenOn(State(), pid, code, pages.info) && LowestFree(old(tables)[pid], code)
      ensures OtherSlotsSame(old(State()), State(), pid, code)
    {
      assert |tables[pid]| == MAX_OPEN_FILES;
      hide SlotsGood, MembersGood, ObjectsGood, QueuesGood, OthersGood;
      hide OpenOn, OtherSlotsSame, LowestFree, Created, FreeSlot;
      CreateOpens(State(), pid, pages);
      var fd := FindSlot(pid);
      if fd >= MAX_OPEN_FILES {
        return -ENOMEM;
      }
      if pages.info == NULL {
        return -ENOMEM;
      }
      queues := queues[pages.info := Info(pages.buffer, Created(pid, pages.beyond))];
      if pages.buffer != NULL {
        buffers := buffers + {pages.buffer};
      }
      if pages.file == NULL {
        assert pages.info in queues;
        queues := queues - {pages.info};
        return -ENOMEM;
      }
      files := files[pages.file := File(pages.info, 1)];
      tables := tables[pid := tables[pid][fd := QueueFd(pages.file)]];
      return fd;
    }

    /** The fork handler: the child joins the queue behind each of its descriptors. */
    method AddChildToMsgQueue(child: Pid)
      requires child in tables && |tables[child]| == MAX_OPEN_FILES
      requires forall fd :: 0 <= fd < MAX_OPEN_FILES && tables[child][fd].QueueFd? ==>
                 && tables[child][fd].file in files && files[tables[child][fd].file].queue in queues
                 && |queues[files[tables[child][fd].file].queue].value.members| < MAX_MEMBERS
      requires forall a, fd, fd' :: OpenOn(State(), child, fd, a) && OpenOn(State(), child, fd', a) ==> fd == fd'
      modifies this`queues
      ensures queues == map a | a in old(queues) ::
                if HoldsBelow(old(State()), child, a, MAX_OPEN_FILES)
                then old(queues)[a].(value := DoJoin(old(queues)[a].value, child).queue)
                else old(queues)[a]
    {
      ghost var w := State();
      var fd := 0;
      while fd < MAX_OPEN_FILES
        invariant 0 <= fd <= MAX_OPEN_FILES
        invariant queues.Keys == w.queues.Keys
        invariant forall a :: a in w.queues ==>
                    queues[a] == if HoldsBelow(w, child, a, fd)
                                 then w.queues[a].(value := DoJoin(w.queues[a].value, child).queue)
                                 else w.queues[a]
      {
        var slot := tables[child][fd];
        if slot.QueueFd? {
          var a := files[slot.file].queue;
          assert OpenOn(w, child, fd, a);
          assert !HoldsBelow(w, child, a, fd);
          queues := queues[a := queues[a].(value := DoJoin(queues[a].value, child).queue)];
        }
        assert forall b :: HoldsBelow(w, child, b, fd + 1) <==> HoldsBelow(w, child, b, fd) || OpenOn(w, child, fd, b);
        fd := fd + 1;
      }
    }

    method DoFork(parent: Pid, child: Pid)
      requires Inv(State()) && CanStep(State(), Fork(parent, child))
      modifies this
      ensures State() == Next(old(State()), Fork(parent, child))
    {
      ghost var w := State();
      CopiedTable(w, parent, child);
      hide Inv, Member, OpenOn, HoldsBelow, DoJoin;
      tables := tables[child := tables[parent]];
      AddChildToMsgQueue(child);
    }

    /** msg_queue_close.  A holder of a descriptor is always a member, so the search for
        the caller's slot finds it. */
    method MsgQueueClose(pid: Pid, fd: int) returns (code: int)
      requires Inv(State()) && pid in tables && fd < MAX_OPEN_FILES
      requires fd >= 0 ==> CanStep(State(), CloseQueue(pid, fd))
      modifies this
      ensures State() == if fd < 0 then old(State()) else Next(old(State()), CloseQueue(pid, fd))
      ensures code == if fd >= 0 && old(tables)[pid][fd].QueueFd? then 0 else -EINVAL
    {
      hide MembersGood, OthersGood, Good, LeaveTable, LeaveFiles, LeaveInfos, LeaveBuffers;
      ghost var w := State();
      AllShaped(w);
      if fd < 0 {
        return -EINVAL;
      }
      var slot := tables[pid][fd];
      if !slot.QueueFd? {
        LeaveNothing(w, pid);
        return -EINVAL;
      }
      var a := files[slot.file].queue;
      var left := DoClose(queues[a].value, pid).queue;
      if left.members == [] {
        if queues[a].buffer != NULL {
          assert queues[a].buffer in buffers;
          buffers := buffers - {queues[a].buffer};
        }
        assert a in queues && slot.file in files;
        queues := queues - {a};
        files := files - {slot.file};
      } else {
        queues := queues[a := queues[a].(value := left)];
      }
      tables := tables[pid := tables[pid][fd := Null]];
      LeaveOne(w, pid, fd, a);
      return 0;
    }

    /** The exit handler of the queues. */
    method MsgQueueCleanup(pid: Pid)
      requires Inv(State()) && pid in tables
      modifies this
      ensures State() == LeaveQueues(old(State()), pid, QueuesOf(old(State()), pid))
    {
      hide SlotsGood, MembersGood, ObjectsGood, QueuesGood, OthersGood, LeaveQueues, QueuesOf, Names;
      ghost var w := State();
      AllShaped(w);
      WholeTables(w);
      LeaveNothing(w, pid);
      NothingHeld(w, pid);
      var i := 0;
      while i < MAX_OPEN_FILES
        invariant 0 <= i <= MAX_OPEN_FILES
        invariant pid in tables && |tables[pid]| == MAX_OPEN_FILES && Inv(State())
        invariant HeldBelow(w, pid, i) <= QueuesOf(w, pid)
        invariant State() == LeaveQueues(w, pid, HeldBelow(w, pid, i))
      {
        HeldGrows(w, pid, i);
        var slot := tables[pid][i];
        if slot.QueueFd? {
          ghost var s, t := HeldBelow(w, pid, i), TargetOf(State(), pid, i);
          SlotStays(w, pid, s, i);
          LeaveTwice(w, pid, s, t);
          QueueSlotSound(State(), pid, i);
          NextKeeps(State(), CloseQueue(pid, i));
          AllShaped(State());
          LeaveTables(State(), pid, t);
          var code := MsgQueueClose(pid, i);
        } else {
          SlotGone(w, pid, i);
        }
        i := i + 1;
      }
      AllHeld(w, pid);
    }

    /** The exit handler of the file layer: it drops one reference per descriptor and frees
        the objects that reach zero. */
    method FileExit(pid: Pid)
      requires pid in tables && |tables[pid]| == MAX_OPEN_FILES
      requires forall i :: 0 <= i < MAX_OPEN_FILES ==> !tables[pid][i].QueueFd?
      requires forall i :: 0 <= i < MAX_OPEN_FILES && tables[pid][i].OtherFd? ==>
                 tables[pid][i].file in others && others[tables[pid][i].file] == 1
      requires forall i, j :: 0 <= i < j < MAX_OPEN_FILES && tables[pid][i].OtherFd? ==>
                 tables[pid][i] != tables[pid][j]
      modifies this`others
      ensures others == old(others) - NamesOf(old(State()), pid)
    {
      ghost var was := others;
      var table := tables[pid];
      var i := 0;
      while i < MAX_OPEN_FILES
        invariant 0 <= i <= MAX_OPEN_FILES
        invariant forall a :: a in others <==> a in was && !NamedBelow(table, a, i)
        invariant forall a :: a in others ==> others[a] == was[a]
      {
        if table[i].OtherFd? {
          var a := table[i].file;
          assert !NamedBelow(table, a, i);
          others := others[a := others[a] - 1];
          if others[a] == 0 {
            assert a in others;
            others := others - {a};
          }
        }
        assert forall a :: NamedBelow(table, a, i + 1) <==> NamedBelow(table, a, i) || table[i] == OtherFd(a);
        i := i + 1;
      }
      assert forall a :: NamedBelow(table, a, MAX_OPEN_FILES) <==> a in NamesOf(old(State()), pid);
    }

    method DoExit(pid: Pid)
      requires Inv(State()) && CanStep(State(), Exit(pid))
      modifies this
      ensures State() == Next(old(State()), Exit(pid))
    {
      hide Inv, LeaveTable, LeaveFiles, LeaveInfos, LeaveBuffers, NamesOf;
      ghost var w := State();
      CleanTable(w, pid);
      MsgQueueCleanup(pid);
      FileExit(pid);
      assert pid in tables;
      tables := tables - {pid};
    }

    /** An open of the file layer, past its checks: the page of the new object takes the
        first free descriptor from 3 on. */
    method OpenFile(pid: Pid, file: Addr) returns (code: int)
      requires Inv(State()) && CanStep(State(), Step.OpenFile(pid, file))
      modifies this`tables, this`others
      ensures State() == Next(old(State()), Step.OpenFile(pid, file))
      ensures code >= 0 ==> Names(State(), pid, code, file) && LowestFree(old(tables)[pid], code)
      ensures code < 0 ==> code == -ENOMEM && tables == old(tables)
      ensures code < 0 <==> forall k :: FIRST_FD <= k < MAX_OPEN_FILES ==> old(tables)[pid][k] != Null
    {
      others := others[file := 1];
      var fd := FindSlot(pid);
      if fd >= MAX_OPEN_FILES {
        return -ENOMEM;
      }
      tables := tables[pid := tables[pid][fd := OtherFd(file)]];
      return fd;
    }

    /** A close of the file layer; a queue's file object has no close handler. */
    method CloseFile(pid: Pid, fd: nat) returns (refused: bool)
      requires Inv(State()) && CanStep(State(), Step.CloseFile(pid, fd))
      modifies this`tables, this`others
      ensures State() == Next(old(State()), Step.CloseFile(pid, fd))
      ensures refused <==> !old(tables)[pid][fd].OtherFd?
    {
      var slot := tables[pid][fd];
      if !slot.OtherFd? {
        return true;
      }
      assert Names(State(), pid, fd, slot.file);
      tables := tables[pid := tables[pid][fd := Null]];
      others := others[slot.file := others[slot.file] - 1];
      if others[slot.file] == 0 {
        assert slot.file in others;
        others := others - {slot.file};
      }
      return false;
    }

    /** Send, receive, block and count through a descriptor; without a queue behind it
        they answer -EINVAL. */
    method UseQueue(pid: Pid, fd: nat, op: Op) returns (code: int, got: seq<Message>)
      requires Inv(State()) && CanStep(State(), Use(pid, fd, op))
      modifies this`queues
      ensures State() == Next(old(State()), Use(pid, fd, op))
      ensures !tables[pid][fd].QueueFd? ==> code == -EINVAL && got == []
      ensures tables[pid][fd].QueueFd? ==>
                var r := Perform(old(queues)[files[tables[pid][fd].file].queue].value, op);
                code == r.code && got == r.got
    {
      var slot := tables[pid][fd];
      if !slot.QueueFd? {
        return -EINVAL, [];
      }
      var a := files[slot.file].queue;
      var r := Perform(queues[a].value, op);
      queues := queues[a := queues[a].(value := r.queue)];
      return r.code, r.got;
    }

    /** One step of the kernel. */
    method Execute(step: Step)
      requires Inv(State()) && CanStep(State(), step)
      modifies this
      ensures State() == Next(old(State()), step)
    {
      hide SlotsGood, MembersGood, ObjectsGood, QueuesGood, OthersGood, Next;
      match step {
        case Create(p, pages) => var code := CreateMsgQueue(p, pages);
        case Fork(p, child) => DoFork(p, child);
        case CloseQueue(p, fd) => var code := MsgQueueClose(p, fd);
        case Exit(p) => DoExit(p);
        case Use(p, fd, op) => var code, got := UseQueue(p, fd, op);
        case OpenFile(p, file) => var code := OpenFile(p, file);
        case CloseFile(p, fd) => var refused := CloseFile(p, fd);
      }
    }

    /** A run of the kernel. */
    method ExecuteAll(steps: seq<Step>)
      requires Inv(State()) && Follows(State(), steps)
      modifies this
      ensures State() == After(old(State()), steps)
    {
      hide Inv, CanStep, Next, Follows, After;
      ghost var w := State();
      var k := 0;
      while k < |steps|
        invariant 0 <= k <= |steps|
        invariant Inv(State()) && Follows(State(), steps[k..]) && After(State(), steps[k..]) == After(w, steps)
      {
        FirstStep(State(), steps[k..]);
        assert steps[k..][0] == steps[k] && steps[k..][1..] == steps[k + 1..];
        Execute(steps[k]);
        k := k + 1;
      }
      FirstStep(State(), steps[k..]);
    }
  }

  lemma FirstStep(w: World, steps: seq<Step>)
    requires Inv(w) && Follows(w, steps)
    ensures steps == [] ==> After(w, steps) == w
    ensures steps != [] ==>
              && CanStep(w, steps[0]) && Inv(Next(w, steps[0])) && Follows(Next(w, steps[0]), steps[1..])
              && After(w, steps) == After(Next(w, steps[0]), steps[1..])
  {
    hide Inv, CanStep, Next;
    if steps != [] {
      var rest := steps[1..];
      assert CanStep(w, steps[0]);
      NextKeeps(w, steps[0]);
    }
  }

  // ---- Lemmas about leaving queues one at a time ----

  lemma HoldersAreMembers(w: World, p: Pid, a: Addr)
    requires Inv(w) && p in w.tables
    ensures HoldsBelow(w, p, a, MAX_OPEN_FILES) <==> Member(w, p, a)
  {
    if Member(w, p, a) {
      assert Holds(w, p, a);
      var fd: nat :| OpenOn(w, p, fd, a);
    }
  }

  /** The child's copy of its parent's descriptors, before the fork handler runs. */
  lemma CopiedTable(w: World, parent: Pid, child: Pid)
    requires Inv(w) && CanFork(w, parent, child)
    ensures var w1 := w.(tables := w.tables[child := w.tables[parent]]);
            && |w.tables[parent]| == MAX_OPEN_FILES
            && (forall fd :: 0 <= fd < MAX_OPEN_FILES && w.tables[parent][fd].QueueFd? ==>
                  && w.tables[parent][fd].file in w.files && w.files[w.tables[parent][fd].file].queue in w.queues
                  && |w.queues[w.files[w.tables[parent][fd].file].queue].value.members| < MAX_MEMBERS)
            && (forall a, fd, fd' :: OpenOn(w1, child, fd, a) && OpenOn(w1, child, fd', a) ==> fd == fd')
            && (forall a :: a in w.queues ==>
                  (HoldsBelow(w1, child, a, MAX_OPEN_FILES) <==> parent in w.queues[a].value.members))
  {
    var w1 := w.(tables := w.tables[child := w.tables[parent]]);
    assert forall a, fd :: OpenOn(w1, child, fd, a) <==> OpenOn(w, parent, fd, a);
    forall fd | 0 <= fd < MAX_OPEN_FILES && w.tables[parent][fd].QueueFd?
      ensures Member(w, parent, w.files[w.tables[parent][fd].file].queue)
    {
    }
    forall a | a in w.queues
      ensures HoldsBelow(w1, child, a, MAX_OPEN_FILES) <==> parent in w.queues[a].value.members
    {
      HoldersAreMembers(w, parent, a);
      assert HoldsBelow(w, parent, a, MAX_OPEN_FILES) <==> HoldsBelow(w1, child, a, MAX_OPEN_FILES);
    }
  }

  lemma AllHeld(w: World, p: Pid)
    requires Inv(w) && p in w.tables
    ensures HeldBelow(w, p, MAX_OPEN_FILES) == QueuesOf(w, p)
  {
    forall a ensures a in HeldBelow(w, p, MAX_OPEN_FILES) <==> a in QueuesOf(w, p) {
      HoldersAreMembers(w, p, a);
    }
  }

  lemma InNames(w: World, p: Pid, a: Addr)
    requires p in w.tables
    ensures a in NamesOf(w, p) <==> exists fd: nat :: Names(w, p, fd, a)
  {
    if fd: nat :| Names(w, p, fd, a) {
      assert w.tables[p][fd].OtherFd? && w.tables[p][fd].file == a;
    }
    if a in NamesOf(w, p) {
      var fd :| 0 <= fd < |w.tables[p]| && w.tables[p][fd].OtherFd? && w.tables[p][fd].file == a;
      assert Names(w, p, fd, a);
    }
  }

  /** What the exit handler of the queues leaves for the one of the file layer. */
  lemma CleanTable(w: World, p: Pid)
    requires Inv(w) && p in w.tables && AllSound(w, p)
    ensures var w1 := LeaveQueues(w, p, QueuesOf(w, p)); var table := w1.tables[p];
            && |table| == MAX_OPEN_FILES && NamesOf(w1, p) == NamesOf(w, p) && w1.others == w.others
            && (forall fd :: 0 <= fd < MAX_OPEN_FILES ==> !table[fd].QueueFd?)
            && (forall fd :: 0 <= fd < MAX_OPEN_FILES && table[fd].OtherFd? ==>
                  table[fd].file in w.others && w.others[table[fd].file] == 1)
            && (forall i, j :: 0 <= i < j < MAX_OPEN_FILES && table[i].OtherFd? ==> table[i] != table[j])
  {
    AllShaped(w);
    var w1 := LeaveQueues(w, p, QueuesOf(w, p));
    var table := w1.tables[p];
    LeaveOthers(w, p, QueuesOf(w, p));
    forall fd | 0 <= fd < MAX_OPEN_FILES && table[fd].OtherFd?
      ensures Names(w, p, fd, table[fd].file) && table[fd].file in w.others && w.others[table[fd].file] == 1
    {
      assert Names(w1, p, fd, table[fd].file);
      assert Sound(w, p, fd);
    }
    forall a ensures a in NamesOf(w1, p) <==> a in NamesOf(w, p) {
      InNames(w, p, a);
      InNames(w1, p, a);
    }
    forall fd | 0 <= fd < MAX_OPEN_FILES ensures !LeaveQueues(w, p, QueuesOf(w, p)).tables[p][fd].QueueFd? {
      CleanupClosesAll(w, p, fd);
    }
  }

  lemma LeaveNothing(w: World, p: Pid)
    requires Inv(w) && p in w.tables
    ensures LeaveQueues(w, p, {}) == w
  {
    assert LeaveQueues(w, p, {}).tables[p] == w.tables[p];
  }

  lemma LeaveOne(w: World, p: Pid, fd: nat, a: Addr)
    requires Inv(w) && p in w.tables && OpenOn(w, p, fd, a)
    ensures var q := DoClose(w.queues[a].value, p).queue;
            q.members == [] <==> w.queues[a].value.members == [p]
    ensures LeaveQueues(w, p, {a}).tables == w.tables[p := w.tables[p][fd := Null]]
    ensures w.queues[a].value.members == [p] ==>
              var w' := LeaveQueues(w, p, {a});
              && w'.files == w.files - {w.tables[p][fd].file}
              && w'.queues == w.queues - {a}
              && w'.buffers == w.buffers - {w.queues[a].buffer}
    ensures w.queues[a].value.members != [p] ==>
              var w' := LeaveQueues(w, p, {a});
              && w'.files == w.files
              && w'.queues == w.queues[a := w.queues[a].(value := DoClose(w.queues[a].value, p).queue)]
              && w'.buffers == w.buffers
  {
    LeaveOneSlots(w, p, fd, a);
    LeaveOneRest(w, p, w.tables[p][fd].file, a);
  }

  lemma LeaveOneSlots(w: World, p: Pid, fd: nat, a: Addr)
    requires SlotsGood(w) && MembersGood(w) && Shaped(w) && p in w.tables && OpenOn(w, p, fd, a)
    ensures LeaveQueues(w, p, {a}).tables == w.tables[p := w.tables[p][fd := Null]]
  {
    forall i | 0 <= i < MAX_OPEN_FILES
      ensures ClosedSlot(w, {a}, w.tables[p][i]) == if i == fd then Null else w.tables[p][i]
    {
      assert OpenOn(w, p, i, a) ==> i == fd;
    }
    assert LeaveQueues(w, p, {a}).tables[p] == w.tables[p][fd := Null];
  }

  lemma LeaveOneRest(w: World, p: Pid, f: Addr, a: Addr)
    requires ObjectsGood(w) && Shaped(w) && f in w.files && w.files[f].queue == a
    ensures w.queues[a].value.members == [p] ==>
              && LeaveFiles(w, p, {a}) == w.files - {f}
              && LeaveInfos(w, p, {a}) == w.queues - {a}
              && LeaveBuffers(w, p, {a}) == w.buffers - {w.queues[a].buffer}
    ensures w.queues[a].value.members != [p] ==>
              && LeaveFiles(w, p, {a}) == w.files
              && LeaveInfos(w, p, {a}) == w.queues[a := w.queues[a].(value := DoClose(w.queues[a].value, p).queue)]
              && LeaveBuffers(w, p, {a}) == w.buffers
  {
    hide LeaveInfos, DoClose;
    if w.queues[a].value.members == [p] {
      assert forall b :: Dies(w, p, {a}, b) <==> b == a;
      LeaveOneFrees(w, p, a);
      hide Dies;
      assert LeaveFiles(w, p, {a}) == w.files - {f};
      assert (set b | b in w.queues && Dies(w, p, {a}, b) :: w.queues[b].buffer) == {w.queues[a].buffer};
    } else {
      assert forall b :: !Dies(w, p, {a}, b);
      LeaveOneStays(w, p, a);
      hide Dies;
      assert LeaveFiles(w, p, {a}) == w.files;
      assert LeaveBuffers(w, p, {a}) == w.buffers;
    }
  }

  lemma LeaveOneFrees(w: World, p: Pid, a: Addr)
    requires Shaped(w) && forall b :: Dies(w, p, {a}, b) <==> b == a
    ensures LeaveInfos(w, p, {a}) == w.queues - {a}
  {
    hide Dies, DoClose;
  }

  lemma LeaveOneStays(w: World, p: Pid, a: Addr)
    requires Shaped(w) && a in w.queues && forall b :: !Dies(w, p, {a}, b)
    ensures LeaveInfos(w, p, {a}) == w.queues[a := w.queues[a].(value := DoClose(w.queues[a].value, p).queue)]
  {
    var m := LeaveInfos(w, p, {a});
    forall b | b in m ensures m[b] == w.queues[a := w.queues[a].(value := DoClose(w.queues[a].value, p).queue)][b] {
    }
  }

  lemma WholeTables(w: World)
    requires SlotsGood(w)
    ensures forall p :: p in w.tables ==> |w.tables[p]| == MAX_OPEN_FILES
  {
  }

  lemma NothingHeld(w: World, p: Pid)
    ensures HeldBelow(w, p, 0) == {}
  {
  }

  lemma QueueSlotSound(w: World, p: Pid, fd: nat)
    requires p in w.tables && fd < |w.tables[p]| && w.tables[p][fd].QueueFd?
    ensures Sound(w, p, fd)
  {
  }

  lemma LeaveTables(w: World, p: Pid, s: set<Addr>)
    requires Shaped(w) && p in w.tables
    ensures var tables := LeaveQueues(w, p, s).tables; p in tables && |tables[p]| == |w.tables[p]|
  {
  }

  lemma HeldGrows(w: World, p: Pid, i: nat)
    requires Inv(w) && p in w.tables && i < MAX_OPEN_FILES
    ensures HeldBelow(w, p, i + 1) == HeldBelow(w, p, i) + TargetOf(w, p, i)
    ensures TargetOf(w, p, i) <= QueuesOf(w, p)
    ensures TargetOf(w, p, i) !! HeldBelow(w, p, i)
  {
    forall a ensures a in TargetOf(w, p, i) <==> OpenOn(w, p, i, a) {
    }
    forall a ensures HoldsBelow(w, p, a, i + 1) <==> HoldsBelow(w, p, a, i) || OpenOn(w, p, i, a) {
    }
  }

  lemma SlotStays(w: World, p: Pid, s: set<Addr>, i: nat)
    requires Inv(w) && p in w.tables && i < MAX_OPEN_FILES && s <= QueuesOf(w, p)
    requires TargetOf(w, p, i) !! s && Inv(LeaveQueues(w, p, s))
    ensures TargetOf(LeaveQueues(w, p, s), p, i) == TargetOf(w, p, i)
  {
  }

  lemma SlotGone(w: World, p: Pid, i: nat)
    requires Inv(w) && p in w.tables && i < MAX_OPEN_FILES
    requires !LeaveQueues(w, p, HeldBelow(w, p, i)).tables[p][i].QueueFd?
    ensures HeldBelow(w, p, i + 1) == HeldBelow(w, p, i)
  {
    HeldGrows(w, p, i);
  }

  /** Leaving queues in two goes is leaving them all at once. */
  lemma LeaveTwice(w: World, p: Pid, s: set<Addr>, t: set<Addr>)
    requires Inv(w) && p in w.tables && s <= QueuesOf(w, p) && t <= QueuesOf(w, p) && s !! t
    requires Inv(LeaveQueues(w, p, s))
    ensures LeaveQueues(LeaveQueues(w, p, s), p, t) == LeaveQueues(w, p, s + t)
  {
    LeaveTwiceDies(w, p, s, t);
    LeaveTwiceSlots(w, p, s, t);
    LeaveTwiceRest(w, p, s, t);
  }

  lemma LeaveTwiceRest(w: World, p: Pid, s: set<Addr>, t: set<Addr>)
    requires Shaped(w) && p in w.tables && s !! t && Shaped(LeaveQueues(w, p, s)) && ObjectsGood(w)
    requires forall a :: Dies(w, p, s + t, a) <==> Dies(w, p, s, a) || Dies(LeaveQueues(w, p, s), p, t, a)
    ensures LeaveFiles(LeaveQueues(w, p, s), p, t) == LeaveFiles(w, p, s + t)
    ensures LeaveInfos(LeaveQueues(w, p, s), p, t) == LeaveInfos(w, p, s + t)
    ensures LeaveBuffers(LeaveQueues(w, p, s), p, t) == LeaveBuffers(w, p, s + t)
  {
    assert LeaveFiles(LeaveQueues(w, p, s), p, t) == LeaveFiles(w, p, s + t);
    LeaveTwiceBuffers(w, p, s, t);
    LeaveTwiceInfos(w, p, s, t);
  }

  lemma LeaveTwiceInfos(w: World, p: Pid, s: set<Addr>, t: set<Addr>)
    requires Shaped(w) && p in w.tables && s !! t && Shaped(LeaveQueues(w, p, s))
    requires forall a :: Dies(w, p, s + t, a) <==> Dies(w, p, s, a) || Dies(LeaveQueues(w, p, s), p, t, a)
    ensures LeaveInfos(LeaveQueues(w, p, s), p, t) == LeaveInfos(w, p, s + t)
  {
    var w1 := LeaveQueues(w, p, s);
    var m, m2 := LeaveInfos(w1, p, t), LeaveInfos(w, p, s + t);
    forall a ensures a in m <==> a in m2 {
    }
    forall a | a in m ensures m[a] == m2[a] {
      LeaveTwiceInfo(w, p, s, t, a);
    }
  }

  lemma LeaveTwiceInfo(w: World, p: Pid, s: set<Addr>, t: set<Addr>, a: Addr)
    requires Shaped(w) && p in w.tables && s !! t && Shaped(LeaveQueues(w, p, s))
    requires a in w.queues && !Dies(w, p, s, a)
    ensures ClosedInfo(LeaveQueues(w, p, s), p, t, a) == ClosedInfo(w, p, s + t, a)
  {
    assert LeaveQueues(w, p, s).queues[a] == ClosedInfo(w, p, s, a);
  }

  lemma LeaveTwiceBuffers(w: World, p: Pid, s: set<Addr>, t: set<Addr>)
    requires Shaped(w) && p in w.tables && s !! t && ObjectsGood(w)
    requires forall a :: Dies(w, p, s + t, a) <==> Dies(w, p, s, a) || Dies(LeaveQueues(w, p, s), p, t, a)
    ensures LeaveBuffers(LeaveQueues(w, p, s), p, t) == LeaveBuffers(w, p, s + t)
  {
    var w1 := LeaveQueues(w, p, s);
    forall a | a in w1.queues ensures w1.queues[a].buffer == w.queues[a].buffer {
    }
  }

  lemma LeaveTwiceDies(w: World, p: Pid, s: set<Addr>, t: set<Addr>)
    requires Shaped(w) && p in w.tables && s !! t
    ensures forall a :: Dies(w, p, s + t, a) <==> Dies(w, p, s, a) || Dies(LeaveQueues(w, p, s), p, t, a)
  {
  }

  lemma LeaveTwiceSlots(w: World, p: Pid, s: set<Addr>, t: set<Addr>)
    requires Inv(w) && p in w.tables && s <= QueuesOf(w, p) && t <= QueuesOf(w, p) && s !! t
    requires Inv(LeaveQueues(w, p, s))
    ensures LeaveQueues(LeaveQueues(w, p, s), p, t).tables == LeaveQueues(w, p, s + t).tables
  {
    hide MembersGood, ObjectsGood, Good, LeaveInfos, LeaveBuffers, Holds, Member;
    AllShaped(w);
    AllShaped(LeaveQueues(w, p, s));
    var w1 := LeaveQueues(w, p, s);
    forall i | 0 <= i < MAX_OPEN_FILES
      ensures ClosedSlot(w1, t, w1.tables[p][i]) == ClosedSlot(w, s + t, w.tables[p][i])
    {
      var slot := w.tables[p][i];
      if slot.QueueFd? {
        LeaveOpen(w, p, s, p, i, w.files[slot.file].queue);
      }
    }
    assert LeaveQueues(w1, p, t).tables[p] == LeaveQueues(w, p, s + t).tables[p];
  }
}
