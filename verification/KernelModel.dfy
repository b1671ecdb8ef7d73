/**
  Processes, descriptor tables and the memory of their message queues.

  A pointer is an address and an allocated object is an entry of a map: freeing an
  object takes its address out of the map, so every use of a freed object would be a
  lookup outside the map's domain.  The code that frees asserts that the address is there.
 */
module KernelModel {
  import opened Common
  import opened QueueModel
  import opened QueueRuns

  type Addr = nat

  const NULL: Addr := 0

  /** A slot holds the address of a file object, opened as a queue or by the file layer. */
  datatype Descriptor = Null | QueueFd(file: Addr) | OtherFd(file: Addr)

  datatype File = File(queue: Addr, refCount: int)

  datatype Info = Info(buffer: Addr, value: Queue)

  /** `others` has the reference counts of the file layer's objects, and a queue whose
      buffer could not be had has the buffer NULL. */
  datatype World = World(
    tables: map<Pid, seq<Descriptor>>,
    files: map<Addr, File>,
    queues: map<Addr, Info>,
    buffers: set<Addr>,
    others: map<Addr, int>)

  /** Descriptor `fd` of `p` is open on queue `a`. */
  ghost predicate OpenOn(w: World, p: Pid, fd: nat, a: Addr) {
    && p in w.tables && fd < |w.tables[p]|
    && w.tables[p][fd].QueueFd? && w.tables[p][fd].file in w.files
    && w.files[w.tables[p][fd].file].queue == a
  }

  ghost predicate Holds(w: World, p: Pid, a: Addr) {
    exists fd: nat :: OpenOn(w, p, fd, a)
  }

  ghost predicate Member(w: World, p: Pid, a: Addr) {
    a in w.queues && p in w.queues[a].value.members
  }

  // ---- The invariant ----

  /** No descriptor dangles, and whoever has one on a queue is a member of it. */
  ghost predicate SlotsGood(w: World) {
    && (forall p :: p in w.tables ==> |w.tables[p]| == MAX_OPEN_FILES)
    && (forall p, fd :: p in w.tables && 0 <= fd < MAX_OPEN_FILES && w.tables[p][fd].QueueFd? ==>
          w.tables[p][fd].file in w.files && Member(w, p, w.files[w.tables[p][fd].file].queue))
  }

  /** Every member has a descriptor, and only one. */
  ghost predicate MembersGood(w: World) {
    && (forall a, p :: Member(w, p, a) ==> Holds(w, p, a))
    && (forall a, p, fd, fd' :: OpenOn(w, p, fd, a) && OpenOn(w, p, fd', a) ==> fd == fd')
  }

  /** Queues and their file objects correspond one to one, and no two queues share a buffer. */
  ghost predicate ObjectsGood(w: World) {
    && (forall f :: f in w.files ==> w.files[f].queue in w.queues && w.files[f].refCount == 1)
    && (forall f, g :: f in w.files && g in w.files && w.files[f].queue == w.files[g].queue ==> f == g)
    && NULL !in w.buffers
    && (forall a :: a in w.queues ==> w.queues[a].buffer == NULL || w.queues[a].buffer in w.buffers)
    && (forall a, b :: a in w.queues && b in w.queues && w.queues[a].buffer == w.queues[b].buffer != NULL ==> a == b)
  }

  /** A queue in memory is well-formed and has at least one member. */
  ghost predicate QueuesGood(w: World) {
    forall a :: a in w.queues ==> Good(w.queues[a].value) && w.queues[a].value.members != []
  }

  ghost predicate Shaped(w: World) {
    forall a :: a in w.queues ==> Shape(w.queues[a].value)
  }

  /** Slot `fd` of `p` names the file-layer object at `a`, allocated or not. */
  ghost predicate Names(w: World, p: Pid, fd: nat, a: Addr) {
    p in w.tables && fd < |w.tables[p]| && w.tables[p][fd] == OtherFd(a)
  }

  ghost predicate Named(w: World, a: Addr) {
    exists p: Pid, fd: nat :: Names(w, p, fd, a)
  }

  /** File-layer objects are counted once and named at most once by a process, and no slot
      that names one refers to the file object of a queue. */
  ghost predicate OthersGood(w: World) {
    && (forall a :: a in w.others ==> w.others[a] == 1 && a !in w.files)
    && (forall p, fd, a :: Names(w, p, fd, a) ==> a !in w.files)
    && (forall p, fd, fd', a :: Names(w, p, fd, a) && Names(w, p, fd', a) ==> fd == fd')
  }

  ghost predicate Inv(w: World) {
    SlotsGood(w) && MembersGood(w) && ObjectsGood(w) && QueuesGood(w) && OthersGood(w)
  }

  // ---- The steps ----

  /** The pages the allocator hands out for a new queue; NULL says that it has none. */
  datatype Pages = Pages(info: Addr, buffer: Addr, file: Addr, beyond: seq<int>)

  /** A page for a file object is not in use and no slot names it any more. */
  ghost predicate FreshFile(w: World, file: Addr) {
    file !in w.files && file !in w.others && !Named(w, file)
  }

  ghost predicate FreshPages(w: World, pages: Pages) {
    && (pages.info == NULL || pages.info !in w.queues)
    && (pages.buffer == NULL || pages.buffer !in w.buffers)
    && (pages.file == NULL || FreshFile(w, pages.file))
    && |pages.beyond| == MEMORY_CELLS - TABLE_CELLS
  }

  ghost function CreateCode(w: World, p: Pid, pages: Pages): int
    requires p in w.tables && |w.tables[p]| == MAX_OPEN_FILES
  {
    var fd := FreeSlot(w.tables[p], Null, FIRST_FD);
    if fd == MAX_OPEN_FILES || pages.info == NULL || pages.file == NULL then -ENOMEM else fd
  }

  /** The create gets as far as the page for the file object. */
  ghost predicate AsksForFile(w: World, p: Pid, pages: Pages)
    requires p in w.tables && |w.tables[p]| == MAX_OPEN_FILES
  {
    FreeSlot(w.tables[p], Null, FIRST_FD) < MAX_OPEN_FILES && pages.info != NULL
  }

  /** When there is no page for the file object the queue is freed and its buffer is not;
      when there is none for the buffer nobody notices. */
  ghost function CreateQueue(w: World, p: Pid, pages: Pages): World
    requires p in w.tables && |w.tables[p]| == MAX_OPEN_FILES && |pages.beyond| == MEMORY_CELLS - TABLE_CELLS
  {
    var fd := CreateCode(w, p, pages);
    var buffers := if AsksForFile(w, p, pages) && pages.buffer != NULL then w.buffers + {pages.buffer} else w.buffers;
    if fd < 0 then w.(buffers := buffers)
    else World(w.tables[p := w.tables[p][fd := QueueFd(pages.file)]],
               w.files[pages.file := File(pages.info, 1)],
               w.queues[pages.info := Info(pages.buffer, Created(p, pages.beyond))],
               buffers, w.others)
  }

  /** The child gets its parent's descriptors and joins exactly its parent's queues. */
  ghost function ForkProcess(w: World, parent: Pid, child: Pid): World
    requires parent in w.tables
  {
    w.(tables := w.tables[child := w.tables[parent]],
       queues := map a | a in w.queues :: if parent in w.queues[a].value.members
                                          then w.queues[a].(value := DoJoin(w.queues[a].value, child).queue)
                                          else w.queues[a])
  }

  /** Nobody but `p` is left in queue `a` of `s`. */
  ghost predicate Dies(w: World, p: Pid, s: set<Addr>, a: Addr) {
    a in s && a in w.queues && w.queues[a].value.members == [p]
  }

  ghost function ClosedSlot(w: World, s: set<Addr>, slot: Descriptor): Descriptor {
    if slot.QueueFd? && slot.file in w.files && w.files[slot.file].queue in s then Null else slot
  }

  ghost function ClosedInfo(w: World, p: Pid, s: set<Addr>, a: Addr): Info
    requires a in w.queues && Shape(w.queues[a].value)
  {
    if a in s then w.queues[a].(value := DoClose(w.queues[a].value, p).queue) else w.queues[a]
  }

  ghost function LeaveTable(w: World, p: Pid, s: set<Addr>): seq<Descriptor>
    requires p in w.tables
  {
    seq(|w.tables[p]|, i requires 0 <= i < |w.tables[p]| => ClosedSlot(w, s, w.tables[p][i]))
  }

  ghost function LeaveFiles(w: World, p: Pid, s: set<Addr>): map<Addr, File> {
    map f | f in w.files && !Dies(w, p, s, w.files[f].queue) :: w.files[f]
  }

  ghost function LeaveInfos(w: World, p: Pid, s: set<Addr>): map<Addr, Info>
    requires Shaped(w)
  {
    map a | a in w.queues && !Dies(w, p, s, a) :: ClosedInfo(w, p, s, a)
  }

  ghost function LeaveBuffers(w: World, p: Pid, s: set<Addr>): set<Addr> {
    w.buffers - set a | a in w.queues && Dies(w, p, s, a) :: w.queues[a].buffer
  }

  /** `p` leaves all queues in `s`; those it was the last member of are freed, with
      their buffers and file objects. */
  ghost function LeaveQueues(w: World, p: Pid, s: set<Addr>): World
    requires p in w.tables && Shaped(w)
  {
    World(w.tables[p := LeaveTable(w, p, s)], LeaveFiles(w, p, s), LeaveInfos(w, p, s), LeaveBuffers(w, p, s), w.others)
  }

  /** The queues `p` is a member of. */
  ghost function QueuesOf(w: World, p: Pid): set<Addr> {
    set a | a in w.queues && p in w.queues[a].value.members
  }

  /** The file-layer objects that slots of `p` name. */
  ghost function NamesOf(w: World, p: Pid): set<Addr>
    requires p in w.tables
  {
    set fd | 0 <= fd < |w.tables[p]| && w.tables[p][fd].OtherFd? :: w.tables[p][fd].file
  }

  /** `p` leaves its queues, and each of its file-layer objects has one reference less. */
  ghost function ExitProcess(w: World, p: Pid): World
    requires p in w.tables && Shaped(w)
  {
    var left := LeaveQueues(w, p, QueuesOf(w, p));
    left.(tables := left.tables - {p}, others := w.others - NamesOf(w, p))
  }

  /** What the descriptor refers to, if it is open on a queue. */
  ghost function TargetOf(w: World, p: Pid, fd: nat): set<Addr>
    requires SlotsGood(w) && p in w.tables && fd < MAX_OPEN_FILES
  {
    var slot := w.tables[p][fd];
    if slot.QueueFd? then {w.files[slot.file].queue} else {}
  }

  /** A new file-layer object takes the first free slot, or none. */
  ghost function OpenSlot(w: World, p: Pid, file: Addr): World
    requires p in w.tables && |w.tables[p]| == MAX_OPEN_FILES
  {
    var fd := FreeSlot(w.tables[p], Null, FIRST_FD);
    if fd == MAX_OPEN_FILES then w.(others := w.others[file := 1])
    else w.(tables := w.tables[p := w.tables[p][fd := OtherFd(file)]], others := w.others[file := 1])
  }

  /** One reference less, and the object is freed with the last one the count knows of. */
  function Dropped(others: map<Addr, int>, a: Addr): map<Addr, int>
    requires a in others
  {
    if others[a] == 1 then others - {a} else others[a := others[a] - 1]
  }

  /** The file layer gives a slot up, and refuses to close a queue's. */
  ghost function CloseSlot(w: World, p: Pid, fd: nat): World
    requires p in w.tables && fd < |w.tables[p]|
    requires w.tables[p][fd].OtherFd? ==> w.tables[p][fd].file in w.others
  {
    var slot := w.tables[p][fd];
    if !slot.OtherFd? then w
    else w.(tables := w.tables[p := w.tables[p][fd := Null]], others := Dropped(w.others, slot.file))
  }

  /** `OpenFile` and `CloseFile` are the file layer's. */
  datatype Step =
    | Create(p: Pid, pages: Pages)
    | Fork(p: Pid, child: Pid)
    | CloseQueue(p: Pid, fd: nat)
    | Exit(p: Pid)
    | Use(p: Pid, fd: nat, op: Op)
    | OpenFile(p: Pid, file: Addr)
    | CloseFile(p: Pid, fd: nat)

  predicate Local(op: Op, p: Pid) {
    (op.Send? || op.Receive? || op.Block? || op.Count?) && op.pid == p
  }

  ghost predicate CanFork(w: World, p: Pid, child: Pid) {
    && p in w.tables && child !in w.tables
    && forall a :: a in w.queues && p in w.queues[a].value.members ==> |w.queues[a].value.members| < MAX_MEMBERS
  }

  /** Slot `fd` of `p` does not name an object that was freed. */
  ghost predicate Sound(w: World, p: Pid, fd: nat) {
    forall a :: Names(w, p, fd, a) ==> a in w.others
  }

  ghost predicate AllSound(w: World, p: Pid) {
    forall fd: nat :: Sound(w, p, fd)
  }

  /** What the code takes for granted: fresh pages, a fresh pid and a free member slot in
      every queue of a forking parent, a buffer with room for a send, and no look at a
      file object that was freed. */
  ghost predicate CanStep(w: World, step: Step)
    requires Inv(w)
  {
    step.p in w.tables &&
    match step
    case Create(p, pages) => FreshPages(w, pages)
    case Fork(p, child) => CanFork(w, p, child) && AllSound(w, p)
    case CloseQueue(p, fd) => fd < MAX_OPEN_FILES && Sound(w, p, fd)
    case Exit(p) => AllSound(w, p)
    case OpenFile(p, file) => file != NULL && FreshFile(w, file)
    case CloseFile(p, fd) => fd < MAX_OPEN_FILES && Sound(w, p, fd)
    case Use(p, fd, op) =>
      && fd < MAX_OPEN_FILES && Local(op, p) && Sound(w, p, fd)
      && forall a :: a in TargetOf(w, p, fd) ==>
           Enabled(w.queues[a].value, op) && (op.Send? ==> w.queues[a].buffer != NULL)
  }

  ghost function UseQueue(w: World, p: Pid, fd: nat, op: Op): World
    requires Inv(w) && p in w.tables && fd < MAX_OPEN_FILES
  {
    var slot := w.tables[p][fd];
    if !slot.QueueFd? then w
    else
      var a := w.files[slot.file].queue;
      w.(queues := w.queues[a := w.queues[a].(value := Perform(w.queues[a].value, op).queue)])
  }

  ghost function Next(w: World, step: Step): World
    requires Inv(w) && CanStep(w, step)
  {
    match step
    case Create(p, pages) => CreateQueue(w, p, pages)
    case Fork(p, child) => ForkProcess(w, p, child)
    case CloseQueue(p, fd) => LeaveQueues(w, p, TargetOf(w, p, fd))
    case Exit(p) => ExitProcess(w, p)
    case Use(p, fd, op) => UseQueue(w, p, fd, op)
    case OpenFile(p, file) => OpenSlot(w, p, file)
    case CloseFile(p, fd) =>
      assert w.tables[p][fd].OtherFd? ==> Names(w, p, fd, w.tables[p][fd].file);
      CloseSlot(w, p, fd)
  }

  // ---- The invariant is kept ----

  /** Freeing the queues in `dead` together with their buffers and file objects. */
  lemma ObjectsKept(w: World, w': World, dead: set<Addr>)
    requires ObjectsGood(w)
    requires forall a :: a in w'.queues <==> a in w.queues && a !in dead
    requires forall a :: a in w'.queues ==> w'.queues[a].buffer == w.queues[a].buffer
    requires forall f :: f in w'.files <==> f in w.files && w.files[f].queue !in dead
    requires forall f :: f in w'.files ==> w'.files[f] == w.files[f]
    requires forall a :: a in w.queues && w.queues[a].buffer != NULL ==>
               (w.queues[a].buffer in w'.buffers <==> a !in dead)
    requires w'.buffers <= w.buffers
    ensures ObjectsGood(w')
  {
  }

  /** The slots of queues are told by tables, files and queues alone. */
  lemma SameSlots(w: World, w': World)
    requires SlotsGood(w) && MembersGood(w)
    requires w'.tables == w.tables && w'.files == w.files && w'.queues == w.queues
    ensures SlotsGood(w') && MembersGood(w')
  {
    assert forall p, fd, a :: OpenOn(w', p, fd, a) <==> OpenOn(w, p, fd, a);
    forall a, p | Member(w', p, a) ensures Holds(w', p, a) {
      assert Member(w, p, a);
      var fd: nat :| OpenOn(w, p, fd, a);
      assert OpenOn(w', p, fd, a);
    }
  }

  /** No new names, and no new objects. */
  lemma OthersKept(w: World, w': World)
    requires OthersGood(w)
    requires forall p, fd, a :: Names(w', p, fd, a) ==> Names(w, p, fd, a)
    requires forall a :: a in w'.others ==> a in w.others && w'.others[a] == w.others[a]
    requires w'.files.Keys <= w.files.Keys
    ensures OthersGood(w')
  {
  }

  lemma CreateKeeps(w: World, p: Pid, pages: Pages)
    requires Inv(w) && CanStep(w, Create(p, pages))
    ensures Inv(CreateQueue(w, p, pages))
  {
    assert |w.tables[p]| == MAX_OPEN_FILES;
    hide SlotsGood, MembersGood, ObjectsGood, OthersGood, Good, FreeSlot;
    if CreateCode(w, p, pages) >= 0 {
      CreateSlots(w, p, pages);
      CreateObjects(w, p, pages);
      CreateQueues(w, p, pages);
      CreateOthers(w, p, pages);
      hide CreateQueue, QueuesGood;
    } else {
      NoFileKeeps(w, p, pages);
    }
  }

  lemma NoFileKeeps(w: World, p: Pid, pages: Pages)
    requires Inv(w) && CanStep(w, Create(p, pages)) && CreateCode(w, p, pages) < 0
    ensures Inv(CreateQueue(w, p, pages))
  {
    assert |w.tables[p]| == MAX_OPEN_FILES;
    hide Good, FreeSlot, SlotsGood, MembersGood;
    var w' := CreateQueue(w, p, pages);
    SameSlots(w, w');
    assert forall r, fd, a :: Names(w', r, fd, a) <==> Names(w, r, fd, a);
    OthersKept(w, w');
  }

  lemma CreateOthers(w: World, p: Pid, pages: Pages)
    requires OthersGood(w) && p in w.tables && |w.tables[p]| == MAX_OPEN_FILES && FreshPages(w, pages)
    requires CreateCode(w, p, pages) >= 0
    ensures OthersGood(CreateQueue(w, p, pages))
  {
    var w' := CreateQueue(w, p, pages);
    assert forall r, fd, a :: Names(w', r, fd, a) <==> Names(w, r, fd, a);
  }

  lemma CreateQueues(w: World, p: Pid, pages: Pages)
    requires QueuesGood(w) && p in w.tables && |w.tables[p]| == MAX_OPEN_FILES && FreshPages(w, pages)
    requires CreateCode(w, p, pages) >= 0
    ensures QueuesGood(CreateQueue(w, p, pages))
  {
    hide Good, FreeSlot;
    CreatedGood(p, pages.beyond);
  }

  lemma CreatedMembers(p: Pid, beyond: seq<int>)
    requires |beyond| == MEMORY_CELLS - TABLE_CELLS
    ensures Created(p, beyond).members == [p]
  {
  }

  lemma CreateSlots(w: World, p: Pid, pages: Pages)
    requires SlotsGood(w) && MembersGood(w) && ObjectsGood(w) && p in w.tables && FreshPages(w, pages)
    requires CreateCode(w, p, pages) >= 0
    ensures SlotsGood(CreateQueue(w, p, pages)) && MembersGood(CreateQueue(w, p, pages))
  {
    hide Created;
    var w' := CreateQueue(w, p, pages);
    var fd := CreateCode(w, p, pages);
    assert Created(p, pages.beyond).members == [p] by { CreatedMembers(p, pages.beyond); }
    assert OpenOn(w', p, fd, pages.info);
    forall a, r | Member(w', r, a) ensures Holds(w', r, a) {
      if a != pages.info {
        assert Member(w, r, a);
        var k: nat :| OpenOn(w, r, k, a);
        assert OpenOn(w', r, k, a);
      }
    }
    forall a, r, k, k' | OpenOn(w', r, k, a) && OpenOn(w', r, k', a) ensures k == k' {
      if a != pages.info {
        assert OpenOn(w, r, k, a) && OpenOn(w, r, k', a);
      }
    }
  }

  lemma CreateObjects(w: World, p: Pid, pages: Pages)
    requires ObjectsGood(w) && p in w.tables && |w.tables[p]| == MAX_OPEN_FILES && FreshPages(w, pages)
    requires CreateCode(w, p, pages) >= 0
    ensures ObjectsGood(CreateQueue(w, p, pages))
  {
  }

  /** A create that succeeds answers the lowest free descriptor from 3 on, and that one is open
      on the new queue, whose only member is the caller; it fails exactly for want of a
      descriptor or of one of the two pages it checks.  No other slot changes. */
  lemma CreateOpens(w: World, p: Pid, pages: Pages)
    requires Inv(w) && CanStep(w, Create(p, pages))
    ensures var code, w' := CreateCode(w, p, pages), Next(w, Create(p, pages));
            && (code < 0 ==> code == -ENOMEM)
            && (code < 0 <==>
                  || (forall k :: FIRST_FD <= k < MAX_OPEN_FILES ==> w.tables[p][k] != Null)
                  || pages.info == NULL || pages.file == NULL)
            && (code >= 0 ==>
                  && LowestFree(w.tables[p], code) && OpenOn(w', p, code, pages.info)
                  && pages.info in w'.queues && w'.queues[pages.info].value.members == [p]
                  && w'.queues[pages.info].value.msgs == [] && w'.queues[pages.info].buffer == pages.buffer)
            && OtherSlotsSame(w, w', p, code)
  {
    hide MembersGood, ObjectsGood, QueuesGood, OthersGood, FreeSlot;
  }

  /** Slot `fd` is free, and none before it from 3 on is. */
  predicate LowestFree(table: seq<Descriptor>, fd: int) {
    && FIRST_FD <= fd < |table| && table[fd] == Null
    && forall k :: FIRST_FD <= k < fd ==> table[k] != Null
  }

  /** All slots but `fd` of `p` hold what they held, and no process came or went. */
  ghost predicate OtherSlotsSame(w: World, w': World, p: Pid, fd: int) {
    && w'.tables.Keys == w.tables.Keys
    && (forall r :: r in w.tables ==> |w'.tables[r]| == |w.tables[r]|)
    && (forall r, k :: r in w.tables && 0 <= k < |w.tables[r]| && !(r == p && k == fd) ==>
          w'.tables[r][k] == w.tables[r][k])
  }

  /** The same of an open of the file layer, whose object is allocated in any case. */
  lemma OpenFileOpens(w: World, p: Pid, file: Addr)
    requires Inv(w) && CanStep(w, OpenFile(p, file))
    ensures var w' := Next(w, OpenFile(p, file));
            && file in w'.others && w'.others[file] == 1
            && ((forall k :: FIRST_FD <= k < MAX_OPEN_FILES ==> w.tables[p][k] != Null) ==> w'.tables == w.tables)
            && (forall fd :: LowestFree(w.tables[p], fd) ==> Names(w', p, fd, file) && OtherSlotsSame(w, w', p, fd))
  {
    hide MembersGood, ObjectsGood, QueuesGood, OthersGood, FreeSlot;
  }

  /** After a fork every descriptor of the child is open on what the same descriptor of its
      parent is open on, and no other process's descriptors change. */
  lemma ForkCopies(w: World, p: Pid, child: Pid)
    requires Inv(w) && CanStep(w, Fork(p, child))
    ensures var w' := Next(w, Fork(p, child));
            && (forall fd, a :: OpenOn(w', child, fd, a) <==> OpenOn(w, p, fd, a))
            && (forall fd, a :: Names(w', child, fd, a) <==> Names(w, p, fd, a))
            && w'.tables.Keys == w.tables.Keys + {child}
            && (forall r :: r in w.tables ==> w'.tables[r] == w.tables[r])
            && w'.files == w.files && w'.others == w.others
  {
    hide SlotsGood, MembersGood, ObjectsGood, QueuesGood, OthersGood, DoJoin;
  }

  lemma ForkKeeps(w: World, p: Pid, child: Pid)
    requires Inv(w) && CanStep(w, Fork(p, child))
    ensures Inv(ForkProcess(w, p, child))
    ensures forall r, a :: Member(ForkProcess(w, p, child), r, a) <==> Member(w, if r == child then p else r, a)
  {
    ChildIsNew(w, child);
    ForkSlots(w, p, child);
    ObjectsKept(w, ForkProcess(w, p, child), {});
    ForkQueues(w, p, child);
    ForkOthers(w, p, child);
  }

  lemma ForkOthers(w: World, p: Pid, child: Pid)
    requires OthersGood(w) && p in w.tables && child !in w.tables
    ensures OthersGood(ForkProcess(w, p, child))
  {
    var w' := ForkProcess(w, p, child);
    assert forall r, fd, a :: Names(w', r, fd, a) <==> Names(w, if r == child then p else r, fd, a);
  }

  lemma ForkQueues(w: World, p: Pid, child: Pid)
    requires QueuesGood(w) && CanFork(w, p, child)
    requires forall a :: !Member(w, child, a)
    ensures QueuesGood(ForkProcess(w, p, child))
  {
    var w' := ForkProcess(w, p, child);
    forall a | a in w'.queues ensures Good(w'.queues[a].value) && w'.queues[a].value.members != [] {
      assert !Member(w, child, a);
      if p in w.queues[a].value.members {
        JoinGood(w.queues[a].value, child);
      }
    }
  }

  lemma ChildIsNew(w: World, child: Pid)
    requires MembersGood(w) && child !in w.tables
    ensures forall a :: !Member(w, child, a)
  {
    forall a ensures !Member(w, child, a) {
      assert Member(w, child, a) ==> Holds(w, child, a);
    }
  }

  lemma ForkSlots(w: World, p: Pid, child: Pid)
    requires SlotsGood(w) && MembersGood(w) && p in w.tables && child !in w.tables
    requires forall a :: !Member(w, child, a)
    ensures SlotsGood(ForkProcess(w, p, child)) && MembersGood(ForkProcess(w, p, child))
    ensures forall r, a :: Member(ForkProcess(w, p, child), r, a) <==> Member(w, if r == child then p else r, a)
  {
    var w' := ForkProcess(w, p, child);
    forall r, a ensures Member(w', r, a) <==> Member(w, if r == child then p else r, a) {
      assert !Member(w, child, a);
    }
    forall a, r | Member(w', r, a) ensures Holds(w', r, a) {
      var r0 := if r == child then p else r;
      var k: nat :| OpenOn(w, r0, k, a);
      assert OpenOn(w', r, k, a);
    }
    forall a, r, k, k' | OpenOn(w', r, k, a) && OpenOn(w', r, k', a) ensures k == k' {
      var r0 := if r == child then p else r;
      assert OpenOn(w, r0, k, a) && OpenOn(w, r0, k', a);
    }
  }

  lemma UseKeeps(w: World, p: Pid, fd: nat, op: Op)
    requires Inv(w) && CanStep(w, Use(p, fd, op))
    ensures Inv(UseQueue(w, p, fd, op))
  {
    hide MembersGood, ObjectsGood, OthersGood, Good, Perform, Enabled;
    AllShaped(w);
    var slot := w.tables[p][fd];
    if slot.QueueFd? {
      var a := w.files[slot.file].queue;
      assert a in TargetOf(w, p, fd);
      PerformGood(w.queues[a].value, op);
      LocalMembers(w.queues[a].value, op);
      ReplaceKeeps(w, a, Perform(w.queues[a].value, op).queue);
      SameNames(w, UseQueue(w, p, fd, op));
    }
  }

  lemma SameNames(w: World, w': World)
    requires OthersGood(w) && w'.tables == w.tables && w'.files == w.files && w'.others == w.others
    ensures OthersGood(w')
  {
    assert forall r, fd, a :: Names(w', r, fd, a) <==> Names(w, r, fd, a);
  }

  lemma LocalMembers(q: Queue, op: Op)
    requires Shape(q) && Local(op, op.pid)
    ensures Perform(q, op).queue.members == q.members
  {
  }

  /** Replacing the value of a queue by one with the same members. */
  lemma ReplaceKeeps(w: World, a: Addr, q': Queue)
    requires SlotsGood(w) && MembersGood(w) && ObjectsGood(w)
    requires a in w.queues && q'.members == w.queues[a].value.members
    ensures var w' := w.(queues := w.queues[a := w.queues[a].(value := q')]);
            SlotsGood(w') && MembersGood(w') && ObjectsGood(w')
  {
    var w' := w.(queues := w.queues[a := w.queues[a].(value := q')]);
    assert forall b, r :: Member(w', r, b) <==> Member(w, r, b);
    assert forall b, r, k :: OpenOn(w', r, k, b) <==> OpenOn(w, r, k, b);
    forall b, r | Member(w', r, b) ensures Holds(w', r, b) {
      var k: nat :| OpenOn(w, r, k, b);
      assert OpenOn(w', r, k, b);
    }
    ObjectsKept(w, w', {});
  }

  lemma AllShaped(w: World)
    requires QueuesGood(w)
    ensures Shaped(w)
  {
  }

  /** Leaving any set of one's own queues keeps the invariant. */
  lemma LeaveKeeps(w: World, p: Pid, s: set<Addr>)
    requires Inv(w) && p in w.tables && s <= QueuesOf(w, p)
    ensures Inv(LeaveQueues(w, p, s))
    ensures forall r, a :: Member(LeaveQueues(w, p, s), r, a) <==> Member(w, r, a) && !(r == p && a in s)
  {
    hide SlotsGood, MembersGood, ObjectsGood, OthersGood, Good;
    AllShaped(w);
    var w' := LeaveQueues(w, p, s);
    LeaveMembers(w, p, s);
    LeaveSlots(w, p, s);
    LeaveObjects(w, p, s);
    LeaveOthers(w, p, s);
    forall a | a in w'.queues ensures Good(w'.queues[a].value) && w'.queues[a].value.members != [] {
      if a in s {
        CloseGood(w.queues[a].value, p);
      }
    }
  }

  lemma LeaveOthers(w: World, p: Pid, s: set<Addr>)
    requires OthersGood(w) && Shaped(w) && p in w.tables
    ensures OthersGood(LeaveQueues(w, p, s))
    ensures forall r, fd, a :: Names(LeaveQueues(w, p, s), r, fd, a) <==> Names(w, r, fd, a)
  {
    var w' := LeaveQueues(w, p, s);
    assert forall r, fd, a :: Names(w', r, fd, a) <==> Names(w, r, fd, a);
    OthersKept(w, w');
  }

  lemma LeaveMembers(w: World, p: Pid, s: set<Addr>)
    requires QueuesGood(w) && p in w.tables && s <= QueuesOf(w, p)
    ensures forall r, a :: Member(LeaveQueues(w, p, s), r, a) <==> Member(w, r, a) && !(r == p && a in s)
  {
    var w' := LeaveQueues(w, p, s);
    forall r, a ensures Member(w', r, a) <==> Member(w, r, a) && !(r == p && a in s) {
      if a in w.queues && a in s {
        ClosedMembers(w.queues[a].value, p);
      }
    }
  }

  /** The descriptors that stay are those not open on a queue that was left. */
  lemma LeaveOpen(w: World, p: Pid, s: set<Addr>, r: Pid, fd: nat, a: Addr)
    requires SlotsGood(w) && Shaped(w) && p in w.tables && s <= QueuesOf(w, p)
    ensures OpenOn(LeaveQueues(w, p, s), r, fd, a) <==> OpenOn(w, r, fd, a) && !(r == p && a in s)
  {
    if OpenOn(w, r, fd, a) && Dies(w, p, s, a) {
      assert Member(w, r, a);
    }
  }

  lemma LeaveSlots(w: World, p: Pid, s: set<Addr>)
    requires Inv(w) && p in w.tables && s <= QueuesOf(w, p)
    ensures SlotsGood(LeaveQueues(w, p, s)) && MembersGood(LeaveQueues(w, p, s))
  {
    var w' := LeaveQueues(w, p, s);
    LeaveMembers(w, p, s);
    forall r, fd | r in w'.tables && 0 <= fd < MAX_OPEN_FILES && w'.tables[r][fd].QueueFd?
      ensures w'.tables[r][fd].file in w'.files && Member(w', r, w'.files[w'.tables[r][fd].file].queue)
    {
      var f := w.tables[r][fd].file;
      assert OpenOn(w, r, fd, w.files[f].queue);
      LeaveOpen(w, p, s, r, fd, w.files[f].queue);
    }
    forall a, r | Member(w', r, a) ensures Holds(w', r, a) {
      assert Member(w, r, a);
      var k: nat :| OpenOn(w, r, k, a);
      LeaveOpen(w, p, s, r, k, a);
    }
    forall a, r, k, k' | OpenOn(w', r, k, a) && OpenOn(w', r, k', a) ensures k == k' {
      LeaveOpen(w, p, s, r, k, a);
      LeaveOpen(w, p, s, r, k', a);
    }
  }

  lemma LeaveObjects(w: World, p: Pid, s: set<Addr>)
    requires Shaped(w) && ObjectsGood(w) && p in w.tables
    ensures ObjectsGood(LeaveQueues(w, p, s))
  {
    FreedBuffers(w, p, s);
    ObjectsKept(w, LeaveQueues(w, p, s), set a | a in w.queues && Dies(w, p, s, a));
  }

  /** The buffers freed are those of the queues that died. */
  lemma FreedBuffers(w: World, p: Pid, s: set<Addr>)
    requires Shaped(w) && ObjectsGood(w) && p in w.tables
    ensures forall a :: a in w.queues ==>
              (w.queues[a].buffer in LeaveQueues(w, p, s).buffers <==> !Dies(w, p, s, a) && w.queues[a].buffer != NULL)
  {
  }

  lemma ExitKeeps(w: World, p: Pid)
    requires Inv(w) && p in w.tables
    ensures Inv(ExitProcess(w, p))
  {
    hide SlotsGood, MembersGood, ObjectsGood, OthersGood, Good, LeaveTable, LeaveFiles, LeaveInfos, LeaveBuffers;
    AllShaped(w);
    var s, others := QueuesOf(w, p), w.others - NamesOf(w, p);
    var w1 := LeaveQueues(w, p, s);
    LeaveKeeps(w, p, s);
    forall a ensures !Member(w1, p, a) {
      assert Member(w1, p, a) <==> Member(w, p, a) && a !in s;
    }
    hide LeaveQueues, QueuesOf, NamesOf, QueuesGood;
    DropTable(w1, p, others);
    ExitOthers(w1, p, others);
    SameObjects(w1, w1.(tables := w1.tables - {p}, others := others));
  }

  lemma SameObjects(w: World, w': World)
    requires ObjectsGood(w) && QueuesGood(w)
    requires w'.files == w.files && w'.queues == w.queues && w'.buffers == w.buffers
    ensures ObjectsGood(w') && QueuesGood(w')
  {
  }

  lemma ExitOthers(w: World, p: Pid, others: map<Addr, int>)
    requires OthersGood(w) && forall a :: a in others ==> a in w.others && others[a] == w.others[a]
    ensures OthersGood(w.(tables := w.tables - {p}, others := others))
  {
    var w' := w.(tables := w.tables - {p}, others := others);
    assert forall r, fd, a :: Names(w', r, fd, a) ==> Names(w, r, fd, a);
    OthersKept(w, w');
  }

  lemma DropTable(w: World, p: Pid, others: map<Addr, int>)
    requires SlotsGood(w) && MembersGood(w) && p in w.tables
    requires forall a :: !Member(w, p, a)
    ensures var w' := w.(tables := w.tables - {p}, others := others); SlotsGood(w') && MembersGood(w')
  {
    var w' := w.(tables := w.tables - {p}, others := others);
    assert forall a, r :: Member(w', r, a) <==> Member(w, r, a);
    assert forall a, r, k :: OpenOn(w', r, k, a) ==> OpenOn(w, r, k, a);
    forall a, r | Member(w', r, a) ensures Holds(w', r, a) {
      var k: nat :| OpenOn(w, r, k, a);
      assert OpenOn(w', r, k, a);
    }
  }

  /** A step that changes slots without a queue only, and no queue. */
  lemma OtherSlots(w: World, w': World, p: Pid, fd: nat, slot: Descriptor)
    requires SlotsGood(w) && MembersGood(w) && p in w.tables && fd < MAX_OPEN_FILES
    requires !w.tables[p][fd].QueueFd? && !slot.QueueFd?
    requires w'.tables == w.tables[p := w.tables[p][fd := slot]] && w'.files == w.files && w'.queues == w.queues
    ensures SlotsGood(w') && MembersGood(w')
    ensures forall r, k, a :: OpenOn(w', r, k, a) <==> OpenOn(w, r, k, a)
  {
    forall r, k, a ensures OpenOn(w', r, k, a) <==> OpenOn(w, r, k, a) {
    }
    forall a, r | Member(w', r, a) ensures Holds(w', r, a) {
      assert Member(w, r, a);
      var k: nat :| OpenOn(w, r, k, a);
      assert OpenOn(w', r, k, a);
    }
  }

  /** Opening a file changes no queue and no queue's descriptor. */
  lemma OpenFileKeeps(w: World, p: Pid, file: Addr)
    requires Inv(w) && CanStep(w, OpenFile(p, file))
    ensures Inv(OpenSlot(w, p, file))
    ensures forall r, k, a :: OpenOn(OpenSlot(w, p, file), r, k, a) <==> OpenOn(w, r, k, a)
  {
    assert |w.tables[p]| == MAX_OPEN_FILES;
    hide SlotsGood, MembersGood, ObjectsGood, OthersGood, FreeSlot, Good;
    var w', fd := OpenSlot(w, p, file), FreeSlot(w.tables[p], Null, FIRST_FD);
    if fd == MAX_OPEN_FILES {
      SameSlots(w, w');
      assert forall r, k, a :: OpenOn(w', r, k, a) <==> OpenOn(w, r, k, a);
    } else {
      OtherSlots(w, w', p, fd, OtherFd(file));
    }
    OpenOthers(w, p, file);
    SameObjects(w, w');
  }

  lemma OpenOthers(w: World, p: Pid, file: Addr)
    requires OthersGood(w) && p in w.tables && |w.tables[p]| == MAX_OPEN_FILES && FreshFile(w, file)
    ensures OthersGood(OpenSlot(w, p, file))
  {
    hide FreeSlot;
    var w', fd := OpenSlot(w, p, file), FreeSlot(w.tables[p], Null, FIRST_FD);
    if fd == MAX_OPEN_FILES {
      assert forall r, k, a :: Names(w', r, k, a) <==> Names(w, r, k, a);
    } else {
      assert forall r, k, a :: Names(w', r, k, a) <==> Names(w, r, k, a) || (r == p && k == fd && a == file);
      assert forall r, k: nat :: !Names(w, r, k, file);
    }
  }

  /** So does closing one, and a queue's descriptor is not closed this way. */
  lemma CloseFileKeeps(w: World, p: Pid, fd: nat)
    requires Inv(w) && CanStep(w, CloseFile(p, fd))
    ensures Inv(Next(w, CloseFile(p, fd)))
    ensures forall r, k, a :: OpenOn(Next(w, CloseFile(p, fd)), r, k, a) <==> OpenOn(w, r, k, a)
  {
    hide MembersGood, Good;
    if w.tables[p][fd].OtherFd? {
      var w' := Next(w, CloseFile(p, fd));
      assert Names(w, p, fd, w.tables[p][fd].file);
      OtherSlots(w, w', p, fd, Null);
      assert forall r, k, a :: Names(w', r, k, a) <==> Names(w, r, k, a) && !(r == p && k == fd);
      OthersKept(w, w');
      ObjectsKept(w, w', {});
    }
  }

  /** Closing a queue empties the descriptor and no other slot, ends the caller's membership and
      no other; a descriptor that is not open on a queue is left alone. */
  lemma CloseQueueExact(w: World, p: Pid, fd: nat)
    requires Inv(w) && CanStep(w, CloseQueue(p, fd))
    ensures var w' := Next(w, CloseQueue(p, fd));
            && (w.tables[p][fd].QueueFd? ==> w'.tables[p][fd] == Null)
            && (!w.tables[p][fd].QueueFd? ==> w'.tables == w.tables)
            && OtherSlotsSame(w, w', p, fd)
            && (forall r, a :: Member(w', r, a) <==> Member(w, r, a) && !(r == p && OpenOn(w, p, fd, a)))
  {
    hide ObjectsGood, QueuesGood, OthersGood, LeaveFiles, LeaveInfos, LeaveBuffers;
    TargetMine(w, p, fd);
    LeaveKeeps(w, p, TargetOf(w, p, fd));
    AllShaped(w);
    var w' := Next(w, CloseQueue(p, fd));
    forall a ensures a in TargetOf(w, p, fd) <==> OpenOn(w, p, fd, a) {
    }
    forall k | 0 <= k < MAX_OPEN_FILES && k != fd ensures w'.tables[p][k] == w.tables[p][k] {
      if w.tables[p][k].QueueFd? && w.tables[p][fd].QueueFd? {
        assert OpenOn(w, p, k, w.files[w.tables[p][k].file].queue);
        assert OpenOn(w, p, fd, w.files[w.tables[p][fd].file].queue);
      }
    }
    if !w.tables[p][fd].QueueFd? {
      assert w'.tables[p] == w.tables[p];
    }
  }

  /** An exit takes the process's table away and its memberships, and leaves every other
      process's descriptors and memberships. */
  lemma ExitExact(w: World, p: Pid)
    requires Inv(w) && CanStep(w, Exit(p))
    ensures var w' := Next(w, Exit(p));
            && w'.tables.Keys == w.tables.Keys - {p}
            && (forall r :: r in w'.tables ==> w'.tables[r] == w.tables[r])
            && (forall r, a :: Member(w', r, a) <==> Member(w, r, a) && r != p)
  {
    LeaveKeeps(w, p, QueuesOf(w, p));
    hide SlotsGood, MembersGood, ObjectsGood, OthersGood, Good, LeaveTable, LeaveFiles, LeaveInfos, LeaveBuffers;
    AllShaped(w);
    var w1, w' := LeaveQueues(w, p, QueuesOf(w, p)), Next(w, Exit(p));
    forall r, a ensures Member(w', r, a) <==> Member(w, r, a) && r != p {
      assert Member(w', r, a) <==> Member(w1, r, a);
    }
  }

  /** The same of a close in the file layer, which frees the object. */
  lemma CloseFileExact(w: World, p: Pid, fd: nat)
    requires Inv(w) && CanStep(w, CloseFile(p, fd))
    ensures var w' := Next(w, CloseFile(p, fd));
            && (w.tables[p][fd].OtherFd? ==> w'.tables[p][fd] == Null && w'.others == w.others - {w.tables[p][fd].file})
            && (!w.tables[p][fd].OtherFd? ==> w' == w)
            && OtherSlotsSame(w, w', p, fd)
  {
    hide MembersGood, ObjectsGood, QueuesGood;
    assert w.tables[p][fd].OtherFd? ==> Names(w, p, fd, w.tables[p][fd].file);
  }

  lemma TargetMine(w: World, p: Pid, fd: nat)
    requires SlotsGood(w) && p in w.tables && fd < MAX_OPEN_FILES
    ensures TargetOf(w, p, fd) <= QueuesOf(w, p)
  {
  }

  lemma NextKeeps(w: World, step: Step)
    requires Inv(w) && CanStep(w, step)
    ensures Inv(Next(w, step))
  {
    match step
    case Create(p, pages) => CreateKeeps(w, p, pages);
    case Fork(p, child) => ForkKeeps(w, p, child);
    case CloseQueue(p, fd) => TargetMine(w, p, fd); LeaveKeeps(w, p, TargetOf(w, p, fd));
    case Exit(p) => ExitKeeps(w, p);
    case Use(p, fd, op) => UseKeeps(w, p, fd, op);
    case OpenFile(p, file) => OpenFileKeeps(w, p, file);
    case CloseFile(p, fd) => CloseFileKeeps(w, p, fd);
  }

  // ---- Every run ----

  /** Processes with whole descriptor tables, and no queue yet. */
  ghost predicate Boot(w: World)
    ensures Boot(w) ==> Inv(w)
  {
    && (forall p :: p in w.tables ==> |w.tables[p]| == MAX_OPEN_FILES &&
                                      forall fd :: 0 <= fd < MAX_OPEN_FILES ==> !w.tables[p][fd].QueueFd?)
    && w.files == map[] && w.queues == map[] && w.buffers == {}
    && OthersGood(w) && NoneDangles(w)
  }

  /** No slot names a file-layer object that was freed. */
  ghost predicate NoneDangles(w: World) {
    forall p, fd, a :: Names(w, p, fd, a) ==> a in w.others
  }

  ghost predicate Follows(w: World, steps: seq<Step>)
    requires Inv(w)
    decreases |steps|
  {
    steps == [] || (CanStep(w, steps[0]) && (NextKeeps(w, steps[0]); Follows(Next(w, steps[0]), steps[1..])))
  }

  ghost function After(w: World, steps: seq<Step>): (w': World)
    requires Inv(w) && Follows(w, steps)
    ensures Inv(w')
    decreases |steps|
  {
    if steps == [] then w
    else NextKeeps(w, steps[0]); After(Next(w, steps[0]), steps[1..])
  }

  // ---- Which objects are left over, and which descriptors dangle ----

  /** Every buffer belongs to a queue. */
  ghost predicate AllOwned(w: World) {
    forall b :: b in w.buffers ==> exists a :: Owns(w, a, b)
  }

  ghost predicate Owns(w: World, a: Addr, b: Addr) {
    a in w.queues && w.queues[a].buffer == b
  }

  /** A create that gets a buffer and then no page for the file object. */
  ghost predicate LosesBuffer(w: World, step: Step)
    requires Inv(w) && CanStep(w, step)
  {
    step.Create? && AsksForFile(w, step.p, step.pages) && step.pages.buffer != NULL && step.pages.file == NULL
  }

  /** Such a create, and nothing else, leaves a buffer that belongs to no queue. */
  lemma StepOwned(w: World, step: Step)
    requires Inv(w) && CanStep(w, step)
    ensures AllOwned(Next(w, step)) <==> AllOwned(w) && !LosesBuffer(w, step)
  {
    var w' := Next(w, step);
    hide SlotsGood, MembersGood, OthersGood, Good;
    forall b | b in w.buffers && !(exists a :: Owns(w, a, b)) ensures b in w'.buffers && !(exists a :: Owns(w', a, b)) {
      UnownedStays(w, step, b);
    }
    if LosesBuffer(w, step) {
      assert forall a :: !Owns(w', a, step.pages.buffer);
    } else if AllOwned(w) {
      forall b | b in w'.buffers ensures exists a :: Owns(w', a, b) {
        OwnedStays(w, step, b);
      }
    }
  }

  lemma UnownedLeft(w: World, p: Pid, s: set<Addr>, b: Addr)
    requires Shaped(w) && p in w.tables && b in w.buffers && forall a :: a in w.queues ==> w.queues[a].buffer != b
    ensures b in LeaveQueues(w, p, s).buffers && forall a :: !Owns(LeaveQueues(w, p, s), a, b)
  {
    hide DoClose, Dies;
  }

  lemma UnownedCreated(w: World, p: Pid, pages: Pages, b: Addr)
    requires p in w.tables && |w.tables[p]| == MAX_OPEN_FILES && FreshPages(w, pages) && NULL !in w.buffers
    requires b in w.buffers && forall a :: a in w.queues ==> w.queues[a].buffer != b
    ensures b in CreateQueue(w, p, pages).buffers && forall a :: !Owns(CreateQueue(w, p, pages), a, b)
  {
    hide Created, FreeSlot;
  }

  lemma UnownedElse(w: World, step: Step, b: Addr)
    requires Inv(w) && CanStep(w, step) && (step.Fork? || step.Use? || step.OpenFile? || step.CloseFile?)
    requires b in w.buffers && forall a :: a in w.queues ==> w.queues[a].buffer != b
    ensures b in Next(w, step).buffers && forall a :: !Owns(Next(w, step), a, b)
  {
    hide MembersGood, ObjectsGood, OthersGood, Good, DoJoin, Perform, FreeSlot, Dropped;
    AllShaped(w);
  }

  lemma UnownedStays(w: World, step: Step, b: Addr)
    requires Inv(w) && CanStep(w, step) && b in w.buffers && forall a :: !Owns(w, a, b)
    ensures b in Next(w, step).buffers && forall a :: !Owns(Next(w, step), a, b)
  {
    AllShaped(w);
    hide MembersGood, OthersGood, QueuesGood, CreateQueue, LeaveQueues, Dropped;
    forall a | a in w.queues ensures w.queues[a].buffer != b {
      assert !Owns(w, a, b);
    }
    match step
    case Create(p, pages) => UnownedCreated(w, p, pages, b);
    case CloseQueue(p, fd) => UnownedLeft(w, p, TargetOf(w, p, fd), b);
    case Exit(p) => UnownedLeft(w, p, QueuesOf(w, p), b);
    case _ => UnownedElse(w, step, b);
  }

  lemma OwnedStays(w: World, step: Step, b: Addr)
    requires Inv(w) && CanStep(w, step) && !LosesBuffer(w, step) && b in Next(w, step).buffers
    requires b in w.buffers ==> exists a :: Owns(w, a, b)
    ensures exists a :: Owns(Next(w, step), a, b)
  {
    hide SlotsGood, MembersGood, OthersGood, Good, DoClose, DoJoin, Perform, Created;
    var w' := Next(w, step);
    if b in w.buffers {
      var a :| Owns(w, a, b);
      assert Owns(w', a, b);
    } else {
      assert Owns(w', step.pages.info, b);
    }
  }

  ghost predicate NeverLosesBuffer(w: World, steps: seq<Step>)
    requires Inv(w) && Follows(w, steps)
    decreases |steps|
  {
    || steps == []
    || (!LosesBuffer(w, steps[0]) && (NextKeeps(w, steps[0]); NeverLosesBuffer(Next(w, steps[0]), steps[1..])))
  }

  /** After any run every buffer belongs to a queue if and only if no create of the run was
      left without a page for its file object. */
  lemma {:induction false} BuffersOwned(w: World, steps: seq<Step>)
    requires Inv(w) && Follows(w, steps)
    ensures AllOwned(After(w, steps)) <==> AllOwned(w) && NeverLosesBuffer(w, steps)
    decreases |steps|
  {
    if steps == [] {
    } else {
      hide Inv, CanStep, Next, AllOwned, LosesBuffer;
      NextKeeps(w, steps[0]);
      StepOwned(w, steps[0]);
      BuffersOwned(Next(w, steps[0]), steps[1..]);
    }
  }

  /** Every queue has a buffer. */
  ghost predicate AllBuffered(w: World) {
    forall a :: a in w.queues ==> w.queues[a].buffer != NULL
  }

  /** A create makes a queue without a buffer if and only if it succeeds and there was no
      page for the buffer; no other step makes one. */
  lemma StepBuffered(w: World, step: Step)
    requires Inv(w) && CanStep(w, step) && AllBuffered(w)
    ensures AllBuffered(Next(w, step)) <==>
            !(step.Create? && CreateCode(w, step.p, step.pages) >= 0 && step.pages.buffer == NULL)
  {
    hide MembersGood, OthersGood, Good, DoClose, DoJoin, Perform, Created;
    var w' := Next(w, step);
    if step.Create? && CreateCode(w, step.p, step.pages) >= 0 {
      assert w'.queues[step.pages.info].buffer == step.pages.buffer;
    }
  }

  /** Another process has a slot that names the object. */
  ghost predicate SharedWith(w: World, p: Pid, a: Addr) {
    exists r: Pid, k: nat :: r != p && Names(w, r, k, a)
  }

  /** The step drops a file-layer object that another process still has in its table. */
  ghost predicate DropsShared(w: World, step: Step)
    requires Inv(w) && CanStep(w, step)
  {
    match step
    case CloseFile(p, fd) => exists a :: Names(w, p, fd, a) && SharedWith(w, p, a)
    case Exit(p) => exists fd: nat, a :: Names(w, p, fd, a) && SharedWith(w, p, a)
    case _ => false
  }

  lemma NamesNext(w: World, step: Step, r: Pid, k: nat, a: Addr)
    requires Inv(w) && CanStep(w, step) && Names(Next(w, step), r, k, a)
    ensures match step
            case OpenFile(p, file) => a == file || Names(w, r, k, a)
            case Fork(p, child) => Names(w, if r == child then p else r, k, a)
            case CloseFile(p, fd) => Names(w, r, k, a) && !(r == p && k == fd)
            case Exit(p) => Names(w, r, k, a) && r != p
            case _ => Names(w, r, k, a)
  {
    hide MembersGood, ObjectsGood, QueuesGood, OthersGood, LeaveFiles, LeaveInfos, LeaveBuffers;
  }

  lemma OthersNext(w: World, step: Step, a: Addr)
    requires Inv(w) && CanStep(w, step)
    ensures a in Next(w, step).others <==>
            match step
            case OpenFile(p, file) => a == file || a in w.others
            case CloseFile(p, fd) => a in w.others && !Names(w, p, fd, a)
            case Exit(p) => a in w.others && !(exists fd: nat :: Names(w, p, fd, a))
            case _ => a in w.others
  {
    hide MembersGood, ObjectsGood, QueuesGood, LeaveFiles, LeaveInfos, LeaveBuffers, LeaveTable;
    if step.Exit? && a in NamesOf(w, step.p) {
      var fd :| 0 <= fd < |w.tables[step.p]| && w.tables[step.p][fd].OtherFd? && w.tables[step.p][fd].file == a;
      assert Names(w, step.p, fd, a);
    }
  }

  /** A name that stays in its table. */
  lemma NameStays(w: World, step: Step, r: Pid, k: nat, a: Addr)
    requires Inv(w) && CanStep(w, step) && Names(w, r, k, a)
    requires !(step.CloseFile? && r == step.p && k == step.fd) && !(step.Exit? && r == step.p)
    ensures Names(Next(w, step), r, k, a)
  {
    hide MembersGood, ObjectsGood, QueuesGood, OthersGood, LeaveFiles, LeaveInfos, LeaveBuffers;
  }

  /** A step makes a slot dangle if and only if it drops a file-layer object that another
      process still has in its table. */
  lemma StepDangles(w: World, step: Step)
    requires Inv(w) && CanStep(w, step) && NoneDangles(w)
    ensures NoneDangles(Next(w, step)) <==> !DropsShared(w, step)
  {
    hide Inv, Next, CanStep;
    var w' := Next(w, step);
    if DropsShared(w, step) {
      var fd: nat, a :| Names(w, step.p, fd, a) && SharedWith(w, step.p, a) && (step.CloseFile? ==> fd == step.fd);
      var r: Pid, k: nat :| r != step.p && Names(w, r, k, a);
      OthersNext(w, step, a);
      NameStays(w, step, r, k, a);
    } else {
      forall r, k: nat, a | Names(w', r, k, a) ensures a in w'.others {
        NamesNext(w, step, r, k, a);
        OthersNext(w, step, a);
        NotDropped(w, step, r, k, a);
      }
    }
  }

  lemma NotDropped(w: World, step: Step, r: Pid, k: nat, a: Addr)
    requires Inv(w) && CanStep(w, step) && !DropsShared(w, step) && Names(Next(w, step), r, k, a)
    ensures step.CloseFile? ==> !Names(w, step.p, step.fd, a)
    ensures step.Exit? ==> forall fd: nat :: !Names(w, step.p, fd, a)
  {
    NamesNext(w, step, r, k, a);
    hide Next, CanStep, SlotsGood, MembersGood, ObjectsGood, QueuesGood;
  }

  /** A slot that dangles stays so: nobody may look at it, and its page is not handed out
      again for a file object. */
  lemma DanglingStays(w: World, step: Step)
    requires Inv(w) && CanStep(w, step) && !NoneDangles(w)
    ensures !NoneDangles(Next(w, step))
  {
    hide Inv, Next;
    var p, fd: nat, a :| Names(w, p, fd, a) && a !in w.others;
    assert step.CloseFile? ==> Sound(w, step.p, step.fd);
    assert step.Exit? ==> Sound(w, step.p, fd);
    NameStays(w, step, p, fd, a);
    OthersNext(w, step, a);
    assert step.OpenFile? ==> !Named(w, step.file);
  }

  ghost predicate NeverDropsShared(w: World, steps: seq<Step>)
    requires Inv(w) && Follows(w, steps)
    decreases |steps|
  {
    || steps == []
    || (!DropsShared(w, steps[0]) && (NextKeeps(w, steps[0]); NeverDropsShared(Next(w, steps[0]), steps[1..])))
  }

  /** After a run no slot dangles if and only if no step of the run dropped a file-layer
      object that another process still had in its table. */
  lemma {:induction false} DanglingExact(w: World, steps: seq<Step>)
    requires Inv(w) && Follows(w, steps)
    ensures NoneDangles(After(w, steps)) <==> NoneDangles(w) && NeverDropsShared(w, steps)
    decreases |steps|
  {
    if steps == [] {
    } else {
      hide Inv, CanStep, Next, NoneDangles, DropsShared;
      NextKeeps(w, steps[0]);
      if NoneDangles(w) {
        StepDangles(w, steps[0]);
      } else {
        DanglingStays(w, steps[0]);
      }
      DanglingExact(Next(w, steps[0]), steps[1..]);
    }
  }

  /** Slots of the file layer and file objects of queues are kept apart by a create if and
      only if no slot still names the page of the new file object. */
  lemma ReusedPage(w: World, p: Pid, pages: Pages)
    requires Inv(w) && p in w.tables && |pages.beyond| == MEMORY_CELLS - TABLE_CELLS && CreateCode(w, p, pages) >= 0
    ensures (forall r, k, a :: Names(CreateQueue(w, p, pages), r, k, a) ==> a !in CreateQueue(w, p, pages).files) <==>
            !Named(w, pages.file)
  {
    hide MembersGood, ObjectsGood, QueuesGood, Created, FreeSlot;
    var w' := CreateQueue(w, p, pages);
    assert forall r, k, a :: Names(w', r, k, a) <==> Names(w, r, k, a);
    if Named(w, pages.file) {
      var r: Pid, k: nat :| Names(w, r, k, pages.file);
      assert Names(w', r, k, pages.file) && pages.file in w'.files;
    }
  }

  // ---- A file-layer descriptor across a fork ----

  lemma StepThen(w: World, step: Step, rest: seq<Step>)
    requires Inv(w) && CanStep(w, step) && Inv(Next(w, step)) && Follows(Next(w, step), rest)
    ensures Follows(w, [step] + rest) && After(w, [step] + rest) == After(Next(w, step), rest)
  {
    hide Inv, CanStep, Next;
    assert ([step] + rest)[1..] == rest;
  }

  function NoSlots(): (r: seq<Descriptor>)
    ensures |r| == MAX_OPEN_FILES && forall fd :: 0 <= fd < MAX_OPEN_FILES ==> r[fd] == Null
  {
    seq(MAX_OPEN_FILES, _ => Null)
  }

  /** Process 1, alone, without descriptors. */
  function Alone(): World {
    World(map[1 := NoSlots()], map[], map[], {}, map[])
  }

  lemma AloneBoots()
    ensures Boot(Alone()) && Inv(Alone())
  {
  }

  /** It has a file open. */
  function OneOpen(file: Addr): World {
    World(map[1 := NoSlots()[3 := OtherFd(file)]], map[], map[], {}, map[file := 1])
  }

  /** It has forked, and the child closed the file. */
  function ClosedByChild(file: Addr): World {
    World(map[1 := NoSlots()[3 := OtherFd(file)]][2 := NoSlots()], map[], map[], {}, map[])
  }

  lemma FirstOpen(file: Addr)
    requires file != NULL
    ensures Inv(Alone()) && CanStep(Alone(), OpenFile(1, file)) && Next(Alone(), OpenFile(1, file)) == OneOpen(file)
    ensures Inv(OneOpen(file))
  {
    AloneBoots();
    assert FreeSlot(NoSlots(), Null, FIRST_FD) == 3;
    NextKeeps(Alone(), OpenFile(1, file));
  }

  lemma ForkAndClose(file: Addr)
    requires Inv(OneOpen(file))
    ensures CanStep(OneOpen(file), Fork(1, 2))
    ensures var w1 := Next(OneOpen(file), Fork(1, 2));
            Inv(w1) && CanStep(w1, CloseFile(2, 3)) && Next(w1, CloseFile(2, 3)) == ClosedByChild(file)
    ensures Inv(ClosedByChild(file))
  {
    hide SlotsGood, MembersGood, ObjectsGood, QueuesGood, OthersGood;
    var w := OneOpen(file);
    NextKeeps(w, Fork(1, 2));
    var w1 := w.(tables := w.tables[2 := w.tables[1]]);
    assert ForkProcess(w, 1, 2) == w1;
    NextKeeps(w1, CloseFile(2, 3));
    assert NoSlots()[3 := OtherFd(file)][3 := Null] == NoSlots();
    assert w1.tables[2 := NoSlots()] == ClosedByChild(file).tables;
  }

  lemma ForkedRun(file: Addr)
    requires file != NULL
    ensures Boot(Alone()) && Follows(Alone(), [OpenFile(1, file), Fork(1, 2), CloseFile(2, 3)])
    ensures After(Alone(), [OpenFile(1, file), Fork(1, 2), CloseFile(2, 3)]) == ClosedByChild(file)
  {
    hide Inv, CanStep, Next, Boot;
    AloneBoots();
    FirstOpen(file);
    ForkAndClose(file);
    var w2 := Next(OneOpen(file), Fork(1, 2));
    StepThen(w2, CloseFile(2, 3), []);
    StepThen(OneOpen(file), Fork(1, 2), [CloseFile(2, 3)]);
    StepThen(Alone(), OpenFile(1, file), [Fork(1, 2), CloseFile(2, 3)]);
    assert [OpenFile(1, file)] + ([Fork(1, 2)] + [CloseFile(2, 3)]) == [OpenFile(1, file), Fork(1, 2), CloseFile(2, 3)];
  }

  /** A process opens a file and forks, and the child closes the file: the parent's slot now
      names a freed page.  If that page became the file object of a queue of the child,
      the parent would have a descriptor on a queue it is no member of. */
  lemma ForkedFileDangles(file: Addr, pages: Pages)
    requires file != NULL && pages.info != NULL && pages.file == file && |pages.beyond| == MEMORY_CELLS - TABLE_CELLS
    ensures Boot(Alone()) && Follows(Alone(), [OpenFile(1, file), Fork(1, 2), CloseFile(2, 3)])
    ensures var w := After(Alone(), [OpenFile(1, file), Fork(1, 2), CloseFile(2, 3)]);
            && Names(w, 1, 3, file) && file !in w.others
            && 2 in w.tables && |w.tables[2]| == MAX_OPEN_FILES
            && var w' := CreateQueue(w, 2, pages);
               Names(w', 1, 3, file) && file in w'.files && !Member(w', 1, w'.files[file].queue)
  {
    hide Inv, CanStep, Next, Boot, Follows, After, Created;
    ForkedRun(file);
    assert FreeSlot(NoSlots(), Null, FIRST_FD) == 3;
    CreatedMembers(2, pages.beyond);
  }

  /** In every reachable state a live process has a descriptor on a queue, and then
      exactly one, if and only if it is listed as a member; and no descriptor of a live
      process that was opened on a queue refers to a freed file object or a freed queue.
      Slots of the file layer never refer to a queue's file object, and none refers to a
      freed object if and only if no step dropped an object that another process held. */
  lemma ReachableLifetimes(w0: World, steps: seq<Step>)
    requires Boot(w0) && Follows(w0, steps)
    ensures var w := After(w0, steps);
            && (forall p, a :: p in w.tables ==> (Holds(w, p, a) <==> Member(w, p, a)))
            && (forall p, a :: Member(w, p, a) ==> p in w.tables)
            && (forall p, a, fd, fd' :: OpenOn(w, p, fd, a) && OpenOn(w, p, fd', a) ==> fd == fd')
            && (forall p, fd :: p in w.tables && 0 <= fd < MAX_OPEN_FILES && w.tables[p][fd].QueueFd? ==>
                  w.tables[p][fd].file in w.files && w.files[w.tables[p][fd].file].queue in w.queues)
            && (forall p, fd, a :: Names(w, p, fd, a) ==> a !in w.files)
            && (NoneDangles(w) <==> NeverDropsShared(w0, steps))
  {
    var w := After(w0, steps);
    DanglingExact(w0, steps);
    forall p, a | Holds(w, p, a) ensures Member(w, p, a) {
      var fd: nat :| OpenOn(w, p, fd, a);
    }
    forall p, a | Member(w, p, a) ensures p in w.tables {
      assert Holds(w, p, a);
    }
  }

  /** A step makes a queue disappear if and only if its only member closes it or exits,
      and then its buffer and its file object go in the same step. */
  lemma FreedByLastLeaver(w: World, step: Step, a: Addr)
    requires Inv(w) && CanStep(w, step) && a in w.queues
    ensures a !in Next(w, step).queues <==>
            && w.queues[a].value.members == [step.p]
            && (step.Exit? || (step.CloseQueue? && OpenOn(w, step.p, step.fd, a)))
    ensures w.queues[a].buffer != NULL ==>
              (a in Next(w, step).queues <==> w.queues[a].buffer in Next(w, step).buffers)
    ensures forall f :: f in w.files && w.files[f].queue == a ==>
              (a in Next(w, step).queues <==> f in Next(w, step).files)
  {
    hide MembersGood, OthersGood, Good, DoClose, DoJoin, Perform, Created, FreeSlot, LeaveTable;
    match step
    case Create(p, pages) =>
    case Fork(p, child) =>
    case CloseQueue(p, fd) =>
    case Exit(p) =>
    case Use(p, fd, op) =>
    case OpenFile(p, file) =>
    case CloseFile(p, fd) =>
  }

  /** Once the exit handler of the queues has run, no descriptor of the process refers to
      a queue any more: the file layer's exit handler meets none. */
  lemma CleanupClosesAll(w: World, p: Pid, fd: nat)
    requires Inv(w) && p in w.tables && fd < MAX_OPEN_FILES
    ensures !LeaveQueues(w, p, QueuesOf(w, p)).tables[p][fd].QueueFd?
  {
  }

  // ---- What one queue sees of a run of the kernel ----

  /** The operation a step performs on queue `a`, if any. */
  ghost function OpsOn(w: World, step: Step, a: Addr): seq<Op>
    requires Inv(w) && CanStep(w, step) && a in w.queues
  {
    match step
    case Create(p, pages) => []
    case Fork(p, child) => if p in w.queues[a].value.members then [Join(child)] else []
    case CloseQueue(p, fd) => if a in TargetOf(w, p, fd) then [Close(p)] else []
    case Exit(p) => if p in w.queues[a].value.members then [Close(p)] else []
    case Use(p, fd, op) => if a in TargetOf(w, p, fd) then [op] else []
    case OpenFile(p, file) => []
    case CloseFile(p, fd) => []
  }

  lemma StepOnQueue(w: World, step: Step, a: Addr)
    requires Inv(w) && CanStep(w, step) && a in w.queues && a in Next(w, step).queues
    ensures var q, q', ops := w.queues[a].value, Next(w, step).queues[a].value, OpsOn(w, step, a);
            if ops == [] then q' == q
            else |ops| == 1 && Enabled(q, ops[0]) && q' == Perform(q, ops[0]).queue
  {
    hide Good, ObjectsGood, MembersGood, DoClose, DoSend, DoReceive, DoBlock;
    match step
    case Create(p, pages) =>
    case Fork(p, child) => ChildIsNew(w, child); assert !Member(w, child, a);
    case CloseQueue(p, fd) =>
    case Exit(p) =>
    case Use(p, fd, op) =>
    case OpenFile(p, file) =>
    case CloseFile(p, fd) =>
  }

  /** Queue `a` is there from the first to the last state of the run. */
  ghost predicate Lives(w: World, steps: seq<Step>, a: Addr)
    requires Inv(w) && Follows(w, steps)
    decreases |steps|
  {
    a in w.queues && (steps == [] || (NextKeeps(w, steps[0]); Lives(Next(w, steps[0]), steps[1..], a)))
  }

  ghost function OpsAlong(w: World, steps: seq<Step>, a: Addr): seq<Op>
    requires Inv(w) && Follows(w, steps) && Lives(w, steps, a)
    decreases |steps|
  {
    if steps == [] then []
    else NextKeeps(w, steps[0]); OpsOn(w, steps[0], a) + OpsAlong(Next(w, steps[0]), steps[1..], a)
  }

  /** Every run of the kernel is, for each queue that outlives it, a run of that queue
      alone: fork joins, exit closes, and steps on other queues do nothing. */
  lemma {:induction false} KernelRunIsQueueRun(w: World, steps: seq<Step>, a: Addr)
    requires Inv(w) && Follows(w, steps) && Lives(w, steps, a)
    ensures a in After(w, steps).queues
    ensures Possible(w.queues[a].value, OpsAlong(w, steps, a))
    ensures Run(w.queues[a].value, OpsAlong(w, steps, a)) == After(w, steps).queues[a].value
    decreases |steps|
  {
    if steps == [] {
    } else {
      NextKeeps(w, steps[0]);
      var w' := Next(w, steps[0]);
      StepOnQueue(w, steps[0], a);
      KernelRunIsQueueRun(w', steps[1..], a);
      var ops := OpsAlong(w, steps, a);
      if OpsOn(w, steps[0], a) == [] {
        assert ops == OpsAlong(w', steps[1..], a);
      } else {
        assert ops[1..] == OpsAlong(w', steps[1..], a);
      }
    }
  }
}
