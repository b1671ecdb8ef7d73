/**
  What a process can rely on when it uses regular files, over single calls and whole runs.
 */
module FileRuns {
  import opened Common
  import opened FileModel

  ghost predicate Possible<Id>(v: View<Id>, ops: seq<Op<Id>>)
    requires Inv(v)
    decreases |ops|
  {
    ops == [] || (Allowed(v, ops[0]) && (PerformKeeps(v, ops[0]); Possible(Perform(v, ops[0]).view, ops[1..])))
  }

  ghost function Run<Id>(v: View<Id>, ops: seq<Op<Id>>): (r: View<Id>)
    requires Inv(v) && Possible(v, ops)
    ensures Inv(r)
    decreases |ops|
  {
    if ops == [] then v
    else PerformKeeps(v, ops[0]); Run(Perform(v, ops[0]).view, ops[1..])
  }

  // ---- Only writable descriptors change bytes ----

  predicate Through<Id>(v: View<Id>, fd: nat, name: string)
    requires Inv(v)
  {
    IsOpen(v, fd) && DescOf(v, fd).flags.write && DescOf(v, fd).name == name
  }

  /** The operation goes through a descriptor that is open on `name` for writing. */
  predicate MayWrite<Id>(v: View<Id>, op: Op<Id>, name: string)
    requires Inv(v)
  {
    match op
    case Write(fd, data) => Through(v, fd, name)
    case Send(outfd, infd, offset, count, front) => Through(v, outfd, name)
    case _ => false
  }

  ghost predicate NeverWrites<Id>(v: View<Id>, ops: seq<Op<Id>>, name: string)
    requires Inv(v) && Possible(v, ops)
    decreases |ops|
  {
    || ops == []
    || (!MayWrite(v, ops[0], name) && (PerformKeeps(v, ops[0]); NeverWrites(Perform(v, ops[0]).view, ops[1..], name)))
  }

  lemma StepKeepsBytes<Id>(v: View<Id>, op: Op<Id>, name: string)
    requires Inv(v) && Allowed(v, op) && name in v.bytes && !MayWrite(v, op, name)
    ensures name in Perform(v, op).view.bytes && Perform(v, op).view.bytes[name] == v.bytes[name]
  {
    hide Inv, DoOpen, DoRead, DoWrite, DoSeek, DoDup2, DoClose, DoSend;
    hide SafeDup, SafeWrite, SafeSend, PageHolds, Reaches;
    match op
    case OpenFile(id, n, flags) => OpenBytes(v, id, n, flags, name);
    case Read(fd, count) => ReadKeeps(v, fd, count);
    case Write(fd, data) => WriteBytes(v, fd, data, name);
    case Seek(fd, offset, whence) => SeekBytes(v, fd, offset, whence);
    case Dup2(oldfd, newfd) => DupBytes(v, oldfd, newfd);
    case Close(fd) => CloseBytes(v, fd);
    case Send(outfd, infd, offset, count, front) => SendBytes(v, outfd, infd, offset, count, front, name);
  }

  lemma OpenBytes<Id>(v: View<Id>, id: Id, n: string, flags: Flags, name: string)
    requires Inv(v) && name in v.bytes
    ensures var b := DoOpen(v, id, n, flags).view.bytes; name in b && b[name] == v.bytes[name]
  {
  }

  lemma SeekBytes<Id>(v: View<Id>, fd: nat, offset: int, whence: Whence)
    requires Inv(v)
    ensures DoSeek(v, fd, offset, whence).view.bytes == v.bytes
  {
  }

  lemma DupBytes<Id>(v: View<Id>, oldfd: nat, newfd: nat)
    requires Inv(v) && SafeDup(v, oldfd, newfd)
    ensures DoDup2(v, oldfd, newfd).view.bytes == v.bytes
  {
  }

  lemma CloseBytes<Id>(v: View<Id>, fd: nat)
    requires Inv(v)
    ensures DoClose(v, fd).view.bytes == v.bytes
  {
  }

  lemma WriteBytes<Id>(v: View<Id>, fd: nat, data: seq<Byte>, name: string)
    requires Inv(v) && name in v.bytes && !Through(v, fd, name)
    ensures var b := DoWrite(v, fd, data).view.bytes; name in b && b[name] == v.bytes[name]
  {
  }

  lemma SendBytes<Id>(v: View<Id>, outfd: nat, infd: nat, offset: Offset, count: nat, front: seq<Byte>, name: string)
    requires Inv(v) && Reaches(front, offset) && name in v.bytes && !Through(v, outfd, name)
    ensures var b := DoSend(v, outfd, infd, offset, count, front).view.bytes; name in b && b[name] == v.bytes[name]
  {
    assert |v.slots| == MAX_OPEN_FILES;
    hide Inv, Fetch, Slice, Long, LowWord, DoRead, DoWrite;
    if IsOpen(v, infd) {
      var r := Source(v, infd, offset, count, front);
      ReadKeeps(v, infd, count);
      ReadNames(v, infd, count, outfd);
      assert !Through(r.view, outfd, name);
      WriteBytes(r.view, outfd, r.data, name);
    }
  }

  lemma ReadNames<Id>(v: View<Id>, fd: nat, count: nat, other: nat)
    requires Inv(v) && Inv(DoRead(v, fd, count).view)
    ensures IsOpen(DoRead(v, fd, count).view, other) <==> IsOpen(v, other)
    ensures IsOpen(v, other) ==>
              var d, d' := DescOf(v, other), DescOf(DoRead(v, fd, count).view, other);
              d'.name == d.name && d'.flags == d.flags
  {
  }

  /** In every run, a file's bytes are unchanged unless some call of the run wrote through
      a descriptor open on that file with write permission. */
  lemma {:induction false} BytesUntouched<Id>(v: View<Id>, ops: seq<Op<Id>>, name: string)
    requires Inv(v) && Possible(v, ops) && name in v.bytes && NeverWrites(v, ops, name)
    ensures name in Run(v, ops).bytes && Run(v, ops).bytes[name] == v.bytes[name]
    decreases |ops|
  {
    if ops == [] {
    } else {
      StepKeepsBytes(v, ops[0], name);
      PerformKeeps(v, ops[0]);
      BytesUntouched(Perform(v, ops[0]).view, ops[1..], name);
    }
  }

  // ---- Round trips ----

  /** Writing, seeking back and reading gives the written bytes back, and the file is the
      old one with them laid over it. */
  lemma WriteSeekRead<Id>(v: View<Id>, fd: nat, data: seq<Byte>)
    requires Inv(v) && IsOpen(v, fd) && DescOf(v, fd).flags.read && DescOf(v, fd).flags.write && Fits(v, fd, |data|)
    ensures Inv(DoWrite(v, fd, data).view)
    ensures var d, w := DescOf(v, fd), DoWrite(v, fd, data);
            var s := DoSeek(w.view, fd, d.off, SEEK_SET);
            && w.code == |data| && s.code == d.off
            && Inv(s.view)
            && var r := DoRead(s.view, fd, |data|);
               && r.code == |data| && r.data == data
               && r.view == w.view
               && r.view.bytes == v.bytes[d.name := Overlay(v.bytes[d.name], d.off, data)]
  {
    hide Overlay, Count;
    WriteKeeps(v, fd, data);
    var d, w := DescOf(v, fd), DoWrite(v, fd, data).view;
    SeekKeeps(w, fd, d.off, SEEK_SET);
    var s := DoSeek(w, fd, d.off, SEEK_SET).view;
    assert s == WithOffset(w, fd, d.off);
    assert Slice(Overlay(v.bytes[d.name], d.off, data), d.off, |data|) == data;
    assert WithOffset(s, fd, d.off + |data|) == w;
  }

  /** Reading twice gives what one longer read gives. */
  lemma ReadInTwo<Id>(v: View<Id>, fd: nat, m: nat, n: nat)
    requires Inv(v) && IsOpen(v, fd) && DescOf(v, fd).flags.read && m + n < INT_LIMIT
    ensures Inv(DoRead(v, fd, m).view)
    ensures var a := DoRead(v, fd, m); var b := DoRead(a.view, fd, n);
            a.data + b.data == DoRead(v, fd, m + n).data && b.view == DoRead(v, fd, m + n).view
  {
    ReadKeeps(v, fd, m);
  }

  /** After dup2 the two descriptors are one: reading, writing and seeking through either
      is the same operation. */
  lemma DupIsAlias<Id>(v: View<Id>, oldfd: nat, newfd: nat, count: nat, data: seq<Byte>, delta: int, whence: Whence)
    requires Inv(v) && SafeDup(v, oldfd, newfd) && IsOpen(v, oldfd)
    ensures var v' := DoDup2(v, oldfd, newfd).view;
            && Inv(v') && IsOpen(v', oldfd) && IsOpen(v', newfd)
            && DescOf(v', oldfd) == DescOf(v', newfd)
            && DescOf(v', oldfd).off == DescOf(v, oldfd).off
            && DoRead(v', oldfd, count) == DoRead(v', newfd, count)
            && DoWrite(v', oldfd, data) == DoWrite(v', newfd, data)
            && DoSeek(v', oldfd, delta, whence) == DoSeek(v', newfd, delta, whence)
  {
    hide Overlay, Slice, Count;
    DupKeeps(v, oldfd, newfd);
    SourceStays(v, oldfd, newfd);
    var v' := DoDup2(v, oldfd, newfd).view;
    assert v'.slots[oldfd] == v'.slots[newfd] == v.slots[oldfd];
    SameDescriptor(v', oldfd, newfd, count, data, delta, whence);
  }

  lemma SameDescriptor<Id>(v: View<Id>, a: nat, b: nat, count: nat, data: seq<Byte>, delta: int, whence: Whence)
    requires Inv(v) && IsOpen(v, a) && IsOpen(v, b) && v.slots[a] == v.slots[b]
    ensures DoRead(v, a, count) == DoRead(v, b, count) && DoWrite(v, a, data) == DoWrite(v, b, data)
    ensures DoSeek(v, a, delta, whence) == DoSeek(v, b, delta, whence)
  {
    hide Overlay, Slice, RefsGood, BytesGood;
  }

  // ---- Writes that do not fit ----

  /** The offset moves by the number of bytes written if and only if the write fits. */
  lemma WriteOffsetExact<Id>(v: View<Id>, fd: nat, data: seq<Byte>)
    requires Inv(v) && IsOpen(v, fd) && DescOf(v, fd).flags.write
    ensures var r := DoWrite(v, fd, data);
            var written := if r.code < 0 then 0 else r.code;
            r.view.descs[v.slots[fd].id].off == DescOf(v, fd).off + written <==> Fits(v, fd, |data|)
    ensures !Fits(v, fd, |data|) ==> DoWrite(v, fd, data).code == -1 && DoWrite(v, fd, data).view.bytes == v.bytes
  {
  }

  /** A process whose only descriptor is at the end of a full file. */
  function AtTheEnd(): View<int> {
    View(map["f" := seq(FILE_SIZE, _ => 7)], seq(MAX_OPEN_FILES, _ => Empty)[3 := Open(0)],
         map[0 := Desc("f", Flags(true, true, true), FILE_SIZE, 1)], {})
  }

  lemma AtTheEndGood()
    ensures Inv(AtTheEnd())
  {
    hide Count;
    CountNone(seq(MAX_OPEN_FILES, _ => Empty), 0);
    CountUpdate(seq(MAX_OPEN_FILES, _ => Empty), 3, Open(0), 0);
  }

  /** One byte too many there: nothing is written and the offset goes back. */
  lemma FullFileExample()
    ensures var v := AtTheEnd();
            && Inv(v) && IsOpen(v, 3)
            && DoWrite(v, 3, [1]).code == -1
            && DoWrite(v, 3, [1]).view.descs[0].off == FILE_SIZE - 1
  {
    hide Inv, Overlay;
    AtTheEndGood();
  }

  // ---- sendfile ----

  /** How many bytes are left for the input. */
  function Left(size: nat, pos: nat): nat {
    if pos >= size then 0 else size - pos
  }

  /** The bytes of a file from position `pos` on; there are none at a negative one. */
  function BytesAt(data: seq<Byte>, pos: int, count: nat): (r: seq<Byte>)
    ensures |r| == if pos < 0 then 0 else Min(count, Left(|data|, pos))
  {
    if pos < 0 then [] else Slice(data, pos, count)
  }

  /** A long offset that sendfile reads as meant: nothing is asked for, or it is an offset
      an int can hold, or its low word, read as an int, is not before the end of the file. */
  predicate Addresses(pos: int, count: nat, size: nat) {
    count == 0 || 0 <= pos < INT_LIMIT || LowWord(pos) >= size
  }

  /** The read behind sendfile gets min(count, bytes left) bytes from the explicit offset if
      and only if the offset is of this kind. */
  lemma FetchExact(front: seq<Byte>, data: seq<Byte>, pos: int, count: nat)
    requires |data| <= FILE_SIZE && Reaches(front, At(pos))
    ensures Fetch(front, data, LowWord(pos), count) == BytesAt(data, pos, count) <==> Addresses(pos, count, |data|)
  {
    if 0 <= pos < INT_LIMIT {
      assert LowWord(pos) == pos;
    }
  }

  /** sendfile with such an explicit offset copies min(count, bytes left) bytes to the
      output's offset, moves the explicit offset and the output, and leaves the input
      descriptor alone, also when both name the same file.  Its page holds the bytes. */
  lemma SendAtOffset<Id>(v: View<Id>, outfd: nat, infd: nat, pos: int, count: nat, front: seq<Byte>)
    requires Inv(v) && IsOpen(v, infd) && IsOpen(v, outfd) && DescOf(v, infd).flags.read && DescOf(v, outfd).flags.write
    requires -LONG_LIMIT <= pos < LONG_LIMIT && Reaches(front, At(pos))
    ensures var data := v.bytes[DescOf(v, infd).name];
            Source(v, infd, At(pos), count, front).data == BytesAt(data, pos, count) <==> Addresses(pos, count, |data|)
    ensures var i, o := DescOf(v, infd), DescOf(v, outfd);
            var got := BytesAt(v.bytes[i.name], pos, count);
            var r := DoSend(v, outfd, infd, At(pos), count, front);
            Addresses(pos, count, |v.bytes[i.name]|) && Fits(v, outfd, |got|) ==>
              && r.code == |got| && r.offset == At(pos + |got|)
              && r.view.bytes == v.bytes[o.name := Overlay(v.bytes[o.name], o.off, got)]
              && r.view.descs == v.descs[v.slots[outfd].id := o.(off := o.off + |got|)]
              && PageHolds(v, infd, At(pos), count)
  {
    OpenFacts(v, infd);
    OpenFacts(v, outfd);
    var data := v.bytes[DescOf(v, infd).name];
    FetchExact(front, data, pos, count);
    hide Inv, Overlay, Slice, LowWord, Long;
  }

  /** From 2^32 on the offset starts again at the first byte of the file. */
  lemma SendWrapsAround<Id>(v: View<Id>, infd: nat, count: nat, front: seq<Byte>)
    requires Inv(v) && IsOpen(v, infd) && DescOf(v, infd).flags.read && count > 0 && v.bytes[DescOf(v, infd).name] != []
    ensures LowWord(U32S) == 0
    ensures var data := v.bytes[DescOf(v, infd).name];
            var r := Source(v, infd, At(U32S), count, front);
            && r.data == Slice(data, 0, count) != [] == BytesAt(data, U32S, count)
            && r.offset == At(U32S + |r.data|)
  {
    OpenFacts(v, infd);
  }

  /** At -1 a long read of a full file begins with the byte in front of its page, and is
      one byte too long for sendfile's own page. */
  lemma SendBeforeTheFile<Id>(v: View<Id>, infd: nat, front: seq<Byte>)
    requires Inv(v) && IsOpen(v, infd) && DescOf(v, infd).flags.read && front != []
    requires |v.bytes[DescOf(v, infd).name]| == FILE_SIZE
    ensures var r := Source(v, infd, At(-1), FILE_SIZE + 1, front);
            && r.data == [front[|front| - 1]] + v.bytes[DescOf(v, infd).name]
            && |r.data| > FILE_SIZE && !PageHolds(v, infd, At(-1), FILE_SIZE + 1)
  {
    assert LowWord(-1) == -1;
  }

  /** Without an explicit offset the input descriptor moves; if both descriptors share one
      object the copied bytes go behind the bytes that were read. */
  lemma SendFromDescriptor<Id>(v: View<Id>, outfd: nat, infd: nat, count: nat, front: seq<Byte>)
    requires Inv(v) && IsOpen(v, infd) && IsOpen(v, outfd) && DescOf(v, infd).flags.read && DescOf(v, outfd).flags.write
    requires var n := Min(count, |v.bytes[DescOf(v, infd).name]| - DescOf(v, infd).off);
             Fits(v, outfd, if v.slots[infd] == v.slots[outfd] then n + n else n)
    ensures var i, o := DescOf(v, infd), DescOf(v, outfd);
            var n := Min(count, |v.bytes[i.name]| - i.off);
            var shared := v.slots[infd] == v.slots[outfd];
            var r := DoSend(v, outfd, infd, NoOffset, count, front);
            && r.code == n && r.offset == NoOffset && n <= FILE_SIZE
            && r.view.bytes == v.bytes[o.name := Overlay(v.bytes[o.name], if shared then o.off + n else o.off,
                                                         Slice(v.bytes[i.name], i.off, count))]
            && r.view.descs ==
                 if shared then v.descs[v.slots[outfd].id := o.(off := o.off + n + n)]
                 else v.descs[v.slots[infd].id := i.(off := i.off + n)][v.slots[outfd].id := o.(off := o.off + n)]
  {
    hide Overlay, Slice, RefsGood;
    OpenFacts(v, infd);
    OpenFacts(v, outfd);
    ReadKeeps(v, infd, count);
    var i, r := DescOf(v, infd), DoRead(v, infd, count);
    var n := Min(count, |v.bytes[i.name]| - i.off);
    assert |r.data| == n && r.view.descs == v.descs[v.slots[infd].id := i.(off := i.off + n)];
  }

  // ---- Exit ----

  /** What is true of the descriptors from `slots` on while the exit handler walks over them. */
  predicate Remaining<Id>(slots: seq<Slot<Id>>, descs: map<Id, Desc>) {
    && (forall fd :: 0 <= fd < |slots| && slots[fd].Open? ==> slots[fd].id in descs)
    && (forall id :: id in descs ==> descs[id].refs == Count(slots, id) > 0)
  }

  lemma RemainingStep<Id>(slots: seq<Slot<Id>>, descs: map<Id, Desc>)
    requires Remaining(slots, descs) && slots != []
    ensures Remaining(slots[1..], if slots[0].Open? then Drop(descs, slots[0].id) else descs)
  {
    var rest, left := slots[1..], if slots[0].Open? then Drop(descs, slots[0].id) else descs;
    forall fd | 0 <= fd < |rest| && rest[fd].Open? ensures rest[fd].id in left {
      assert rest[fd] == slots[fd + 1];
      CountOpen(rest, fd);
    }
  }

  /** The exit handler of the file layer.  That this is well-defined says that it never
      touches an object it freed before. */
  function DropAll<Id>(slots: seq<Slot<Id>>, descs: map<Id, Desc>): map<Id, Desc>
    requires Remaining(slots, descs)
    decreases |slots|
  {
    if slots == [] then descs
    else RemainingStep(slots, descs); DropAll(slots[1..], if slots[0].Open? then Drop(descs, slots[0].id) else descs)
  }

  /** When a process exits every file object it has a descriptor on is freed. */
  lemma {:induction false} ExitFreesAll<Id>(slots: seq<Slot<Id>>, descs: map<Id, Desc>)
    requires Remaining(slots, descs)
    ensures DropAll(slots, descs) == map[]
    decreases |slots|
  {
    if slots == [] {
      assert forall id :: id in descs ==> Count(slots, id) > 0;
    } else {
      RemainingStep(slots, descs);
      ExitFreesAll(slots[1..], if slots[0].Open? then Drop(descs, slots[0].id) else descs);
    }
  }

  /** The file objects still allocated after the exit handler. */
  function AfterExit<Id>(v: View<Id>): set<Id>
    requires Inv(v)
  {
    DropAll(v.slots, v.descs).Keys + v.lost
  }

  lemma ExitLeaves<Id>(v: View<Id>)
    requires Inv(v)
    ensures AfterExit(v) == v.lost
  {
    ExitFreesAll(v.slots, v.descs);
  }

  /** No open of the run finds every descriptor from 3 on taken after it passed its checks. */
  ghost predicate NeverLoses<Id>(v: View<Id>, ops: seq<Op<Id>>)
    requires Inv(v) && Possible(v, ops)
    decreases |ops|
  {
    || ops == []
    || (&& !(ops[0].OpenFile? && Loses(v, ops[0].name, ops[0].flags))
        && (PerformKeeps(v, ops[0]); NeverLoses(Perform(v, ops[0]).view, ops[1..])))
  }

  lemma {:induction false} LossesAddUp<Id>(v: View<Id>, ops: seq<Op<Id>>)
    requires Inv(v) && Possible(v, ops)
    ensures v.lost <= Run(v, ops).lost
    ensures Run(v, ops).lost == v.lost <==> NeverLoses(v, ops)
    decreases |ops|
  {
    if ops == [] {
    } else {
      PerformKeeps(v, ops[0]);
      PerformLoses(v, ops[0]);
      var v1 := Perform(v, ops[0]).view;
      LossesAddUp(v1, ops[1..]);
      if ops[0].OpenFile? && Loses(v, ops[0].name, ops[0].flags) {
        assert ops[0].id in v1.lost && ops[0].id !in v.lost;
      }
    }
  }

  /** After any run the exit handler frees every object but those that opens lost: none
      is left over if and only if no open of the run found its descriptors taken. */
  lemma RunThenExit<Id>(v: View<Id>, ops: seq<Op<Id>>)
    requires Inv(v) && Possible(v, ops)
    ensures AfterExit(Run(v, ops)) == Run(v, ops).lost
    ensures AfterExit(Run(v, ops)) == v.lost <==> NeverLoses(v, ops)
  {
    ExitLeaves(Run(v, ops));
    LossesAddUp(v, ops);
  }

  // ---- The fourteenth open ----

  const OPEN_F := Flags(true, false, true)

  function OpenedSlots(n: nat): (r: seq<Slot<nat>>)
    requires n <= MAX_OPEN_FILES - FIRST_FD
    ensures |r| == MAX_OPEN_FILES
    ensures forall fd :: 0 <= fd < MAX_OPEN_FILES ==> (r[fd] == Empty <==> fd < FIRST_FD || fd >= FIRST_FD + n)
  {
    if n == 0 then seq(MAX_OPEN_FILES, _ => Empty) else OpenedSlots(n - 1)[FIRST_FD + n - 1 := Open(n - 1)]
  }

  function OpenedDescs(n: nat): (r: map<nat, Desc>)
    ensures forall k :: k in r <==> 0 <= k < n
  {
    if n == 0 then map[] else OpenedDescs(n - 1)[n - 1 := Desc("f", OPEN_F.(creat := false), 0, 1)]
  }

  /** `n` descriptors on one file, each with an object of its own. */
  function Opened(n: nat): View<nat>
    requires n <= MAX_OPEN_FILES - FIRST_FD
  {
    View(if n == 0 then map[] else map["f" := []], OpenedSlots(n), OpenedDescs(n), {})
  }

  function Opens(n: nat, m: nat): (r: seq<Op<nat>>)
    requires n <= m
    ensures |r| == m - n
    decreases m - n
  {
    if n == m then [] else [OpenFile(n, "f", OPEN_F)] + Opens(n + 1, m)
  }

  lemma OpenNext(n: nat)
    requires n < MAX_OPEN_FILES - FIRST_FD
    ensures DoOpen(Opened(n), n, "f", OPEN_F) == Reply(Opened(n + 1), FIRST_FD + n, [], NoOffset)
  {
    hide OpenedSlots, OpenedDescs;
    var fd := FreeSlot(OpenedSlots(n), Empty, FIRST_FD);
    assert OpenedSlots(n)[FIRST_FD + n] == Empty;
    assert fd == FIRST_FD + n;
    NextIs(n);
  }

  lemma NextIs(n: nat)
    requires n < MAX_OPEN_FILES - FIRST_FD
    ensures OpenedSlots(n + 1) == OpenedSlots(n)[FIRST_FD + n := Open(n)]
    ensures OpenedDescs(n + 1) == OpenedDescs(n)[n := Desc("f", OPEN_F.(creat := false), 0, 1)]
  {
  }

  lemma NothingOpened()
    ensures Inv(Opened(0))
  {
    forall id ensures Count(OpenedSlots(0), id) == 0 {
      CountNone(OpenedSlots(0), id);
    }
  }

  lemma {:induction false} OpenedGood(n: nat)
    requires n <= MAX_OPEN_FILES - FIRST_FD
    ensures Inv(Opened(n))
  {
    hide Inv, DoOpen, OpenedSlots, OpenedDescs;
    if n == 0 {
      NothingOpened();
    } else {
      OpenedGood(n - 1);
      OpenNext(n - 1);
      OpenKeeps(Opened(n - 1), n - 1, "f", OPEN_F);
      hide Opened;
    }
  }

  lemma RunThen<Id>(v: View<Id>, op: Op<Id>, rest: seq<Op<Id>>)
    requires Inv(v) && Allowed(v, op) && Inv(Perform(v, op).view) && Possible(Perform(v, op).view, rest)
    ensures Possible(v, [op] + rest) && Run(v, [op] + rest) == Run(Perform(v, op).view, rest)
  {
    hide Inv, Allowed, Perform;
    assert ([op] + rest)[1..] == rest;
  }

  lemma OpenStep(n: nat)
    requires n < MAX_OPEN_FILES - FIRST_FD
    ensures Inv(Opened(n)) && Inv(Opened(n + 1)) && Allowed(Opened(n), OpenFile(n, "f", OPEN_F))
    ensures Perform(Opened(n), OpenFile(n, "f", OPEN_F)).view == Opened(n + 1)
  {
    OpenedGood(n);
    OpenedGood(n + 1);
    assert n !in Objects(Opened(n));
    hide Inv, DoOpen, Opened;
    OpenNext(n);
  }

  lemma {:induction false} RunOpens(n: nat, m: nat)
    requires n <= m <= MAX_OPEN_FILES - FIRST_FD
    ensures Inv(Opened(n)) && Possible(Opened(n), Opens(n, m))
    ensures Run(Opened(n), Opens(n, m)) == Opened(m)
    decreases m - n
  {
    hide Inv, Opened, Allowed, Perform;
    if n == m {
      OpenedGood(n);
    } else {
      OpenStep(n);
      RunOpens(n + 1, m);
      RunThen(Opened(n), OpenFile(n, "f", OPEN_F), Opens(n + 1, m));
    }
  }

  /** An open that finds no free descriptor loses its object. */
  lemma OpenLost<Id>(v: View<Id>, id: Id, name: string, flags: Flags)
    requires Inv(v) && id !in Objects(v) && Loses(v, name, flags)
    ensures var r := DoOpen(v, id, name, flags); Inv(r.view) && r.code == -ENOMEM && AfterExit(r.view) == v.lost + {id}
  {
    OpenKeeps(v, id, name, flags);
    OpenLoses(v, id, name, flags);
    var r := DoOpen(v, id, name, flags);
    ExitLeaves(r.view);
    hide Inv;
  }

  lemma AllOpened(n: nat)
    requires n == MAX_OPEN_FILES - FIRST_FD
    ensures Inv(Opened(n)) && n !in Objects(Opened(n)) && Loses(Opened(n), "f", OPEN_F) && Opened(n).lost == {}
  {
    hide Inv, OpenedSlots, OpenedDescs;
    OpenedGood(n);
    assert forall fd :: FIRST_FD <= fd < MAX_OPEN_FILES ==> OpenedSlots(n)[fd] != Empty;
  }

  /** A process that opens one file thirteen times (`n`) has all its descriptors in use; its
      fourteenth open answers -ENOMEM and leaves an object that no exit frees. */
  lemma FourteenthOpen(n: nat)
    requires n == MAX_OPEN_FILES - FIRST_FD
    ensures Inv(Opened(0)) && Possible(Opened(0), Opens(0, n))
    ensures var v := Run(Opened(0), Opens(0, n));
            var r := DoOpen(v, n, "f", OPEN_F);
            Inv(r.view) && r.code == -ENOMEM && AfterExit(v) == {} && AfterExit(r.view) == {n}
  {
    hide Inv, DoOpen, Loses, Opened, Objects, AfterExit;
    AllOpened(n);
    RunOpens(0, n);
    ExitLeaves(Opened(n));
    OpenLost(Opened(n), n, "f", OPEN_F);
  }

  // ---- Fork ----

  lemma {:induction false} CountConcat<Id>(a: seq<Slot<Id>>, b: seq<Slot<Id>>, id: Id)
    ensures Count(a + b, id) == Count(a, id) + Count(b, id)
  {
    if a == [] {
      assert a + b == b;
    } else {
      assert (a + b)[1..] == a[1..] + b;
      CountConcat(a[1..], b, id);
    }
  }

  /** A fork copies the descriptors and not the counts.  The counts are then right for
      parent and child together if and only if the parent has no file open. */
  lemma ForkCountsExact<Id>(v: View<Id>)
    requires Inv(v)
    ensures (forall id :: id in v.descs ==> v.descs[id].refs == Count(v.slots + v.slots, id)) <==>
            (forall fd :: 0 <= fd < MAX_OPEN_FILES ==> v.slots[fd] == Empty)
  {
    forall id ensures Count(v.slots + v.slots, id) == Count(v.slots, id) + Count(v.slots, id) {
      CountConcat(v.slots, v.slots, id);
    }
    if forall fd :: 0 <= fd < MAX_OPEN_FILES ==> v.slots[fd] == Empty {
      forall id ensures Count(v.slots, id) == 0 {
        CountNone(v.slots, id);
      }
    }
  }
}
