/**
  The reference view of one process's regular files: a map from names to byte strings,
  and descriptors that share an offset and a mode with every duplicate.
 */
module FileModel {
  import opened Common

  const NUM_FILES := 32
  const FILE_SIZE := 4096
  /** The length of an inode's name field. */
  const NAME_SIZE := 256
  const U32S := 0x1_0000_0000
  const LONG_LIMIT := 0x8000_0000_0000_0000

  /** The access bits of open; `creat` doubles as the bit that open toggles. */
  datatype Flags = Flags(read: bool, write: bool, creat: bool)

  datatype Whence = SEEK_SET | SEEK_CUR | SEEK_END | OTHER

  datatype Slot<+Id> = Empty | Open(id: Id)

  datatype Desc = Desc(name: string, flags: Flags, off: int, refs: int)

  /** `Id` identifies a file object.  The allocated objects are those descriptors are open
      on, with what they say, and those that an open allocated and lost. */
  datatype View<Id> = View(
    bytes: map<string, seq<Byte>>,
    slots: seq<Slot<Id>>,
    descs: map<Id, Desc>,
    lost: set<Id>)

  function Objects<Id>(v: View<Id>): set<Id> {
    v.descs.Keys + v.lost
  }

  /** The caller's explicit offset of sendfile, a long. */
  datatype Offset = NoOffset | At(pos: int)

  /** `front` is the memory in front of the input's page, which a negative offset reads. */
  datatype Op<Id> =
    | OpenFile(id: Id, name: string, flags: Flags)
    | Read(fd: nat, count: nat)
    | Write(fd: nat, data: seq<Byte>)
    | Seek(fd: nat, delta: int, whence: Whence)
    | Dup2(oldfd: nat, newfd: nat)
    | Close(fd: nat)
    | Send(outfd: nat, infd: nat, offset: Offset, count: nat, front: seq<Byte>)

  /** The new view, the returned code, the bytes handed to the caller, and the caller's
      explicit offset afterwards. */
  datatype Reply<Id> = Reply(view: View<Id>, code: int, data: seq<Byte>, offset: Offset)

  function Fail<Id>(v: View<Id>, code: int): Reply<Id> {
    Reply(v, -code, [], NoOffset)
  }

  // ---- Bytes ----

  function Min(a: int, b: int): int {
    if a < b then a else b
  }

  /** At most `count` bytes from `off` on. */
  function Slice(data: seq<Byte>, off: nat, count: nat): (r: seq<Byte>)
    ensures off <= |data| ==> |r| == Min(count, |data| - off)
  {
    if off >= |data| then [] else data[off..Min(off + count, |data|)]
  }

  /** The low word of a long, read as an int. */
  function LowWord(pos: int): (r: int)
    ensures -INT_LIMIT <= r < INT_LIMIT
    ensures -INT_LIMIT <= pos < INT_LIMIT ==> r == pos
  {
    (pos + INT_LIMIT) % U32S - INT_LIMIT
  }

  /** A sum as a long holds it. */
  function Long(x: int): (r: int)
    ensures -LONG_LIMIT <= r < LONG_LIMIT
    ensures -LONG_LIMIT <= x < LONG_LIMIT ==> r == x
  {
    (x + LONG_LIMIT) % (2 * LONG_LIMIT) - LONG_LIMIT
  }

  /** What a read at a signed offset takes: nothing guards it against the memory in front. */
  function Fetch(front: seq<Byte>, data: seq<Byte>, off: int, count: nat): (r: seq<Byte>)
    requires -|front| <= off
    ensures |r| == if off >= |data| then 0 else Min(count, |data| - off)
    ensures off >= 0 ==> r == Slice(data, off, count)
  {
    Slice(front + data, |front| + off, count)
  }

  /** `buf` written over `data` at `off`, extending it if it reaches further. */
  function Overlay(data: seq<Byte>, off: nat, buf: seq<Byte>): (r: seq<Byte>)
    requires off <= |data|
    ensures |r| == if off + |buf| < |data| then |data| else off + |buf|
    ensures r[off..off + |buf|] == buf
    ensures forall k :: 0 <= k < |data| && !(off <= k < off + |buf|) ==> r[k] == data[k]
  {
    if off + |buf| < |data| then data[..off] + buf + data[off + |buf|..] else data[..off] + buf
  }

  // ---- The invariant ----

  function Count<Id(==)>(slots: seq<Slot<Id>>, id: Id): nat {
    if slots == [] then 0 else (if slots[0] == Open(id) then 1 else 0) + Count(slots[1..], id)
  }

  /** Every descriptor is open on an allocated object, every object a descriptor is open on
      counts its descriptors, and a lost object has none. */
  predicate RefsGood<Id>(v: View<Id>) {
    && (forall fd :: 0 <= fd < |v.slots| && v.slots[fd].Open? ==> v.slots[fd].id in v.descs)
    && (forall id :: id in v.descs ==> v.descs[id].refs == Count(v.slots, id) > 0)
    && v.lost !! v.descs.Keys
  }

  predicate BytesGood<Id>(v: View<Id>) {
    && |v.bytes| <= NUM_FILES
    && (forall n :: n in v.bytes ==> |v.bytes[n]| <= FILE_SIZE)
    && (forall id :: id in v.descs ==>
          var d := v.descs[id]; d.name in v.bytes && 0 <= d.off <= |v.bytes[d.name]|)
  }

  predicate Inv<Id>(v: View<Id>) {
    |v.slots| == MAX_OPEN_FILES && RefsGood(v) && BytesGood(v)
  }

  // ---- The operations ----

  /** A new file object gets the lowest free descriptor from 3 on.  When there is none the
      object stays allocated and is lost, and a file that was created stays. */
  function DoOpen<Id>(v: View<Id>, id: Id, name: string, flags: Flags): Reply<Id>
    requires |v.slots| == MAX_OPEN_FILES
  {
    if !(flags.read || flags.write) then Fail(v, EINVAL)
    else if name !in v.bytes && !flags.creat then Fail(v, EINVAL)
    else if name !in v.bytes && |v.bytes| >= NUM_FILES then Fail(v, ENOMEM)
    else
      var v1 := if name in v.bytes then v else v.(bytes := v.bytes[name := []]);
      var fd := FreeSlot(v.slots, Empty, FIRST_FD);
      if fd == MAX_OPEN_FILES then Fail(v1.(lost := v.lost + {id}), ENOMEM)
      else Reply(v1.(slots := v.slots[fd := Open(id)],
                     descs := v.descs[id := Desc(name, flags.(creat := !flags.creat), 0, 1)]), fd, [], NoOffset)
  }

  predicate IsOpen<Id>(v: View<Id>, fd: nat)
    requires |v.slots| == MAX_OPEN_FILES
  {
    fd < MAX_OPEN_FILES && v.slots[fd].Open?
  }

  function DescOf<Id>(v: View<Id>, fd: nat): Desc
    requires Inv(v) && IsOpen(v, fd)
  {
    v.descs[v.slots[fd].id]
  }

  lemma OpenFacts<Id>(v: View<Id>, fd: nat)
    requires Inv(v) && IsOpen(v, fd)
    ensures v.slots[fd].id in v.descs
    ensures var d := v.descs[v.slots[fd].id];
            d.name in v.bytes && 0 <= d.off <= |v.bytes[d.name]| <= FILE_SIZE && d.refs > 0
  {
  }

  function WithOffset<Id>(v: View<Id>, fd: nat, off: int): View<Id>
    requires Inv(v) && IsOpen(v, fd)
  {
    v.(descs := v.descs[v.slots[fd].id := DescOf(v, fd).(off := off)])
  }

  function DoRead<Id>(v: View<Id>, fd: nat, count: nat): Reply<Id>
    requires Inv(v)
  {
    if !IsOpen(v, fd) then Fail(v, EINVAL)
    else if !DescOf(v, fd).flags.read then Fail(v, EACCES)
    else
      var d := DescOf(v, fd);
      var got := Slice(v.bytes[d.name], d.off, count);
      Reply(WithOffset(v, fd, d.off + |got|), |got|, got, NoOffset)
  }

  predicate Fits<Id>(v: View<Id>, fd: nat, size: nat)
    requires Inv(v) && IsOpen(v, fd)
  {
    DescOf(v, fd).off + size <= FILE_SIZE
  }

  /** A write that does not fit answers -1, and the offset moves by that answer. */
  function DoWrite<Id>(v: View<Id>, fd: nat, data: seq<Byte>): Reply<Id>
    requires Inv(v)
  {
    if !IsOpen(v, fd) then Fail(v, EINVAL)
    else if !DescOf(v, fd).flags.write then Fail(v, EACCES)
    else
      var d := DescOf(v, fd);
      if !Fits(v, fd, |data|) then Reply(WithOffset(v, fd, (d.off - 1) % U32S), -1, [], NoOffset)
      else
        var v1 := WithOffset(v, fd, d.off + |data|);
        Reply(v1.(bytes := v.bytes[d.name := Overlay(v.bytes[d.name], d.off, data)]), |data|, [], NoOffset)
  }

  function SeekTarget<Id>(v: View<Id>, fd: nat, offset: int, whence: Whence): int
    requires Inv(v) && IsOpen(v, fd)
  {
    match whence
    case SEEK_SET => offset
    case SEEK_CUR => DescOf(v, fd).off + offset
    case SEEK_END => |v.bytes[DescOf(v, fd).name]| + offset
    case OTHER => -1
  }

  function DoSeek<Id>(v: View<Id>, fd: nat, offset: int, whence: Whence): Reply<Id>
    requires Inv(v)
  {
    if !IsOpen(v, fd) then Fail(v, EINVAL)
    else
      var target := SeekTarget(v, fd, offset, whence);
      if target < 0 || target > |v.bytes[DescOf(v, fd).name]| then Fail(v, EINVAL)
      else Reply(WithOffset(v, fd, target), target, [], NoOffset)
  }

  /** One reference less; the object goes with the last one. */
  function Drop<Id>(descs: map<Id, Desc>, id: Id): map<Id, Desc>
    requires id in descs
  {
    if descs[id].refs == 1 then descs - {id} else descs[id := descs[id].(refs := descs[id].refs - 1)]
  }

  function DoClose<Id>(v: View<Id>, fd: nat): Reply<Id>
    requires Inv(v)
  {
    if !IsOpen(v, fd) then Fail(v, EINVAL)
    else Reply(v.(slots := v.slots[fd := Empty], descs := Drop(v.descs, v.slots[fd].id)), 0, [], NoOffset)
  }

  /** Duplicating a sole descriptor onto itself would free the object first. */
  predicate SafeDup<Id>(v: View<Id>, oldfd: nat, newfd: nat)
    requires Inv(v)
  {
    newfd < MAX_OPEN_FILES && (oldfd == newfd && IsOpen(v, oldfd) ==> DescOf(v, oldfd).refs > 1)
  }

  /** Closing the target does not free the object that is being duplicated. */
  lemma SourceStays<Id>(v: View<Id>, oldfd: nat, newfd: nat)
    requires Inv(v) && SafeDup(v, oldfd, newfd) && IsOpen(v, oldfd)
    ensures v.slots[newfd] == v.slots[oldfd] ==> v.descs[v.slots[oldfd].id].refs > 1
  {
    if oldfd != newfd && v.slots[newfd] == v.slots[oldfd] {
      CountTwice(v.slots, oldfd, newfd);
    }
  }

  /** That condition is exact: the object survives the close of the target if and only if
      it holds. */
  lemma SafeDupExact<Id>(v: View<Id>, oldfd: nat, newfd: nat)
    requires Inv(v) && IsOpen(v, oldfd) && newfd < MAX_OPEN_FILES
    ensures v.slots[newfd].Open? ==> v.slots[newfd].id in v.descs
    ensures v.slots[oldfd].id in (if v.slots[newfd].Open? then Drop(v.descs, v.slots[newfd].id) else v.descs)
            <==> SafeDup(v, oldfd, newfd)
  {
    if SafeDup(v, oldfd, newfd) {
      SourceStays(v, oldfd, newfd);
    }
  }

  function DoDup2<Id>(v: View<Id>, oldfd: nat, newfd: nat): Reply<Id>
    requires Inv(v) && SafeDup(v, oldfd, newfd)
  {
    if !IsOpen(v, oldfd) then Fail(v, EINVAL)
    else
      var id := v.slots[oldfd].id;
      var d1 := if v.slots[newfd].Open? then Drop(v.descs, v.slots[newfd].id) else v.descs;
      SourceStays(v, oldfd, newfd);
      Reply(v.(slots := v.slots[newfd := Open(id)], descs := d1[id := d1[id].(refs := d1[id].refs + 1)]),
            newfd, [], NoOffset)
  }

  /** The memory in front of the input's page reaches down to the explicit offset. */
  predicate Reaches(front: seq<Byte>, offset: Offset) {
    offset.At? ==> -|front| <= LowWord(offset.pos)
  }

  /** What sendfile takes from the input: at the low word of the explicit offset, leaving
      the descriptor alone, or at the descriptor's own offset, moving it. */
  function Source<Id>(v: View<Id>, infd: nat, offset: Offset, count: nat, front: seq<Byte>): Reply<Id>
    requires Inv(v) && IsOpen(v, infd) && Reaches(front, offset)
  {
    if offset.At? then
      var got := Fetch(front, v.bytes[DescOf(v, infd).name], LowWord(offset.pos), count);
      Reply(v, |got|, got, At(Long(offset.pos + |got|)))
    else DoRead(v, infd, count)
  }

  function DoSend<Id>(v: View<Id>, outfd: nat, infd: nat, offset: Offset, count: nat, front: seq<Byte>): Reply<Id>
    requires Inv(v) && Reaches(front, offset)
  {
    if !IsOpen(v, infd) || !IsOpen(v, outfd) then Fail(v, EINVAL).(offset := offset)
    else if !DescOf(v, infd).flags.read || !DescOf(v, outfd).flags.write then Fail(v, EACCES).(offset := offset)
    else
      var r := Source(v, infd, offset, count, front);
      ReadKeeps(v, infd, count);
      DoWrite(r.view, outfd, r.data).(offset := r.offset)
  }

  /** sendfile's page holds everything it reads. */
  predicate PageHolds<Id>(v: View<Id>, infd: nat, offset: Offset, count: nat)
    requires Inv(v)
  {
    IsOpen(v, infd) && offset.At? && count > FILE_SIZE ==>
      |v.bytes[DescOf(v, infd).name]| - LowWord(offset.pos) <= FILE_SIZE
  }

  /** That condition is exact. */
  lemma PageHoldsExact<Id>(v: View<Id>, infd: nat, offset: Offset, count: nat, front: seq<Byte>)
    requires Inv(v) && IsOpen(v, infd) && DescOf(v, infd).flags.read && Reaches(front, offset)
    ensures |Source(v, infd, offset, count, front).data| <= FILE_SIZE <==> PageHolds(v, infd, offset, count)
  {
    OpenFacts(v, infd);
  }

  // ---- The invariant is kept ----

  lemma {:induction false} CountUpdate<Id>(slots: seq<Slot<Id>>, i: nat, s: Slot<Id>, id: Id)
    requires i < |slots|
    ensures Count(slots[i := s], id) ==
            Count(slots, id) - (if slots[i] == Open(id) then 1 else 0) + (if s == Open(id) then 1 else 0)
    decreases |slots|
  {
    if i == 0 {
      assert slots[i := s][1..] == slots[1..];
    } else {
      assert slots[i := s][1..] == slots[1..][i - 1 := s];
      CountUpdate(slots[1..], i - 1, s, id);
    }
  }

  lemma {:induction false} CountOpen<Id>(slots: seq<Slot<Id>>, i: nat)
    requires i < |slots| && slots[i].Open?
    ensures Count(slots, slots[i].id) > 0
  {
    if i == 0 {
    } else {
      CountOpen(slots[1..], i - 1);
    }
  }

  lemma {:induction false} CountNone<Id>(slots: seq<Slot<Id>>, id: Id)
    requires forall fd :: 0 <= fd < |slots| ==> slots[fd] != Open(id)
    ensures Count(slots, id) == 0
  {
    if slots == [] {
    } else {
      CountNone(slots[1..], id);
    }
  }

  lemma ReadKeeps<Id>(v: View<Id>, fd: nat, count: nat)
    requires Inv(v)
    ensures Inv(DoRead(v, fd, count).view)
    ensures DoRead(v, fd, count).view.slots == v.slots && DoRead(v, fd, count).view.bytes == v.bytes
  {
  }

  /** The write fits, or finds an offset that can step back. */
  predicate SafeWrite<Id>(v: View<Id>, fd: nat, size: nat)
    requires Inv(v)
  {
    IsOpen(v, fd) && DescOf(v, fd).flags.write ==> Fits(v, fd, size) || DescOf(v, fd).off > 0
  }

  /** Apart from a write that does not fit and starts at offset 0, whose offset would wrap
      around, writes keep the invariant; that one never does. */
  lemma WriteKeeps<Id>(v: View<Id>, fd: nat, data: seq<Byte>)
    requires Inv(v)
    ensures Inv(DoWrite(v, fd, data).view) <==> SafeWrite(v, fd, |data|)
  {
    if IsOpen(v, fd) && DescOf(v, fd).flags.write {
      var n, r := DescOf(v, fd).name, DoWrite(v, fd, data).view;
      if Fits(v, fd, |data|) {
        assert r.bytes.Keys == v.bytes.Keys;
        assert |r.bytes| == |v.bytes|;
      } else if DescOf(v, fd).off == 0 {
        assert r.descs[v.slots[fd].id].off == U32S - 1 > |v.bytes[n]|;
      }
    }
  }

  lemma SeekKeeps<Id>(v: View<Id>, fd: nat, offset: int, whence: Whence)
    requires Inv(v)
    ensures Inv(DoSeek(v, fd, offset, whence).view)
  {
  }

  /** The open passes the checks of flags, lookup and creation, and finds every descriptor
      from 3 on taken. */
  predicate Loses<Id>(v: View<Id>, name: string, flags: Flags)
    requires |v.slots| == MAX_OPEN_FILES
  {
    && (flags.read || flags.write)
    && (name in v.bytes || (flags.creat && |v.bytes| < NUM_FILES))
    && forall fd :: FIRST_FD <= fd < MAX_OPEN_FILES ==> v.slots[fd].Open?
  }

  /** Opening keeps the invariant. */
  lemma OpenKeeps<Id>(v: View<Id>, id: Id, name: string, flags: Flags)
    requires Inv(v) && id !in Objects(v)
    ensures Inv(DoOpen(v, id, name, flags).view)
  {
    var r := DoOpen(v, id, name, flags);
    if r.view != v {
      if name !in v.bytes {
        assert |v.bytes[name := []]| == |v.bytes| + 1;
      }
      if r.code >= 0 {
        NewSlotKeeps(v, r.code, id, Desc(name, flags.(creat := !flags.creat), 0, 1));
      }
    }
  }

  /** An empty slot taken by a new object. */
  lemma NewSlotKeeps<Id>(v: View<Id>, fd: nat, id: Id, d: Desc)
    requires RefsGood(v) && id !in Objects(v) && fd < |v.slots| && v.slots[fd] == Empty && d.refs == 1
    ensures RefsGood(v.(slots := v.slots[fd := Open(id)], descs := v.descs[id := d]))
  {
    var s := v.slots[fd := Open(id)];
    CountNone(v.slots, id);
    forall i ensures Count(s, i) == Count(v.slots, i) + if i == id then 1 else 0 {
      CountUpdate(v.slots, fd, Open(id), i);
    }
  }

  /** The new object is allocated unless the open is refused early, and it is left without
      a descriptor if and only if no descriptor is free. */
  lemma OpenLoses<Id>(v: View<Id>, id: Id, name: string, flags: Flags)
    requires Inv(v) && id !in Objects(v)
    ensures var r, loses := DoOpen(v, id, name, flags), Loses(v, name, flags);
            && Objects(r.view) == Objects(v) + (if r.code >= 0 || loses then {id} else {})
            && r.view.lost == v.lost + (if loses then {id} else {})
            && (loses <==> id in Objects(r.view) && !HasDescriptor(r.view.slots, id))
  {
    hide BytesGood, Count;
    assert !HasDescriptor(v.slots, id);
    hide Inv, HasDescriptor, Objects;
    OpenOutcome(v, id, name, flags);
  }

  predicate HasDescriptor<Id(==)>(slots: seq<Slot<Id>>, id: Id) {
    exists fd :: 0 <= fd < |slots| && slots[fd] == Open(id)
  }

  lemma OpenOutcome<Id>(v: View<Id>, id: Id, name: string, flags: Flags)
    requires |v.slots| == MAX_OPEN_FILES && id !in Objects(v) && !HasDescriptor(v.slots, id)
    ensures var r, loses := DoOpen(v, id, name, flags), Loses(v, name, flags);
            && Objects(r.view) == Objects(v) + (if r.code >= 0 || loses then {id} else {})
            && r.view.lost == v.lost + (if loses then {id} else {})
            && (loses <==> id in Objects(r.view) && !HasDescriptor(r.view.slots, id))
  {
    hide HasDescriptor, DoOpen, Loses;
    OpenCases(v, id, name, flags);
    var r := DoOpen(v, id, name, flags);
    if r.code >= 0 {
      NewDescriptor(v.slots, r.code, id);
    }
  }

  lemma OpenCases<Id>(v: View<Id>, id: Id, name: string, flags: Flags)
    requires |v.slots| == MAX_OPEN_FILES
    ensures var r, loses := DoOpen(v, id, name, flags), Loses(v, name, flags);
            && (loses ==>
                  r.code < 0 && r.view.slots == v.slots && r.view.descs == v.descs && r.view.lost == v.lost + {id})
            && (!loses && r.code < 0 ==> r.view == v)
            && (r.code >= 0 ==>
                  && r.code < MAX_OPEN_FILES && r.view.slots == v.slots[r.code := Open(id)]
                  && r.view.descs.Keys == v.descs.Keys + {id} && r.view.lost == v.lost)
  {
    hide FreeSlot;
    NoneFree(v.slots);
  }

  lemma NoneFree<Id>(slots: seq<Slot<Id>>)
    requires |slots| == MAX_OPEN_FILES
    ensures FreeSlot(slots, Empty, FIRST_FD) == MAX_OPEN_FILES <==>
            forall fd :: FIRST_FD <= fd < MAX_OPEN_FILES ==> slots[fd].Open?
  {
  }

  lemma NewDescriptor<Id>(slots: seq<Slot<Id>>, fd: nat, id: Id)
    requires fd < |slots|
    ensures HasDescriptor(slots[fd := Open(id)], id)
  {
    assert slots[fd := Open(id)][fd] == Open(id);
  }

  lemma CloseKeeps<Id>(v: View<Id>, fd: nat)
    requires Inv(v)
    ensures Inv(DoClose(v, fd).view)
  {
    if IsOpen(v, fd) {
      var r := DoClose(v, fd);
      forall id ensures Count(r.view.slots, id) == Count(v.slots, id) - if v.slots[fd] == Open(id) then 1 else 0 {
        CountUpdate(v.slots, fd, Empty, id);
      }
      forall k | 0 <= k < MAX_OPEN_FILES && r.view.slots[k].Open? ensures r.view.slots[k].id in r.view.descs {
        CountOpen(r.view.slots, k);
      }
    }
  }

  lemma DupKeeps<Id>(v: View<Id>, oldfd: nat, newfd: nat)
    requires Inv(v) && SafeDup(v, oldfd, newfd)
    ensures Inv(DoDup2(v, oldfd, newfd).view)
    ensures DoDup2(v, oldfd, newfd).code == if IsOpen(v, oldfd) then newfd else -EINVAL
  {
    if IsOpen(v, oldfd) {
      hide BytesGood;
      DupRefs(v, oldfd, newfd);
      DupOffsets(v, oldfd, newfd);
    }
  }

  lemma DupOffsets<Id>(v: View<Id>, oldfd: nat, newfd: nat)
    requires Inv(v) && SafeDup(v, oldfd, newfd) && IsOpen(v, oldfd)
    ensures BytesGood(DoDup2(v, oldfd, newfd).view)
  {
    SourceStays(v, oldfd, newfd);
  }

  lemma DupRefs<Id>(v: View<Id>, oldfd: nat, newfd: nat)
    requires Inv(v) && SafeDup(v, oldfd, newfd) && IsOpen(v, oldfd)
    ensures RefsGood(DoDup2(v, oldfd, newfd).view)
  {
    hide BytesGood;
    var id := v.slots[oldfd].id;
    var s := v.slots[newfd := Open(id)];
    forall i ensures Count(s, i) ==
                     Count(v.slots, i) - (if v.slots[newfd] == Open(i) then 1 else 0) + (if i == id then 1 else 0) {
      CountUpdate(v.slots, newfd, Open(id), i);
    }
    SourceStays(v, oldfd, newfd);
    forall k | 0 <= k < MAX_OPEN_FILES && s[k].Open? ensures Count(s, s[k].id) > 0 {
      CountOpen(s, k);
    }
  }

  lemma CountTwice<Id>(slots: seq<Slot<Id>>, i: nat, j: nat)
    requires i < |slots| && j < |slots| && slots[i].Open? && i != j && slots[i] == slots[j]
    ensures Count(slots, slots[i].id) >= 2
  {
    CountUpdate(slots, i, Empty, slots[i].id);
    CountOpen(slots[i := Empty], j);
  }

  /** A C string, which a new inode's name field has room for if the open creates one. */
  predicate GoodName<Id>(v: View<Id>, name: string, flags: Flags) {
    && '\0' !in name
    && (flags.creat && (flags.read || flags.write) && name !in v.bytes && |v.bytes| < NUM_FILES ==> |name| < NAME_SIZE)
  }

  /** Everything an operation takes for granted. */
  predicate Allowed<Id>(v: View<Id>, op: Op<Id>)
    requires Inv(v)
  {
    match op
    case OpenFile(id, name, flags) => id !in Objects(v) && GoodName(v, name, flags)
    case Read(fd, count) => fd < MAX_OPEN_FILES && count < INT_LIMIT
    case Write(fd, data) => fd < MAX_OPEN_FILES && |data| < INT_LIMIT && SafeWrite(v, fd, |data|)
    case Seek(fd, offset, whence) => fd < MAX_OPEN_FILES
    case Dup2(oldfd, newfd) => oldfd < MAX_OPEN_FILES && SafeDup(v, oldfd, newfd)
    case Close(fd) => fd < MAX_OPEN_FILES
    case Send(outfd, infd, offset, count, front) =>
      && outfd < MAX_OPEN_FILES && infd < MAX_OPEN_FILES
      && count < INT_LIMIT && Reaches(front, offset) && PageHolds(v, infd, offset, count)
      && SafeSend(v, outfd, infd, offset, count, front)
  }

  /** The write of sendfile fits, or finds an offset that can step back. */
  predicate SafeSend<Id>(v: View<Id>, outfd: nat, infd: nat, offset: Offset, count: nat, front: seq<Byte>)
    requires Inv(v) && Reaches(front, offset)
  {
    IsOpen(v, infd) && IsOpen(v, outfd) && DescOf(v, infd).flags.read ==>
      var r := Source(v, infd, offset, count, front);
      ReadKeeps(v, infd, count);
      SafeWrite(r.view, outfd, |r.data|)
  }

  function Perform<Id>(v: View<Id>, op: Op<Id>): Reply<Id>
    requires Inv(v) && Allowed(v, op)
  {
    match op
    case OpenFile(id, name, flags) => DoOpen(v, id, name, flags)
    case Read(fd, count) => DoRead(v, fd, count)
    case Write(fd, data) => DoWrite(v, fd, data)
    case Seek(fd, offset, whence) => DoSeek(v, fd, offset, whence)
    case Dup2(oldfd, newfd) => DoDup2(v, oldfd, newfd)
    case Close(fd) => DoClose(v, fd)
    case Send(outfd, infd, offset, count, front) => DoSend(v, outfd, infd, offset, count, front)
  }

  lemma SendKeeps<Id>(v: View<Id>, outfd: nat, infd: nat, offset: Offset, count: nat, front: seq<Byte>)
    requires Inv(v) && Reaches(front, offset)
    ensures Inv(DoSend(v, outfd, infd, offset, count, front).view) <==> SafeSend(v, outfd, infd, offset, count, front)
  {
    if IsOpen(v, infd) && IsOpen(v, outfd) && DescOf(v, infd).flags.read {
      var r := Source(v, infd, offset, count, front);
      ReadKeeps(v, infd, count);
      WriteKeeps(r.view, outfd, r.data);
    }
  }

  /** Every operation keeps the reference counts exact and the offsets inside the files. */
  lemma PerformKeeps<Id>(v: View<Id>, op: Op<Id>)
    requires Inv(v) && Allowed(v, op)
    ensures Inv(Perform(v, op).view)
  {
    hide Inv, DoOpen, DoRead, DoWrite, DoSeek, DoDup2, DoClose, DoSend;
    hide SafeDup, SafeWrite, SafeSend, PageHolds, Reaches;
    match op
    case OpenFile(id, name, flags) => OpenKeeps(v, id, name, flags);
    case Read(fd, count) => ReadKeeps(v, fd, count);
    case Write(fd, data) => WriteKeeps(v, fd, data);
    case Seek(fd, offset, whence) => SeekKeeps(v, fd, offset, whence);
    case Dup2(oldfd, newfd) => DupKeeps(v, oldfd, newfd);
    case Close(fd) => CloseKeeps(v, fd);
    case Send(outfd, infd, offset, count, front) => SendKeeps(v, outfd, infd, offset, count, front);
  }

  /** An open that finds no free descriptor loses its own object; nothing else loses or
      frees one that is lost. */
  lemma PerformLoses<Id>(v: View<Id>, op: Op<Id>)
    requires Inv(v) && Allowed(v, op)
    ensures Perform(v, op).view.lost == v.lost + if op.OpenFile? && Loses(v, op.name, op.flags) then {op.id} else {}
  {
    hide Inv, DoOpen, DoSend, Loses, SafeSend, PageHolds, Reaches, Objects;
    match op
    case OpenFile(id, name, flags) => OpenLoses(v, id, name, flags);
    case Send(outfd, infd, offset, count, front) => SendLost(v, outfd, infd, offset, count, front);
    case _ =>
  }

  lemma SendLost<Id>(v: View<Id>, outfd: nat, infd: nat, offset: Offset, count: nat, front: seq<Byte>)
    requires Inv(v) && Reaches(front, offset)
    ensures DoSend(v, outfd, infd, offset, count, front).view.lost == v.lost
  {
    hide Overlay, Slice, Fetch, Count;
    if IsOpen(v, infd) {
      ReadKeeps(v, infd, count);
    }
  }
}
