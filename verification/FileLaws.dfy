/**
  What one call of the file layer gives its caller, told from slots, names, offsets and
  bytes.  Reference counts follow from the slots, as the invariant ties them to each other.
 */
module FileLaws {
  import opened Common
  import opened FileModel

  /** All slots but `fd` hold what they held. */
  predicate OtherSlotsSame<Id(==)>(v: View<Id>, v': View<Id>, fd: int) {
    && |v'.slots| == |v.slots|
    && forall k :: 0 <= k < |v.slots| && k != fd ==> v'.slots[k] == v.slots[k]
  }

  /** Objects other than `id` are what they were. */
  ghost predicate OtherObjectsSame<Id(!new)>(v: View<Id>, v': View<Id>, id: Id) {
    && (forall o :: o != id ==> (o in v'.descs <==> o in v.descs))
    && (forall o :: o != id && o in v.descs ==> v'.descs[o] == v.descs[o])
  }

  ghost predicate HeldElsewhere<Id(!new)>(v: View<Id>, fd: nat, id: Id) {
    exists k :: 0 <= k < |v.slots| && k != fd && v.slots[k] == Open(id)
  }

  // ---- Close ----

  /** Closing empties the slot and no other.  The object is freed if and only if no other slot
      holds it, and otherwise only counts one less; every other object is what it was. */
  lemma CloseExact<Id(!new)>(v: View<Id>, fd: nat)
    requires Inv(v) && IsOpen(v, fd)
    ensures var id, r := v.slots[fd].id, DoClose(v, fd);
            && r.code == 0 && r.view.slots[fd] == Empty && OtherSlotsSame(v, r.view, fd)
            && (id in r.view.descs <==> HeldElsewhere(v, fd, id))
            && (id in r.view.descs ==> r.view.descs[id] == v.descs[id].(refs := v.descs[id].refs - 1))
            && OtherObjectsSame(v, r.view, id)
            && r.view.bytes == v.bytes && r.view.lost == v.lost
  {
    var id, v' := v.slots[fd].id, DoClose(v, fd).view;
    CloseKeeps(v, fd);
    HeldExact(v, fd);
    CountUpdate(v.slots, fd, Empty, id);
  }

  lemma HeldExact<Id(!new)>(v: View<Id>, fd: nat)
    requires fd < |v.slots| && v.slots[fd].Open?
    ensures HeldElsewhere(v, fd, v.slots[fd].id) <==> Count(v.slots[fd := Empty], v.slots[fd].id) > 0
  {
    var id, s := v.slots[fd].id, v.slots[fd := Empty];
    if k :| 0 <= k < |v.slots| && k != fd && v.slots[k] == Open(id) {
      CountOpen(s, k);
    } else {
      CountNone(s, id);
    }
  }

  /** A descriptor that is not open, as after its close, is refused everything. */
  lemma ClosedRefuses<Id>(v: View<Id>, fd: nat, count: nat, data: seq<Byte>, delta: int, whence: Whence)
    requires Inv(v) && !IsOpen(v, fd)
    ensures DoRead(v, fd, count) == Reply(v, -EINVAL, [], NoOffset)
    ensures DoWrite(v, fd, data) == Reply(v, -EINVAL, [], NoOffset)
    ensures DoSeek(v, fd, delta, whence) == Reply(v, -EINVAL, [], NoOffset)
    ensures DoClose(v, fd) == Reply(v, -EINVAL, [], NoOffset)
  {
  }

  /** After a close the descriptor is refused everything, and a duplicate of it keeps name,
      mode and offset. */
  lemma AfterClose<Id(!new)>(v: View<Id>, fd: nat, alias: nat, count: nat, data: seq<Byte>, delta: int,
                             whence: Whence)
    requires Inv(v) && IsOpen(v, fd)
    ensures var v' := DoClose(v, fd).view;
            && Inv(v') && !IsOpen(v', fd)
            && DoRead(v', fd, count).code == -EINVAL && DoRead(v', fd, count).data == []
            && DoWrite(v', fd, data).code == -EINVAL && DoSeek(v', fd, delta, whence).code == -EINVAL
            && (alias != fd && IsOpen(v, alias) ==>
                  && IsOpen(v', alias)
                  && DescOf(v', alias).name == DescOf(v, alias).name
                  && DescOf(v', alias).flags == DescOf(v, alias).flags
                  && DescOf(v', alias).off == DescOf(v, alias).off)
  {
    CloseKeeps(v, fd);
    CloseExact(v, fd);
    var v' := DoClose(v, fd).view;
    hide DoClose, RefsGood, BytesGood, DoRead, DoWrite, DoSeek, HeldElsewhere;
    ClosedRefuses(v', fd, count, data, delta, whence);
  }

  // ---- Open ----

  /** An open that succeeds answers the lowest free descriptor from 3 on.  It is open at offset
      0, with the rights asked for, on the named file, which is new and empty if it did not
      exist; nothing else changes. */
  lemma OpenExact<Id(!new)>(v: View<Id>, id: Id, name: string, flags: Flags)
    requires Inv(v) && id !in Objects(v)
    ensures var r := DoOpen(v, id, name, flags);
            && (r.code >= 0 ==>
                  && FIRST_FD <= r.code < MAX_OPEN_FILES && v.slots[r.code] == Empty
                  && (forall k :: FIRST_FD <= k < r.code ==> v.slots[k] != Empty)
                  && r.view.slots[r.code] == Open(id) && OtherSlotsSame(v, r.view, r.code)
                  && id in r.view.descs && OtherObjectsSame(v, r.view, id)
                  && var d := r.view.descs[id];
                     d.name == name && d.off == 0 && d.flags.read == flags.read && d.flags.write == flags.write)
            && (r.code < 0 ==> r.view.slots == v.slots && r.view.descs == v.descs)
  {
    hide Inv, Count;
    SlotsOf(v);
    var r := DoOpen(v, id, name, flags);
    if r.code >= 0 {
      assert v.slots[r.code] == Empty;
    }
  }

  lemma SlotsOf<Id>(v: View<Id>)
    requires Inv(v)
    ensures |v.slots| == MAX_OPEN_FILES
  {
  }

  /** What it answers otherwise, and which files there are afterwards. */
  lemma OpenAnswers<Id>(v: View<Id>, id: Id, name: string, flags: Flags)
    requires Inv(v)
    ensures var r := DoOpen(v, id, name, flags);
            var refused := !(flags.read || flags.write) || (name !in v.bytes && !flags.creat);
            var noInode := name !in v.bytes && |v.bytes| >= NUM_FILES;
            var noSlot := forall k :: FIRST_FD <= k < MAX_OPEN_FILES ==> v.slots[k] != Empty;
            && (r.code == -EINVAL <==> refused) && (r.code == -ENOMEM <==> !refused && (noInode || noSlot))
            && (r.code < 0 ==> r.code in {-EINVAL, -ENOMEM})
            && r.view.bytes == if refused || noInode || name in v.bytes then v.bytes else v.bytes[name := []]
  {
    hide RefsGood, BytesGood;
  }

  // ---- Read and write ----

  /** Without O_READ nothing is handed out, and without O_WRITE nothing is taken. */
  lemma RightsExact<Id>(v: View<Id>, fd: nat, count: nat, data: seq<Byte>)
    requires Inv(v) && IsOpen(v, fd)
    ensures !DescOf(v, fd).flags.read ==> DoRead(v, fd, count) == Reply(v, -EACCES, [], NoOffset)
    ensures DoRead(v, fd, count).code == -EACCES <==> !DescOf(v, fd).flags.read
    ensures !DescOf(v, fd).flags.write ==> DoWrite(v, fd, data) == Reply(v, -EACCES, [], NoOffset)
    ensures DoWrite(v, fd, data).code == -EACCES <==> !DescOf(v, fd).flags.write
  {
    hide Overlay, Slice, Count;
  }

  /** A read hands out the bytes from the offset on, as many as asked for or left, and moves
      the offset behind them. */
  lemma ReadExact<Id(!new)>(v: View<Id>, fd: nat, count: nat)
    requires Inv(v) && IsOpen(v, fd) && DescOf(v, fd).flags.read
    ensures var d, r := DescOf(v, fd), DoRead(v, fd, count);
            var data := v.bytes[d.name];
            var n := if count < |data| - d.off then count else |data| - d.off;
            && r.code == n && r.data == data[d.off..d.off + n]
            && r.view.bytes == v.bytes && r.view.slots == v.slots
            && r.view.descs[v.slots[fd].id] == d.(off := d.off + n)
            && OtherObjectsSame(v, r.view, v.slots[fd].id)
  {
    OpenFacts(v, fd);
    hide RefsGood, BytesGood;
  }

  /** A write that fits puts its bytes at the offset, keeps all others, extends the file if it
      reaches further and moves the offset behind it.  One that does not fit changes no byte,
      answers -1 and moves the offset by that. */
  lemma WriteExact<Id(!new)>(v: View<Id>, fd: nat, data: seq<Byte>)
    requires Inv(v) && IsOpen(v, fd) && DescOf(v, fd).flags.write
    ensures var d, r := DescOf(v, fd), DoWrite(v, fd, data);
            var file, fits := v.bytes[d.name], d.off + |data| <= FILE_SIZE;
            && r.code == (if fits then |data| else -1) && d.name in r.view.bytes
            && (forall n :: n != d.name ==> (n in r.view.bytes <==> n in v.bytes))
            && (forall n :: n != d.name && n in v.bytes ==> r.view.bytes[n] == v.bytes[n])
            && var file' := r.view.bytes[d.name];
               && (!fits ==> file' == file)
               && (fits ==>
                     && |file'| == (if d.off + |data| < |file| then |file| else d.off + |data|)
                     && file'[d.off..d.off + |data|] == data
                     && forall k :: 0 <= k < |file| && !(d.off <= k < d.off + |data|) ==> file'[k] == file[k])
    ensures var d, r := DescOf(v, fd), DoWrite(v, fd, data);
            && r.view.slots == v.slots && r.view.lost == v.lost && OtherObjectsSame(v, r.view, v.slots[fd].id)
            && r.view.descs[v.slots[fd].id] ==
               d.(off := if d.off + |data| <= FILE_SIZE then d.off + |data| else (d.off - 1) % 0x1_0000_0000)
  {
    OpenFacts(v, fd);
    hide RefsGood, BytesGood, Overlay;
  }

  // ---- Seek ----

  /** A seek goes to the offset counted from the start, from where it is, or from the end of
      the file, and is refused exactly for places outside the file and unknown origins. */
  lemma SeekExact<Id(!new)>(v: View<Id>, fd: nat, delta: int, whence: Whence)
    requires Inv(v) && IsOpen(v, fd)
    ensures var d, r := DescOf(v, fd), DoSeek(v, fd, delta, whence);
            var size := |v.bytes[d.name]|;
            var base := if whence == SEEK_CUR then d.off else if whence == SEEK_END then size else 0;
            && (r.code == -EINVAL <==> whence == OTHER || base + delta < 0 || base + delta > size)
            && (r.code == -EINVAL ==> r.view == v)
            && (r.code != -EINVAL ==>
                  && r.code == base + delta && r.view.descs[v.slots[fd].id] == d.(off := base + delta)
                  && OtherObjectsSame(v, r.view, v.slots[fd].id)
                  && r.view.slots == v.slots && r.view.bytes == v.bytes && r.view.lost == v.lost)
  {
    OpenFacts(v, fd);
    hide RefsGood, BytesGood;
  }

  /** A seek by 0 from where one is tells the offset; one by 0 from the end tells the size, and
      there is nothing to read behind it. */
  lemma SeekTells<Id>(v: View<Id>, fd: nat, count: nat)
    requires Inv(v) && IsOpen(v, fd)
    ensures DoSeek(v, fd, 0, SEEK_CUR) == Reply(v, DescOf(v, fd).off, [], NoOffset)
    ensures var r := DoSeek(v, fd, 0, SEEK_END);
            && r.code == |v.bytes[DescOf(v, fd).name]| && Inv(r.view)
            && DoRead(r.view, fd, count).data == []
  {
    OpenFacts(v, fd);
    SeekKeeps(v, fd, 0, SEEK_END);
    hide RefsGood, BytesGood, Count;
    assert v.descs[v.slots[fd].id := DescOf(v, fd)] == v.descs;
  }

  /** Two seeks from where one is are one seek by the sum. */
  lemma SeeksAddUp<Id>(v: View<Id>, fd: nat, a: int, b: int)
    requires Inv(v) && IsOpen(v, fd) && DoSeek(v, fd, a, SEEK_CUR).code >= 0
    ensures var v1 := DoSeek(v, fd, a, SEEK_CUR).view;
            Inv(v1) && DoSeek(v1, fd, b, SEEK_CUR).code == DoSeek(v, fd, a + b, SEEK_CUR).code
            && (DoSeek(v, fd, a + b, SEEK_CUR).code >= 0 ==>
                  DoSeek(v1, fd, b, SEEK_CUR).view == DoSeek(v, fd, a + b, SEEK_CUR).view)
  {
    SeekKeeps(v, fd, a, SEEK_CUR);
    OpenFacts(v, fd);
    hide RefsGood, BytesGood, Count;
    var d, id, v1 := DescOf(v, fd), v.slots[fd].id, DoSeek(v, fd, a, SEEK_CUR).view;
    assert DescOf(v1, fd) == d.(off := d.off + a);
    assert v1.descs[id := d.(off := d.off + (a + b))] == v.descs[id := d.(off := d.off + (a + b))];
  }

  // ---- Dup2 ----

  /** dup2 makes the target's slot the source's and changes no other.  What the target was open
      on is freed if and only if no other slot, nor the new one, holds it. */
  lemma DupExact<Id(!new)>(v: View<Id>, oldfd: nat, newfd: nat)
    requires Inv(v) && SafeDup(v, oldfd, newfd) && IsOpen(v, oldfd)
    ensures var r := DoDup2(v, oldfd, newfd);
            && r.code == newfd && r.view.slots[newfd] == v.slots[oldfd] && OtherSlotsSame(v, r.view, newfd)
            && r.view.bytes == v.bytes && r.view.lost == v.lost && r.view.descs.Keys <= v.descs.Keys
            && (forall o :: o in v.descs ==> (o in r.view.descs <==> exists k :: Holds(r.view, k, o)))
            && (forall o :: o in r.view.descs ==> SameFile(r.view.descs[o], v.descs[o]))
  {
    DupKeeps(v, oldfd, newfd);
    var v' := DoDup2(v, oldfd, newfd).view;
    DupSlots(v, oldfd, newfd);
    forall o | o in v.descs ensures o in v'.descs <==> exists k :: Holds(v', k, o) {
      HoldsExact(v', o);
    }
  }

  predicate Holds<Id(==)>(v: View<Id>, k: int, id: Id) {
    0 <= k < |v.slots| && v.slots[k] == Open(id)
  }

  predicate SameFile(d: Desc, d': Desc) {
    d.name == d'.name && d.flags == d'.flags && d.off == d'.off
  }

  lemma HoldsExact<Id(!new)>(v: View<Id>, id: Id)
    requires Inv(v)
    ensures id in v.descs <==> exists k :: Holds(v, k, id)
  {
    if k :| Holds(v, k, id) {
      assert v.slots[k].id in v.descs;
    } else {
      forall k | 0 <= k < |v.slots| ensures v.slots[k] != Open(id) {
        assert !Holds(v, k, id);
      }
      CountNone(v.slots, id);
    }
  }

  lemma DupSlots<Id(!new)>(v: View<Id>, oldfd: nat, newfd: nat)
    requires Inv(v) && SafeDup(v, oldfd, newfd) && IsOpen(v, oldfd)
    ensures var r := DoDup2(v, oldfd, newfd);
            && r.view.slots[newfd] == v.slots[oldfd] && OtherSlotsSame(v, r.view, newfd)
            && r.view.bytes == v.bytes && r.view.lost == v.lost && r.view.descs.Keys <= v.descs.Keys
            && (forall o :: o in r.view.descs ==> SameFile(r.view.descs[o], v.descs[o]))
  {
    SourceStays(v, oldfd, newfd);
    hide Count, BytesGood;
  }

  /** From a descriptor that is not open nothing is duplicated. */
  lemma DupRefused<Id>(v: View<Id>, oldfd: nat, newfd: nat)
    requires Inv(v) && SafeDup(v, oldfd, newfd) && !IsOpen(v, oldfd)
    ensures DoDup2(v, oldfd, newfd) == Reply(v, -EINVAL, [], NoOffset)
  {
  }

  // ---- Sendfile ----

  /** sendfile is refused, without any effect, for descriptors that are not open or lack the
      right; otherwise its answer is that of the write. */
  lemma SendRefused<Id>(v: View<Id>, outfd: nat, infd: nat, offset: Offset, count: nat, front: seq<Byte>)
    requires Inv(v) && Reaches(front, offset)
    ensures !IsOpen(v, infd) || !IsOpen(v, outfd) ==>
              DoSend(v, outfd, infd, offset, count, front) == Reply(v, -EINVAL, [], offset)
    ensures IsOpen(v, infd) && IsOpen(v, outfd) && !(DescOf(v, infd).flags.read && DescOf(v, outfd).flags.write) ==>
              DoSend(v, outfd, infd, offset, count, front) == Reply(v, -EACCES, [], offset)
    ensures DoSend(v, outfd, infd, offset, count, front).code == -EACCES <==>
              IsOpen(v, infd) && IsOpen(v, outfd) && !(DescOf(v, infd).flags.read && DescOf(v, outfd).flags.write)
  {
    SlotsOf(v);
    hide Overlay, Slice, Fetch, Count, LowWord, Long;
    if IsOpen(v, infd) {
      ReadKeeps(v, infd, count);
    }
  }
}
