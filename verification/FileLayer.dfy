/**
  The file layer of one process: a descriptor table of shared, reference-counted file
  objects over the flat file system.
 */
module FileLayer {
  import opened Common
  import opened FileModel
  import opened FileRuns
  import opened FlatFs
  import opened SuperBlockObject

  class FileObject {
    var inode: nat
    var mode: Flags
    var offp: int
    var refCount: int

    /** What alloc_file and open write into the page of a new file object. */
    method Init(inode: nat, mode: Flags)
      modifies this
      ensures this.inode == inode && this.mode == mode && offp == 0 && refCount == 1
    {
      this.inode, this.mode, offp, refCount := inode, mode, 0, 1;
    }

    /** The object is what descriptor value `d` says, given the inode table. */
    ghost predicate Is(d: Desc, table: seq<Inode>)
      reads this
    {
      && inode < |table| && table[inode].Used? && table[inode].name == d.name
      && mode == d.flags && offp == d.off && refCount == d.refs
    }
  }

  function AsSlot(f: FileObject?): Slot<FileObject> {
    if f == null then Empty else Open(f)
  }

  class Process {
    const files: array<FileObject?>
    const sb: SuperBlock
    /** What the process sees, with the file objects not freed yet; only `Release` frees one. */
    ghost var view: View<FileObject>

    /** The descriptor table is the one the process sees... */
    ghost predicate SlotsTied()
      reads this, files
    {
      && files.Length == MAX_OPEN_FILES == |view.slots|
      && forall fd :: 0 <= fd < MAX_OPEN_FILES ==> view.slots[fd] == AsSlot(files[fd])
    }

    /** ...and so are the file objects. */
    ghost predicate ObjectsTied()
      reads this, view.descs.Keys, sb
    {
      forall f :: f in view.descs ==> f.Is(view.descs[f], sb.table)
    }

    /** The fields are what the process sees. */
    ghost predicate Tied()
      reads this, files, view.descs.Keys, sb, sb.inode, sb.inode[..], sb.storage
    {
      sb.Valid() && view.bytes == Contents(sb.table) && SlotsTied() && ObjectsTied()
    }

    ghost predicate Valid()
      reads this, files, view.descs.Keys, sb, sb.inode, sb.inode[..], sb.storage
    {
      Tied() && Inv(view)
    }

    constructor (sb: SuperBlock)
      requires sb.Valid()
      ensures Valid() && fresh(files) && this.sb == sb
      ensures view == View(Contents(sb.table), seq(MAX_OPEN_FILES, _ => Empty), map[], {})
    {
      this.sb := sb;
      files := new FileObject?[MAX_OPEN_FILES](_ => null);
      view := View(Contents(sb.table), seq(MAX_OPEN_FILES, _ => Empty), map[], {});
      new;
      StartGood(sb);
    }

    lemma Facts()
      requires Tied()
      ensures sb.Valid() && view.bytes == Contents(sb.table) && files.Length == MAX_OPEN_FILES == |view.slots|
    {
    }

    /** What is known of an open descriptor. */
    lemma Opened(fd: nat)
      requires Valid() && fd < MAX_OPEN_FILES && files[fd] != null
      ensures IsOpen(view, fd) && view.slots[fd] == Open(files[fd]) && files[fd] in view.descs
      ensures files[fd].Is(view.descs[files[fd]], sb.table) && files[fd].inode < NUM_FILES == sb.inode.Length
      ensures var data := sb.table[files[fd].inode].data;
              && view.bytes[view.descs[files[fd]].name] == data
              && sb.inode[files[fd].inode].fileSize == |data| <= FILE_SIZE
              && 0 <= files[fd].offp <= |data|
    {
      var f := files[fd];
      OpenFacts(view, fd);
      assert view.slots[fd] == AsSlot(f);
      FileFacts(sb, f.inode);
    }

    lemma Unopened(fd: nat)
      requires Valid() && fd < MAX_OPEN_FILES && files[fd] == null
      ensures !IsOpen(view, fd)
    {
      assert view.slots[fd] == AsSlot(files[fd]);
    }

    method ReadFile(fd: nat, buf: array<Byte>, count: nat) returns (code: int)
      requires Valid() && fd < MAX_OPEN_FILES && buf != sb.storage && count < INT_LIMIT
      requires buf.Length >= |DoRead(view, fd, count).data|
      modifies this`view, buf, view.descs.Keys
      ensures Valid()
      ensures var r := DoRead(old(view), fd, count);
              && view == r.view && code == r.code
              && buf[..|r.data|] == r.data && buf[|r.data|..] == old(buf[|r.data|..])
      ensures old(view.descs.Keys) == view.descs.Keys
    {
      hide SuperBlock.Valid, Inv, Contents, Fetch, Slice;
      var filep := files[fd];
      if filep == null {
        Unopened(fd);
        return -EINVAL;
      }
      Opened(fd);
      if !filep.mode.read {
        return -EACCES;
      }
      ReadKeeps(view, fd, count);
      code := sb.FlatRead(filep.inode, buf, count, filep.offp, sb.Front(filep.inode));
      filep.offp := filep.offp + code;
      view := DoRead(view, fd, count).view;
    }

    /** A write that does not fit moves the offset back by one, modulo the offset's width. */
    method WriteFile(fd: nat, buf: array<Byte>, count: nat) returns (code: int)
      requires Valid() && fd < MAX_OPEN_FILES && buf != sb.storage && count <= buf.Length && count < INT_LIMIT
      modifies this`view, view.descs.Keys, sb`table, sb.inode[..], sb.storage
      ensures Tied() && (Valid() <==> SafeWrite(old(view), fd, count))
      ensures var r := DoWrite(old(view), fd, old(buf[..count])); view == r.view && code == r.code
      ensures old(view.descs.Keys) == view.descs.Keys
    {
      hide SuperBlock.Valid, Inv, Contents, DoWrite;
      WriteAnswers(view, fd, buf[..count]);
      var filep := files[fd];
      if filep == null {
        Unopened(fd);
        return -EINVAL;
      }
      Opened(fd);
      if !filep.mode.write {
        return -EACCES;
      }
      WriteKeeps(view, fd, buf[..count]);
      ghost var after := DoWrite(view, fd, buf[..count]).view;
      code := PutFile(filep, buf, count);
      view := after;
    }

    /** The write itself, and the offset. */
    method PutFile(filep: FileObject, buf: array<Byte>, count: nat) returns (code: int)
      requires sb.Valid() && ObjectsTied() && filep in view.descs
      requires buf != sb.storage && count <= buf.Length && count < INT_LIMIT
      requires filep.inode < NUM_FILES && 0 <= filep.offp <= |sb.table[filep.inode].data|
      modifies filep`offp, sb`table, sb.inode[..], sb.storage
      ensures sb.Valid()
      ensures code == if old(filep.offp) + count <= FILE_SIZE then count else -1
      ensures filep.offp == if code < 0 then (old(filep.offp) - 1) % U32S else old(filep.offp) + count
      ensures code < 0 ==> sb.table == old(sb.table)
      ensures code >= 0 ==>
                Contents(sb.table) == old(Contents(sb.table))[view.descs[filep].name :=
                  Overlay(old(sb.table[filep.inode].data), old(filep.offp), old(buf[..count]))]
      ensures forall f :: f in view.descs && f != filep ==> f.Is(view.descs[f], sb.table)
      ensures filep.Is(view.descs[filep].(off := filep.offp), sb.table)
    {
      hide SuperBlock.Valid, Contents, DistinctNames, Overlay;
      ghost var table := sb.table;
      TableDistinct(sb);
      assert filep.Is(view.descs[filep], table);
      code := RawWrite(filep, buf, count);
      if code < 0 {
        return;
      }
      ContentsAfterWrite(table, filep.inode, sb.table[filep.inode].data);
      forall f | f in view.descs && f != filep ensures f.Is(view.descs[f], sb.table) {
        assert old(f.Is(view.descs[f], sb.table));
        StaysSame(f, view.descs[f], table, filep.inode, sb.table[filep.inode]);
      }
    }

    method RawWrite(filep: FileObject, buf: array<Byte>, count: nat) returns (code: int)
      requires sb.Valid() && buf != sb.storage && count <= buf.Length && count < INT_LIMIT
      requires filep.inode < NUM_FILES && sb.table[filep.inode].Used? && 0 <= filep.offp <= |sb.table[filep.inode].data|
      modifies filep`offp, sb`table, sb.inode[..], sb.storage
      ensures sb.Valid()
      ensures code == if old(filep.offp) + count <= FILE_SIZE then count else -1
      ensures filep.offp == if code < 0 then (old(filep.offp) - 1) % U32S else old(filep.offp) + count
      ensures sb.table == if code < 0 then old(sb.table)
                          else old(sb.table)[filep.inode := Used(old(sb.table)[filep.inode].name,
                                 Overlay(old(sb.table)[filep.inode].data, old(filep.offp), old(buf[..count])))]
    {
      hide SuperBlock.Valid, Overlay;
      code := sb.FlatWrite(filep.inode, buf, count, filep.offp);
      filep.offp := (filep.offp + code) % U32S;
    }

    method Seek(fd: nat, offset: int, whence: Whence) returns (code: int)
      requires Valid() && fd < MAX_OPEN_FILES
      modifies this`view, view.descs.Keys
      ensures Valid()
      ensures var r := DoSeek(old(view), fd, offset, whence); view == r.view && code == r.code
    {
      hide SuperBlock.Valid, Inv, Contents;
      var filep := files[fd];
      if filep == null {
        Unopened(fd);
        return -EINVAL;
      }
      Opened(fd);
      SeekKeeps(view, fd, offset, whence);
      var foffset := filep.offp;
      match whence {
        case SEEK_SET => foffset := offset;
        case SEEK_CUR => foffset := foffset + offset;
        case SEEK_END => foffset := sb.inode[filep.inode].fileSize + offset;
        case OTHER => return -EINVAL;
      }
      if foffset > sb.inode[filep.inode].fileSize || foffset < 0 {
        return -EINVAL;
      }
      filep.offp := foffset;
      view := DoSeek(view, fd, offset, whence).view;
      return filep.offp;
    }

    /** Drops one reference; the object leaves the descriptor map with the last one. */
    method Release(filep: FileObject)
      requires filep in view.descs && filep.refCount == view.descs[filep].refs
      modifies this`view, filep`refCount
      ensures view == old(view).(descs := Drop(old(view).descs, filep))
      ensures filep.refCount == old(filep.refCount) - 1
    {
      filep.refCount := filep.refCount - 1;
      view := view.(descs := Drop(view.descs, filep));
    }

    /** Only the refusal has an answer: after a close the caller gets whatever is left there. */
    method Close(fd: nat) returns (code: int)
      requires Valid() && fd < MAX_OPEN_FILES
      modifies this`view, files, view.descs.Keys
      ensures Valid() && view == DoClose(old(view), fd).view
      ensures !old(IsOpen(view, fd)) ==> code == DoClose(old(view), fd).code == -EINVAL
      ensures forall k :: 0 <= k < MAX_OPEN_FILES ==> files[k] == if k == fd then null else old(files[k])
      ensures old(files[fd]) != null ==> old(files[fd]).refCount == old(files[fd].refCount) - 1
    {
      hide SuperBlock.Valid, Inv, Contents;
      var filep := files[fd];
      if filep == null {
        Unopened(fd);
        return -EINVAL;
      }
      Opened(fd);
      CloseKeeps(view, fd);
      files[fd] := null;
      Release(filep);
      view := view.(slots := view.slots[fd := Empty]);
      code := *;
    }

    method Dup2(oldfd: nat, newfd: nat) returns (code: int)
      requires Valid() && oldfd < MAX_OPEN_FILES && SafeDup(view, oldfd, newfd)
      modifies this`view, files, view.descs.Keys
      ensures Valid()
      ensures var r := DoDup2(old(view), oldfd, newfd); view == r.view && code == r.code
      ensures forall k :: 0 <= k < MAX_OPEN_FILES ==>
                files[k] == if k == newfd && old(files[oldfd]) != null then old(files[oldfd]) else old(files[k])
    {
      hide SuperBlock.Valid, Inv, Contents, DoDup2, ObjectsTied, Drop;
      DupAnswers(view, oldfd, newfd);
      if files[oldfd] == null {
        Unopened(oldfd);
        return -EINVAL;
      }
      ghost var v := view;
      Opened(oldfd);
      DupKeeps(v, oldfd, newfd);
      CloseTarget(newfd);
      Share(files[oldfd], newfd);
      assert view == DoDup2(v, oldfd, newfd).view;
      return newfd;
    }

    /** One more descriptor for an object. */
    method Share(filep: FileObject, fd: nat)
      requires Tied() && fd < MAX_OPEN_FILES && filep in view.descs
      modifies this`view, files, filep`refCount
      ensures Tied()
      ensures var d := old(view).descs[filep];
              view == old(view).(slots := old(view).slots[fd := Open(filep)],
                                 descs := old(view).descs[filep := d.(refs := d.refs + 1)])
      ensures forall k :: 0 <= k < MAX_OPEN_FILES ==> files[k] == if k == fd then filep else old(files[k])
    {
      hide SuperBlock.Valid, Contents;
      ghost var v, d := view, view.descs[filep];
      files[fd] := filep;
      filep.refCount := filep.refCount + 1;
      view := view.(slots := view.slots[fd := Open(filep)], descs := view.descs[filep := d.(refs := d.refs + 1)]);
      forall f | f in view.descs ensures f.Is(view.descs[f], sb.table) {
        assert f in v.descs && old(f.Is(v.descs[f], sb.table));
      }
    }

    /** Drops the reference the target descriptor has, if it is open. */
    method CloseTarget(newfd: nat)
      requires Valid() && newfd < MAX_OPEN_FILES
      modifies this`view, view.descs.Keys
      ensures Tied()
      ensures var v := old(view);
              view == v.(descs := if v.slots[newfd].Open? then Drop(v.descs, v.slots[newfd].id) else v.descs)
    {
      hide SuperBlock.Valid, Inv, Contents;
      if files[newfd] != null {
        ghost var v := view;
        var filep := files[newfd];
        Opened(newfd);
        Release(filep);
        forall f | f in view.descs ensures f.Is(view.descs[f], sb.table) {
          assert old(f.Is(v.descs[f], sb.table));
        }
      } else {
        Unopened(newfd);
      }
    }

    /** Opens a file, creating it if asked to; the new object, whose page is `filep`, takes
        the lowest free descriptor from 3 on. */
    method OpenFile(filep: FileObject, name: string, flags: Flags) returns (code: int)
      requires Valid() && filep !in Objects(view) && GoodName(view, name, flags)
      modifies this`view, files, filep, sb`numFiles, sb`table, sb.inode[..]
      ensures Valid()
      ensures var r := DoOpen(old(view), filep, name, flags); view == r.view && code == r.code
      ensures code >= 0 ==> code < MAX_OPEN_FILES && files[code] == filep && old(files[code]) == null
      ensures forall k :: 0 <= k < MAX_OPEN_FILES && k != code ==> files[k] == old(files[k])
    {
      hide SuperBlock.Valid, Inv, Contents, DoOpen, Tied;
      Facts();
      OpenRefused(view, filep, name, flags);
      if !(flags.read || flags.write) {
        return -EINVAL;
      }
      var no := sb.LookupInode(name);
      TableDistinct(sb);
      ContentsAt(sb.table, name);
      if no == NUM_FILES {
        if !flags.creat {
          return -EINVAL;
        }
        BytesLimit(view);
        var created := MakeFile(name);
        if created == -1 {
          return -ENOMEM;
        }
        no := created;
        Facts();
        OpenCreated(old(view), filep, flags, name);
      }
      code := Install(filep, no, name, flags);
    }

    /** A new empty file, for the descriptor layer. */
    method MakeFile(name: string) returns (no: int)
      requires Valid() && name !in view.bytes && '\0' !in name && (|view.bytes| < NUM_FILES ==> |name| < NAME_SIZE)
      modifies this`view, sb`numFiles, sb`table, sb.inode[..]
      ensures Valid()
      ensures no == -1 <==> |old(view).bytes| == NUM_FILES
      ensures no == -1 ==> view == old(view)
      ensures no != -1 ==> && view == old(view).(bytes := old(view).bytes[name := []])
                           && 0 <= no < NUM_FILES && sb.table[no].Used? && sb.table[no].name == name
    {
      hide SuperBlock.Valid, Inv, Contents, DistinctNames, FlatFs.Lookup;
      ghost var table := sb.table;
      TableDistinct(sb);
      BytesLimit(view);
      no := sb.CreateInode(name);
      if no != -1 {
        ContentsAfterCreate(table, no, name);
        CreatedGood(view, name);
        view := view.(bytes := view.bytes[name := []]);
        forall f | f in view.descs ensures f.Is(view.descs[f], sb.table) {
          StaysSame(f, view.descs[f], table, no, Used(name, []));
        }
      }
    }

    method Install(filep: FileObject, no: nat, name: string, flags: Flags) returns (code: int)
      requires Valid() && no < NUM_FILES && sb.table[no].Used? && sb.table[no].name == name
      requires name in view.bytes && filep !in Objects(view)
      requires flags.read || flags.write
      modifies this`view, files, filep
      ensures Valid()
      ensures var r := DoOpen(old(view), filep, name, flags); view == r.view && code == r.code
      ensures code >= 0 ==> code < MAX_OPEN_FILES && files[code] == filep && old(files[code]) == null
      ensures forall k :: 0 <= k < MAX_OPEN_FILES && k != code ==> files[k] == old(files[k])
    {
      hide SuperBlock.Valid, Inv, Contents, DoOpen, ObjectsTied;
      TableDistinct(sb);
      filep.Init(no, flags.(creat := !flags.creat));
      OpenKeeps(view, filep, name, flags);
      OpenKnown(view, filep, name, flags);
      var fd := FindSlot();
      if fd >= MAX_OPEN_FILES {
        Lose(filep);
        return -ENOMEM;
      }
      Enter(filep, fd, Desc(name, flags.(creat := !flags.creat), 0, 1));
      return fd;
    }

    /** Nothing refers to the new object any more, and it is not freed. */
    ghost method Lose(filep: FileObject)
      requires Tied()
      modifies this`view
      ensures Tied() && view == old(view).(lost := old(view).lost + {filep})
    {
      view := view.(lost := view.lost + {filep});
    }

    /** A descriptor for a new object. */
    method Enter(filep: FileObject, fd: nat, ghost d: Desc)
      requires Tied() && fd < MAX_OPEN_FILES && filep !in view.descs && filep.Is(d, sb.table)
      modifies this`view, files
      ensures Tied()
      ensures view == old(view).(slots := old(view).slots[fd := Open(filep)], descs := old(view).descs[filep := d])
      ensures forall k :: 0 <= k < MAX_OPEN_FILES ==> files[k] == if k == fd then filep else old(files[k])
    {
      hide SuperBlock.Valid, Contents;
      ghost var v := view;
      files[fd] := filep;
      view := view.(slots := view.slots[fd := Open(filep)], descs := view.descs[filep := d]);
      forall f | f in view.descs ensures f.Is(view.descs[f], sb.table) {
        assert f != filep ==> f in v.descs && f.Is(v.descs[f], sb.table);
      }
    }

    /** The scan for a free descriptor. */
    method FindSlot() returns (fd: nat)
      requires SlotsTied()
      ensures fd == FreeSlot(view.slots, Empty, FIRST_FD)
      ensures fd < MAX_OPEN_FILES ==> files[fd] == null
    {
      fd := FIRST_FD;
      while files[fd] != null
        invariant FIRST_FD <= fd < MAX_OPEN_FILES
        invariant FreeSlot(view.slots, Empty, FIRST_FD) == FreeSlot(view.slots, Empty, fd)
        decreases MAX_OPEN_FILES - fd
      {
        fd := fd + 1;
        if fd >= MAX_OPEN_FILES {
          return;
        }
      }
    }

    /** `front` is the memory in front of the page of the file behind `fd`, if there is one. */
    ghost predicate IsFront(fd: nat, front: seq<Byte>)
      requires sb.Valid() && fd < files.Length
      reads files, files[fd], sb, sb.inode, sb.inode[..], sb.storage
    {
      files[fd] != null && files[fd].inode < NUM_FILES ==> front == sb.Front(files[fd].inode)
    }

    /** sendfile through a one-page buffer. */
    method SendFile(outfd: nat, infd: nat, offset: Offset, count: nat, ghost front: seq<Byte>)
        returns (code: int, moved: Offset)
      requires Valid() && outfd < MAX_OPEN_FILES && infd < MAX_OPEN_FILES && count < INT_LIMIT
      requires IsFront(infd, front) && Reaches(front, offset) && PageHolds(view, infd, offset, count)
      modifies this`view, view.descs.Keys, sb`table, sb.inode[..], sb.storage
      ensures Tied() && (Valid() <==> SafeSend(old(view), outfd, infd, offset, count, front))
      ensures var r := DoSend(old(view), outfd, infd, offset, count, front);
              view == r.view && code == r.code && moved == r.offset
    {
      hide SuperBlock.Valid, Inv, Contents, DoSend, Source, DoRead, DoWrite, PageHolds, IsFront, SafeSend, Reaches;
      SendAnswers(view, outfd, infd, offset, count, front);
      SendKeeps(view, outfd, infd, offset, count, front);
      var filein, fileout := files[infd], files[outfd];
      if filein == null || fileout == null {
        if filein == null { Unopened(infd); } else { Unopened(outfd); }
        return -EINVAL, offset;
      }
      Opened(infd);
      Opened(outfd);
      if !filein.mode.read {
        return -EACCES, offset;
      }
      if !fileout.mode.write {
        return -EACCES, offset;
      }
      code, moved := Transfer(outfd, infd, offset, count, front);
    }

    /** The copying, once both descriptors were found good. */
    method Transfer(outfd: nat, infd: nat, offset: Offset, count: nat, ghost front: seq<Byte>)
        returns (code: int, moved: Offset)
      requires Valid() && outfd < MAX_OPEN_FILES && infd < MAX_OPEN_FILES && count < INT_LIMIT
      requires IsFront(infd, front) && Reaches(front, offset) && PageHolds(view, infd, offset, count)
      requires IsOpen(view, infd) && DescOf(view, infd).flags.read && files[infd] != null && files[infd].mode.read
      requires Inv(Source(view, infd, offset, count, front).view)
      modifies this`view, view.descs.Keys, sb`table, sb.inode[..], sb.storage
      ensures Tied()
      ensures var r := Source(old(view), infd, offset, count, front);
              && view == DoWrite(r.view, outfd, r.data).view && code == DoWrite(r.view, outfd, r.data).code
              && moved == r.offset
    {
      hide SuperBlock.Valid, Inv, Contents, Source, DoWrite, PageHolds, IsFront, SafeWrite, Reaches;
      var buff := new Byte[FILE_SIZE](_ => 0);
      var readCount;
      readCount, moved := FetchInput(infd, buff, offset, count, front);
      code := WriteFile(outfd, buff, readCount);
    }

    /** Fills the buffer from the explicit offset or through the descriptor. */
    method FetchInput(infd: nat, buff: array<Byte>, offset: Offset, count: nat, ghost front: seq<Byte>)
        returns (readCount: nat, moved: Offset)
      requires Valid() && infd < MAX_OPEN_FILES && files[infd] != null && files[infd].mode.read
      requires IsOpen(view, infd) && DescOf(view, infd).flags.read && count < INT_LIMIT
      requires IsFront(infd, front) && Reaches(front, offset) && PageHolds(view, infd, offset, count)
      requires buff != sb.storage && buff.Length == FILE_SIZE
      modifies this`view, buff, view.descs.Keys
      ensures Valid() && old(view.descs.Keys) == view.descs.Keys
      ensures var r := Source(old(view), infd, offset, count, front);
              && view == r.view && readCount == r.code == |r.data| <= FILE_SIZE
              && buff[..readCount] == r.data && moved == r.offset
    {
      hide SuperBlock.Valid, Inv, Contents, Tied, Source, DoRead, PageHolds, Reaches, IsFront, Fetch, LowWord, Long;
      PageHoldsExact(view, infd, offset, count, front);
      SourceIs(view, infd, offset, count, front);
      if offset.At? {
        readCount := FetchAt(infd, buff, LowWord(offset.pos), count, front);
        moved := At(Long(offset.pos + readCount));
      } else {
        readCount := ReadFile(infd, buff, count);
        moved := NoOffset;
      }
    }

    /** Fills the buffer from an explicit offset; the descriptor stays as it is. */
    method FetchAt(infd: nat, buff: array<Byte>, off: int, count: nat, ghost front: seq<Byte>) returns (size: nat)
      requires Valid() && infd < MAX_OPEN_FILES && IsOpen(view, infd) && count < INT_LIMIT
      requires IsFront(infd, front) && -|front| <= off
      requires var d := DescOf(view, infd);
               d.name in view.bytes && |Fetch(front, view.bytes[d.name], off, count)| <= FILE_SIZE
      requires buff != sb.storage && buff.Length == FILE_SIZE
      modifies buff
      ensures Valid()
      ensures var got := Fetch(front, view.bytes[DescOf(view, infd).name], off, count);
              size == |got| && buff[..size] == got
    {
      hide SuperBlock.Valid, Inv, Contents, Fetch;
      assert view.slots[infd] == AsSlot(files[infd]);
      Opened(infd);
      size := sb.FlatRead(files[infd].inode, buff, count, off, front);
    }

    /** The exit handler: one reference less per descriptor.  What opens lost stays. */
    method FileExit()
      requires Valid()
      modifies this`view, view.descs.Keys
      ensures view.descs == map[] && Objects(view) == old(view.lost)
    {
      hide SuperBlock.Valid, BytesGood, Count, Remaining, DropAll;
      ghost var v := view;
      ExitStarts(v);
      ExitFreesAll(v.slots, v.descs);
      var i := 0;
      while i < MAX_OPEN_FILES
        invariant 0 <= i <= MAX_OPEN_FILES
        invariant view.slots == v.slots && view.lost == v.lost && view.descs.Keys <= v.descs.Keys
        invariant Remaining(v.slots[i..], view.descs)
        invariant DropAll(v.slots[i..], view.descs) == map[]
        invariant forall f :: f in view.descs ==> f.refCount == view.descs[f].refs
      {
        assert v.slots[i] == AsSlot(files[i]);
        ExitStep(v.slots, i, view.descs);
        if files[i] != null {
          Release(files[i]);
        }
        i := i + 1;
      }
      ExitEnds(v.slots[i..], view.descs);
    }
  }

  lemma StartGood(sb: SuperBlock)
    requires sb.Valid()
    ensures Inv<FileObject>(View(Contents(sb.table), seq(MAX_OPEN_FILES, _ => Empty), map[], {}))
  {
    hide SuperBlock.Valid, Contents, Count;
    TableDistinct(sb);
    UsedCountIsSize(sb.table);
    FullTable(sb.table);
    forall n | n in Contents(sb.table) ensures |Contents(sb.table)[n]| <= FILE_SIZE {
      ContentsAt(sb.table, n);
      FileFacts(sb, FlatFs.Lookup(sb.table, n));
    }
  }

  lemma FileFacts(sb: SuperBlock, i: nat)
    requires sb.Valid() && i < NUM_FILES && sb.table[i].Used?
    ensures sb.inode[i].fileSize == |sb.table[i].data| <= FILE_SIZE
    ensures sb.table[i].name in Contents(sb.table) && Contents(sb.table)[sb.table[i].name] == sb.table[i].data
  {
    LookupUsed(sb.table, i);
    ContentsAt(sb.table, sb.table[i].name);
    assert sb.Holds(i, sb.table[i]);
  }

  /** Filling an unused inode, or giving one other bytes, changes nothing about which
      file a file object is open on. */
  lemma StaysSame(f: FileObject, d: Desc, table: seq<Inode>, i: nat, x: Inode)
    requires f.Is(d, table) && i < |table| && (table[i] == Free || (x.Used? && x.name == table[i].name))
    ensures f.Is(d, table[i := x])
  {
  }

  lemma TableDistinct(sb: SuperBlock)
    requires sb.Valid()
    ensures |sb.table| == NUM_FILES && DistinctNames(sb.table)
  {
  }

  lemma BytesLimit<Id>(v: View<Id>)
    requires Inv(v)
    ensures |v.bytes| <= NUM_FILES
  {
  }

  /** Opening a file that was just created is opening it with O_CREAT. */
  lemma OpenCreated<Id>(v: View<Id>, id: Id, flags: Flags, name: string)
    requires |v.slots| == MAX_OPEN_FILES && name !in v.bytes && |v.bytes| < NUM_FILES
    requires flags.creat && (flags.read || flags.write)
    ensures DoOpen(v.(bytes := v.bytes[name := []]), id, name, flags) == DoOpen(v, id, name, flags)
  {
  }

  /** The early refusals. */
  lemma OpenRefused<Id>(v: View<Id>, id: Id, name: string, flags: Flags)
    requires |v.slots| == MAX_OPEN_FILES
    ensures !(flags.read || flags.write) || (name !in v.bytes && !flags.creat) ==>
              DoOpen(v, id, name, flags) == Fail(v, EINVAL)
    ensures (flags.read || flags.write) && name !in v.bytes && flags.creat && |v.bytes| >= NUM_FILES ==>
              DoOpen(v, id, name, flags) == Fail(v, ENOMEM)
  {
  }

  lemma CreatedGood<Id>(v: View<Id>, name: string)
    requires Inv(v) && name !in v.bytes && |v.bytes| < NUM_FILES
    ensures Inv(v.(bytes := v.bytes[name := []]))
  {
    assert |v.bytes[name := []]| == |v.bytes| + 1;
  }

  /** Opening a file that exists. */
  lemma OpenKnown<Id>(v: View<Id>, id: Id, name: string, flags: Flags)
    requires |v.slots| == MAX_OPEN_FILES && name in v.bytes && (flags.read || flags.write)
    ensures var fd := FreeSlot(v.slots, Empty, FIRST_FD);
            DoOpen(v, id, name, flags) ==
            if fd == MAX_OPEN_FILES then Fail(v.(lost := v.lost + {id}), ENOMEM)
            else Reply(v.(slots := v.slots[fd := Open(id)],
                          descs := v.descs[id := Desc(name, flags.(creat := !flags.creat), 0, 1)]), fd, [], NoOffset)
  {
  }

  lemma WriteAnswers<Id>(v: View<Id>, fd: nat, data: seq<Byte>)
    requires Inv(v)
    ensures !IsOpen(v, fd) ==> DoWrite(v, fd, data) == Fail(v, EINVAL)
    ensures IsOpen(v, fd) && !DescOf(v, fd).flags.write ==> DoWrite(v, fd, data) == Fail(v, EACCES)
    ensures IsOpen(v, fd) && DescOf(v, fd).flags.write ==>
              var r, d, fits := DoWrite(v, fd, data), DescOf(v, fd), Fits(v, fd, |data|);
              && d.name in v.bytes && 0 <= d.off <= |v.bytes[d.name]|
              && r.code == (if fits then |data| else -1)
              && r.view.slots == v.slots
              && r.view.descs ==
                 v.descs[v.slots[fd].id := d.(off := if fits then d.off + |data| else (d.off - 1) % U32S)]
              && r.view.bytes == if fits then v.bytes[d.name := Overlay(v.bytes[d.name], d.off, data)] else v.bytes
  {
  }

  lemma DupAnswers<Id>(v: View<Id>, oldfd: nat, newfd: nat)
    requires Inv(v) && SafeDup(v, oldfd, newfd)
    ensures !IsOpen(v, oldfd) ==> DoDup2(v, oldfd, newfd) == Fail(v, EINVAL)
    ensures IsOpen(v, oldfd) ==>
              var r, id := DoDup2(v, oldfd, newfd), v.slots[oldfd].id;
              && (v.slots[newfd].Open? ==> v.slots[newfd].id in v.descs)
              && r.code == newfd && r.view.bytes == v.bytes && r.view.lost == v.lost
              && r.view.slots == v.slots[newfd := Open(id)]
              && var d1 := if v.slots[newfd].Open? then Drop(v.descs, v.slots[newfd].id) else v.descs;
                 id in d1 && r.view.descs == d1[id := d1[id].(refs := d1[id].refs + 1)]
  {
    if IsOpen(v, oldfd) {
      SourceStays(v, oldfd, newfd);
    }
  }

  lemma SendAnswers<Id>(v: View<Id>, outfd: nat, infd: nat, offset: Offset, count: nat, front: seq<Byte>)
    requires Inv(v) && Reaches(front, offset)
    ensures !IsOpen(v, infd) || !IsOpen(v, outfd) ==>
              DoSend(v, outfd, infd, offset, count, front) == Fail(v, EINVAL).(offset := offset)
    ensures IsOpen(v, infd) && IsOpen(v, outfd) && !(DescOf(v, infd).flags.read && DescOf(v, outfd).flags.write) ==>
              DoSend(v, outfd, infd, offset, count, front) == Fail(v, EACCES).(offset := offset)
    ensures IsOpen(v, infd) && IsOpen(v, outfd) && DescOf(v, infd).flags.read && DescOf(v, outfd).flags.write ==>
              var r := Source(v, infd, offset, count, front);
              && Inv(r.view)
              && DoSend(v, outfd, infd, offset, count, front) == DoWrite(r.view, outfd, r.data).(offset := r.offset)
  {
    if IsOpen(v, infd) {
      ReadKeeps(v, infd, count);
    }
  }

  lemma SourceIs<Id>(v: View<Id>, infd: nat, offset: Offset, count: nat, front: seq<Byte>)
    requires Inv(v) && IsOpen(v, infd) && Reaches(front, offset)
    ensures v.slots[infd].id in v.descs && v.descs[v.slots[infd].id].name in v.bytes
    ensures var r := Source(v, infd, offset, count, front);
            match offset
            case At(pos) =>
              && -|front| <= LowWord(pos) && r.view == v && r.code == |r.data| && r.offset == At(Long(pos + r.code))
              && r.data == Fetch(front, v.bytes[v.descs[v.slots[infd].id].name], LowWord(pos), count)
            case NoOffset =>
              r == DoRead(v, infd, count) && r.offset == NoOffset && (DescOf(v, infd).flags.read ==> r.code == |r.data|)
  {
  }

  lemma ExitStarts<Id>(v: View<Id>)
    requires Inv(v)
    ensures Remaining(v.slots, v.descs) && v.slots[0..] == v.slots
  {
  }

  /** One turn of the exit loop. */
  lemma ExitStep<Id>(slots: seq<Slot<Id>>, i: nat, descs: map<Id, Desc>)
    requires i < |slots| && Remaining(slots[i..], descs)
    ensures slots[i].Open? ==> slots[i].id in descs
    ensures var descs' := if slots[i].Open? then Drop(descs, slots[i].id) else descs;
            Remaining(slots[i + 1..], descs') && DropAll(slots[i + 1..], descs') == DropAll(slots[i..], descs)
  {
    assert slots[i..][0] == slots[i] && slots[i..][1..] == slots[i + 1..];
    RemainingStep(slots[i..], descs);
  }

  lemma ExitEnds<Id>(slots: seq<Slot<Id>>, descs: map<Id, Desc>)
    requires slots == [] && Remaining(slots, descs)
    ensures descs == map[]
  {
    assert forall id :: id in descs ==> Count(slots, id) > 0;
  }
}
