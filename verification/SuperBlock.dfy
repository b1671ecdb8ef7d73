/**
  The flat file system as it is stored: inode records updated in place and file bytes
  copied to and from one array.
 */
module SuperBlockObject {
  import opened Common
  import opened FileModel
  import opened FlatFs

  class InodeRecord {
    var isValid: bool
    var filename: string
    var sPos: nat
    var ePos: nat
    var maxPos: nat
    var fileSize: nat

    /** An unused inode that owns the page at `sPos`. */
    constructor (sPos: nat)
      ensures !isValid && this.sPos == sPos && ePos == sPos + FILE_SIZE && maxPos == sPos && fileSize == 0
    {
      isValid, filename := false, "";
      this.sPos, ePos := sPos, sPos + FILE_SIZE;
      maxPos, fileSize := sPos, 0;
    }
  }

  class SuperBlock {
    const inode: array<InodeRecord>
    const storage: array<Byte>
    var numFiles: int
    /** What the records and the storage stand for. */
    ghost var table: seq<Inode>

    /** Inode `i` owns a page inside the storage. */
    ghost predicate Laid(i: nat)
      requires i < inode.Length
      reads inode, inode[i]
    {
      inode[i].sPos + FILE_SIZE == inode[i].ePos <= storage.Length
    }

    ghost predicate Apart(i: nat, j: nat)
      requires i < inode.Length && j < inode.Length
      reads inode, inode[i], inode[j]
    {
      inode[i] != inode[j] && (inode[i].ePos <= inode[j].sPos || inode[j].ePos <= inode[i].sPos)
    }

    ghost predicate Layout()
      reads inode, inode[..]
    {
      && inode.Length == NUM_FILES
      && (forall i :: 0 <= i < NUM_FILES ==> Laid(i))
      && (forall i, j :: 0 <= i < NUM_FILES && 0 <= j < NUM_FILES && i != j ==> Apart(i, j))
    }

    /** Record `i` and its page hold `x`. */
    ghost predicate Holds(i: nat, x: Inode)
      requires i < inode.Length
      reads inode, inode[i], storage
    {
      var r := inode[i];
      && r.isValid == x.Used?
      && r.sPos + FILE_SIZE <= storage.Length
      && r.maxPos == r.sPos + r.fileSize && r.fileSize <= FILE_SIZE
      && (x.Used? ==> r.filename == x.name && storage[r.sPos..r.maxPos] == x.data)
    }

    ghost predicate Valid()
      reads this, inode, inode[..], storage
    {
      && Layout()
      && |table| == NUM_FILES
      && (forall i :: 0 <= i < NUM_FILES ==> Holds(i, table[i]))
      && DistinctNames(table)
      && numFiles == UsedCount(table)
    }

    /** alloc_inodes: the records get the pages at `starts`, none of which overlap. */
    constructor (inode: array<InodeRecord>, storage: array<Byte>, starts: seq<nat>)
      requires inode.Length == NUM_FILES == |starts|
      requires forall i :: 0 <= i < NUM_FILES ==> starts[i] + FILE_SIZE <= storage.Length
      requires forall i, j :: 0 <= i < j < NUM_FILES ==>
                 starts[i] + FILE_SIZE <= starts[j] || starts[j] + FILE_SIZE <= starts[i]
      modifies inode
      ensures Valid() && this.inode == inode && this.storage == storage
      ensures fresh(inode[..]) && Contents(table) == map[]
    {
      this.inode, this.storage := inode, storage;
      numFiles := 0;
      table := seq(NUM_FILES, _ => Free);
      new;
      var i := 0;
      while i < NUM_FILES
        invariant 0 <= i <= NUM_FILES
        invariant forall k :: 0 <= k < i ==> fresh(inode[k]) && allocated(inode[k])
        invariant forall k :: 0 <= k < i ==>
                    && !inode[k].isValid && inode[k].sPos == starts[k] == inode[k].maxPos
                    && inode[k].ePos == starts[k] + FILE_SIZE && inode[k].fileSize == 0
        invariant forall k, l :: 0 <= k < l < i ==> inode[k] != inode[l]
        modifies inode
      {
        var r := new InodeRecord(starts[i]);
        inode[i] := r;
        i := i + 1;
      }
      NoneUsed(table);
    }

    method LookupInode(name: string) returns (i: nat)
      requires Valid()
      ensures i == FlatFs.Lookup(table, name)
    {
      i := 0;
      while i < NUM_FILES
        invariant 0 <= i <= NUM_FILES
        invariant forall k :: 0 <= k < i ==> table[k].Used? ==> table[k].name != name
      {
        assert Holds(i, table[i]);
        if inode[i].isValid && inode[i].filename == name {
          LookupIs(table, name, i);
          return;
        }
        i := i + 1;
      }
      LookupIs(table, name, i);
    }

    method GetInodeNo(name: string) returns (no: int)
      requires Valid()
      ensures no == -1 <==> name !in Contents(table)
      ensures no != -1 ==> 0 <= no < NUM_FILES && table[no].Used? && table[no].name == name
                           && table[no].data == Contents(table)[name]
    {
      var i := LookupInode(name);
      ContentsAt(table, name);
      no := if i == NUM_FILES then -1 else i;
    }

    method GetFreeInode() returns (i: nat)
      requires Valid()
      ensures i == FirstFree(table)
    {
      i := 0;
      while i < NUM_FILES
        invariant 0 <= i <= NUM_FILES
        invariant forall k :: 0 <= k < i ==> table[k] != Free
      {
        assert Holds(i, table[i]);
        if !inode[i].isValid {
          FirstFreeIs(table, i);
          return;
        }
        i := i + 1;
      }
      FirstFreeIs(table, i);
    }

    /** Rewrites a record; it keeps its page. */
    method SetRecord(i: nat, isValid: bool, filename: string, fileSize: nat)
      requires Layout() && i < NUM_FILES
      modifies inode[i]
      ensures Layout()
      ensures inode[i].isValid == isValid && inode[i].filename == filename
      ensures inode[i].maxPos == inode[i].sPos + fileSize && inode[i].fileSize == fileSize
      ensures inode[i].sPos == old(inode[i].sPos)
    {
      var r := inode[i];
      r.isValid := isValid;
      r.filename := filename;
      r.maxPos := r.sPos + fileSize;
      r.fileSize := fileSize;
      forall k | 0 <= k < NUM_FILES ensures Laid(k) {
        assert old(Laid(k));
      }
      forall k, l | 0 <= k < NUM_FILES && 0 <= l < NUM_FILES && k != l ensures Apart(k, l) {
        assert old(Apart(k, l));
      }
    }

    /** The first unused inode, unless the name exists. */
    method PickInode(name: string) returns (no: int)
      requires Valid()
      ensures no == -1 <==> CannotCreate(table, name)
      ensures no != -1 ==> 0 <= no < NUM_FILES && table[no] == Free && FlatFs.Lookup(table, name) == NUM_FILES
    {
      hide Contents, UsedCount, DistinctNames;
      var free := GetFreeInode();
      var found := LookupInode(name);
      CreateFails(table, name);
      no := if found < NUM_FILES || free == NUM_FILES then -1 else free;
    }

    method CreateInode(name: string) returns (no: int)
      requires Valid() && '\0' !in name && (!CannotCreate(table, name) ==> |name| < NAME_SIZE)
      modifies this`numFiles, this`table, inode[..]
      ensures Valid()
      ensures no == -1 <==> CannotCreate(old(table), name)
      ensures no == -1 ==> table == old(table)
      ensures no != -1 ==> 0 <= no < NUM_FILES && old(table)[no] == Free && FlatFs.Lookup(old(table), name) == NUM_FILES
      ensures no != -1 ==> table == old(table)[no := Used(name, [])]
    {
      hide Contents, UsedCount, DistinctNames, Layout, Holds, CannotCreate;
      no := PickInode(name);
      if no != -1 {
        FillInode(no, name);
      }
    }

    method FillInode(i: nat, name: string)
      requires Valid() && i < NUM_FILES && table[i] == Free && FlatFs.Lookup(table, name) == NUM_FILES
      requires '\0' !in name && |name| < NAME_SIZE
      modifies this`numFiles, this`table, inode[..]
      ensures Valid() && table == old(table)[i := Used(name, [])]
      ensures Contents(table) == old(Contents(table))[name := []]
    {
      assert inode.Length == NUM_FILES && inode[..][i] == inode[i];
      hide Contents, UsedCount, DistinctNames, Layout, Holds;
      ContentsAfterCreate(table, i, name);
      Reuse(i, Used(name, []));
      numFiles := numFiles + 1;
    }

    /** Gives the record of inode `i` to an empty file, or to none. */
    method Reuse(i: nat, x: Inode)
      requires Layout() && i < NUM_FILES == |table| && (x.Used? ==> x.data == [])
      requires forall k :: 0 <= k < NUM_FILES ==> Holds(k, table[k])
      modifies this`table, inode[i]
      ensures Layout() && table == old(table)[i := x]
      ensures forall k :: 0 <= k < NUM_FILES ==> Holds(k, table[k])
    {
      assert Holds(i, table[i]) && forall k :: 0 <= k < NUM_FILES && k != i ==> Apart(i, k) && Holds(k, table[k]);
      SetRecord(i, x.Used?, if x.Used? then x.name else "", 0);
      table := table[i := x];
    }

    method RemoveInode(i: nat)
      requires Valid() && i < NUM_FILES && table[i].Used?
      modifies this`numFiles, this`table, inode[..]
      ensures Valid() && table == old(table)[i := Free]
    {
      assert inode.Length == NUM_FILES && inode[..][i] == inode[i];
      hide Contents, UsedCount, DistinctNames, Layout, Holds;
      RemoveFacts(table, i);
      Reuse(i, Free);
      numFiles := numFiles - 1;
    }

    /** The memory in front of inode `i`'s page. */
    ghost function Front(i: nat): seq<Byte>
      requires Valid() && i < NUM_FILES
      reads this, inode, inode[..], storage
    {
      assert Laid(i);
      storage[..inode[i].sPos]
    }

    /** The offset is signed, and nothing keeps it from reading in front of the page. */
    method FlatRead(i: nat, buf: array<Byte>, count: nat, off: int, ghost front: seq<Byte>) returns (size: nat)
      requires Valid() && i < NUM_FILES && table[i].Used? && buf != storage
      requires count < INT_LIMIT && front == Front(i) && -|front| <= off
      requires buf.Length >= |Fetch(front, table[i].data, off, count)|
      modifies buf
      ensures var got := Fetch(front, table[i].data, off, count);
              size == |got| && buf[..size] == got && buf[size..] == old(buf[size..])
    {
      RecordFacts(i);
      FetchIs(i, off, count);
      hide Valid, Layout, Holds, Front, Fetch;
      var remain := inode[i].fileSize - off;
      if remain <= 0 {
        return 0;
      }
      size := if count > remain then remain else count;
      CopyOut(inode[i].sPos + off, buf, size);
    }

    /** Where in the storage these bytes are. */
    lemma FetchIs(i: nat, off: int, count: nat)
      requires Valid() && i < NUM_FILES && table[i].Used? && -|Front(i)| <= off
      ensures |Front(i)| == inode[i].sPos
      ensures var start, got := inode[i].sPos + off, Fetch(Front(i), table[i].data, off, count);
              off < inode[i].fileSize ==> start + |got| <= storage.Length && got == storage[..][start..start + |got|]
    {
      RecordFacts(i);
      if off < inode[i].fileSize {
        var s, d := inode[i].sPos, |table[i].data|;
        assert Front(i) + table[i].data == storage[..][0..s + d];
        hide Valid, Layout, Holds;
        SubSlice(storage[..], 0, s + d, s + off, |Fetch(Front(i), table[i].data, off, count)|);
      }
    }

    lemma RecordFacts(i: nat)
      requires Valid() && i < NUM_FILES && table[i].Used?
      ensures inode.Length == NUM_FILES == |table| && inode[i].sPos + FILE_SIZE <= storage.Length
      ensures |table[i].data| == inode[i].fileSize <= FILE_SIZE
      ensures table[i].data == storage[..][inode[i].sPos..inode[i].sPos + |table[i].data|]
    {
      assert Holds(i, table[i]);
      assert storage[inode[i].sPos..inode[i].maxPos] == storage[..][inode[i].sPos..inode[i].maxPos];
    }

    /** The byte loop of a read. */
    method CopyOut(start: nat, buf: array<Byte>, size: nat)
      requires start + size <= storage.Length && size <= buf.Length && buf != storage
      modifies buf
      ensures buf[..size] == storage[..][start..start + size] && buf[size..] == old(buf[size..])
    {
      var k := 0;
      while k < size
        invariant 0 <= k <= size
        invariant forall x :: 0 <= x < k ==> buf[x] == storage[start + x]
        invariant buf[size..] == old(buf[size..])
      {
        buf[k] := storage[start + k];
        k := k + 1;
      }
    }

    /** The byte loop of a write. */
    method CopyIn(start: nat, buf: array<Byte>, count: nat)
      requires start + count <= storage.Length && count <= buf.Length && buf != storage
      modifies storage
      ensures forall x :: 0 <= x < storage.Length ==>
                storage[x] == if start <= x < start + count then buf[x - start] else old(storage[x])
    {
      var k := 0;
      while k < count
        invariant 0 <= k <= count
        invariant forall x :: 0 <= x < storage.Length ==>
                    storage[x] == if start <= x < start + k then buf[x - start] else old(storage[x])
      {
        storage[start + k] := buf[k];
        k := k + 1;
      }
    }

    /** Writing at most up to the end of the inode's page; anything longer is refused. */
    method FlatWrite(i: nat, buf: array<Byte>, count: nat, off: nat) returns (result: int)
      requires Valid() && i < NUM_FILES && table[i].Used? && buf != storage
      requires count <= buf.Length && off <= |table[i].data| && count < INT_LIMIT
      modifies this`table, inode[..], storage
      ensures Valid()
      ensures result == if off + count <= FILE_SIZE then count else -1
      ensures table == if result < 0 then old(table)
                       else old(table)[i := Used(old(table)[i].name, Overlay(old(table)[i].data, off, buf[..count]))]
    {
      assert Holds(i, table[i]) && Laid(i);
      var r := inode[i];
      var maxLen := r.ePos - off - r.sPos;
      if count > maxLen {
        return -1;
      }
      ghost var data := Overlay(table[i].data, off, buf[..count]);
      ContentsAfterWrite(table, i, data);
      PutBytes(i, buf, count, off);
      table := table[i := Used(table[i].name, data)];
      OthersKept(i);
      return count;
    }

    /** Copies the bytes and moves the end of the file if the write reaches further. */
    method PutBytes(i: nat, buf: array<Byte>, count: nat, off: nat)
      requires Valid() && i < NUM_FILES && table[i].Used? && buf != storage
      requires count <= buf.Length && off <= |table[i].data| && off + count <= FILE_SIZE
      modifies inode[i], storage
      ensures Holds(i, Used(table[i].name, Overlay(table[i].data, off, buf[..count])))
      ensures inode[i].sPos == old(inode[i].sPos) && inode[i].ePos == old(inode[i].ePos)
      ensures forall x :: 0 <= x < storage.Length && !(inode[i].sPos <= x < inode[i].ePos) ==>
                storage[x] == old(storage[x])
    {
      hide DistinctNames, UsedCount, Overlay, Apart;
      assert Holds(i, table[i]) && Laid(i);
      var r := inode[i];
      ghost var data := Overlay(table[i].data, off, buf[..count]);
      CopyIn(r.sPos + off, buf, count);
      if r.sPos + off + count > r.maxPos {
        r.maxPos := r.sPos + off + count;
      }
      r.fileSize := r.maxPos - r.sPos;
      assert |storage[r.sPos..r.maxPos]| == |data|;
      forall k | 0 <= k < |data| ensures storage[r.sPos..r.maxPos][k] == data[k] {
        assert off <= k < off + count ==> data[off..off + count][k - off] == buf[k - off];
        assert k < |table[i].data| ==> old(storage[r.sPos..r.maxPos])[k] == table[i].data[k];
      }
      assert storage[r.sPos..r.maxPos] == data;
    }

    /** A write inside the page of inode `i` leaves every other inode what it was. */
    twostate lemma OthersKept(i: nat)
      requires i < NUM_FILES == |table| && old(Layout())
      requires |old(table)| == NUM_FILES && table == old(table)[i := table[i]]
      requires forall k :: 0 <= k < NUM_FILES ==> inode[k] == old(inode[k]) && old(Holds(k, table[k]))
      requires forall k :: 0 <= k < NUM_FILES && k != i ==> unchanged(inode[k])
      requires inode[i].sPos == old(inode[i].sPos) && inode[i].ePos == old(inode[i].ePos)
      requires forall x :: 0 <= x < storage.Length && !(inode[i].sPos <= x < inode[i].ePos) ==>
                 storage[x] == old(storage[x])
      ensures Layout()
      ensures forall k :: 0 <= k < NUM_FILES && k != i ==> Holds(k, table[k])
    {
      forall k | 0 <= k < NUM_FILES ensures Laid(k) {
        assert old(Laid(k));
      }
      forall k, l | 0 <= k < NUM_FILES && 0 <= l < NUM_FILES && k != l ensures Apart(k, l) {
        assert old(Apart(k, l));
      }
      forall k | 0 <= k < NUM_FILES && k != i ensures Holds(k, table[k]) {
        assert old(Holds(k, table[k])) && old(Apart(i, k)) && old(Laid(i)) && old(Laid(k));
        var r := inode[k];
        assert storage[r.sPos..r.maxPos] == old(storage[r.sPos..r.maxPos]);
      }
    }
  }

  lemma SubSlice(s: seq<Byte>, start: nat, len: nat, off: nat, size: nat)
    requires start + len <= |s| && off + size <= len
    ensures s[start..start + len][off..off + size] == s[start + off..start + off + size]
  {
    var a, b := s[start..start + len][off..off + size], s[start + off..start + off + size];
    assert forall k :: 0 <= k < size ==> a[k] == s[start + off + k];
    assert forall k :: 0 <= k < size ==> b[k] == s[start + off + k];
  }

  lemma RemoveFacts(table: seq<Inode>, i: nat)
    requires DistinctNames(table) && i < |table| && table[i].Used?
    ensures DistinctNames(table[i := Free]) && UsedCount(table[i := Free]) == UsedCount(table) - 1
  {
    ContentsAfterRemove(table, i);
  }

  /** The name is taken, or every inode holds a file. */
  predicate CannotCreate(table: seq<Inode>, name: string) {
    name in Contents(table) || |Contents(table)| == |table|
  }

  /** Creating fails exactly for a name that exists and when all inodes are in use. */
  lemma CreateFails(table: seq<Inode>, name: string)
    requires DistinctNames(table)
    ensures FlatFs.Lookup(table, name) < |table| || FirstFree(table) == |table| <==> CannotCreate(table, name)
  {
    ContentsAt(table, name);
    FullTable(table);
    UsedCountIsSize(table);
  }

  lemma {:induction false} LookupIs(table: seq<Inode>, name: string, i: nat)
    requires i <= |table| && (i < |table| ==> table[i].Used? && table[i].name == name)
    requires forall k :: 0 <= k < i ==> table[k].Used? ==> table[k].name != name
    ensures FlatFs.Lookup(table, name) == i
  {
  }

  lemma {:induction false} FirstFreeIs(table: seq<Inode>, i: nat)
    requires i <= |table| && (i < |table| ==> table[i] == Free)
    requires forall k :: 0 <= k < i ==> table[k] != Free
    ensures FirstFree(table) == i
  {
  }
}
