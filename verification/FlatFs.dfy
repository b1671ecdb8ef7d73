/**
  The flat file system: a fixed table of inodes over one stretch of storage, in which
  every inode owns a page.
 */
module FlatFs {
  import opened Common
  import opened FileModel

  datatype Inode = Free | Used(name: string, data: seq<Byte>)

  /** Position of the first valid inode with this name, or the length of the table. */
  function Lookup(table: seq<Inode>, name: string): (i: nat)
    ensures i <= |table|
    ensures i < |table| ==> table[i].Used? && table[i].name == name
    ensures forall k :: 0 <= k < i ==> table[k].Used? ==> table[k].name != name
  {
    if table == [] || (table[0].Used? && table[0].name == name) then 0 else 1 + Lookup(table[1..], name)
  }

  function FirstFree(table: seq<Inode>): (i: nat)
    ensures i <= |table| && (i < |table| ==> table[i] == Free)
    ensures forall k :: 0 <= k < i ==> table[k] != Free
  {
    if table == [] || table[0] == Free then 0 else 1 + FirstFree(table[1..])
  }

  function UsedCount(table: seq<Inode>): nat {
    if table == [] then 0 else (if table[0].Used? then 1 else 0) + UsedCount(table[1..])
  }

  predicate DistinctNames(table: seq<Inode>) {
    forall i, j :: 0 <= i < j < |table| && table[i].Used? && table[j].Used? ==> table[i].name != table[j].name
  }

  /** The map from names to contents that a table stands for. */
  function Contents(table: seq<Inode>): map<string, seq<Byte>> {
    map i | 0 <= i < |table| && table[i].Used? :: table[i].name := table[Lookup(table, table[i].name)].data
  }

  // ---- Tables as maps ----

  lemma LookupUsed(table: seq<Inode>, i: nat)
    requires DistinctNames(table) && i < |table| && table[i].Used?
    ensures Lookup(table, table[i].name) == i
  {
  }

  lemma ContentsAt(table: seq<Inode>, name: string)
    requires DistinctNames(table)
    ensures name in Contents(table) <==> Lookup(table, name) < |table|
    ensures name in Contents(table) ==> Contents(table)[name] == table[Lookup(table, name)].data
  {
    if name in Contents(table) {
      var i :| 0 <= i < |table| && table[i].Used? && table[i].name == name;
    }
  }

  /** A table stands for a map that has a name exactly where some valid inode has it. */
  lemma ContentsIs(table: seq<Inode>, m: map<string, seq<Byte>>)
    requires DistinctNames(table)
    requires forall i :: 0 <= i < |table| && table[i].Used? ==> table[i].name in m && m[table[i].name] == table[i].data
    requires forall n :: n in m ==> exists i :: 0 <= i < |table| && table[i].Used? && table[i].name == n
    ensures Contents(table) == m
  {
    forall n | n in m ensures n in Contents(table) {
      var i :| 0 <= i < |table| && table[i].Used? && table[i].name == n;
    }
  }

  /** A write to one file is a write to one entry of the map. */
  lemma ContentsAfterWrite(table: seq<Inode>, i: nat, data: seq<Byte>)
    requires DistinctNames(table) && i < |table| && table[i].Used?
    ensures DistinctNames(table[i := Used(table[i].name, data)])
    ensures Contents(table[i := Used(table[i].name, data)]) == Contents(table)[table[i].name := data]
    ensures UsedCount(table[i := Used(table[i].name, data)]) == UsedCount(table)
  {
    hide Lookup, UsedCount;
    var t, m := table[i := Used(table[i].name, data)], Contents(table)[table[i].name := data];
    forall k | 0 <= k < |t| && t[k].Used? ensures t[k].name in m && m[t[k].name] == t[k].data {
      LookupUsed(table, k);
    }
    forall n | n in m ensures exists k :: 0 <= k < |t| && t[k].Used? && t[k].name == n {
      var k :| 0 <= k < |table| && table[k].Used? && table[k].name == n;
      assert t[k].name == n;
    }
    ContentsIs(t, m);
    CountUpdated(table, i, t[i]);
  }

  lemma ContentsAfterCreate(table: seq<Inode>, i: nat, name: string)
    requires DistinctNames(table) && i < |table| && table[i] == Free && Lookup(table, name) == |table|
    ensures DistinctNames(table[i := Used(name, [])])
    ensures Contents(table[i := Used(name, [])]) == Contents(table)[name := []]
    ensures UsedCount(table[i := Used(name, [])]) == UsedCount(table) + 1
  {
    hide Lookup, UsedCount;
    var t, m := table[i := Used(name, [])], Contents(table)[name := []];
    forall k | 0 <= k < |t| && t[k].Used? ensures t[k].name in m && m[t[k].name] == t[k].data {
      if k != i {
        LookupUsed(table, k);
      }
    }
    forall n | n in m ensures exists k :: 0 <= k < |t| && t[k].Used? && t[k].name == n {
      if n == name {
        assert t[i].name == n;
      } else {
        var k :| 0 <= k < |table| && table[k].Used? && table[k].name == n;
        assert t[k].name == n;
      }
    }
    ContentsIs(t, m);
    CountUpdated(table, i, t[i]);
  }

  lemma ContentsAfterRemove(table: seq<Inode>, i: nat)
    requires DistinctNames(table) && i < |table| && table[i].Used?
    ensures DistinctNames(table[i := Free])
    ensures Contents(table[i := Free]) == Contents(table) - {table[i].name}
    ensures UsedCount(table[i := Free]) == UsedCount(table) - 1
  {
    hide Lookup, UsedCount;
    var t, m := table[i := Free], Contents(table) - {table[i].name};
    forall k | 0 <= k < |t| && t[k].Used? ensures t[k].name in m && m[t[k].name] == t[k].data {
      LookupUsed(table, k);
    }
    forall n | n in m ensures exists k :: 0 <= k < |t| && t[k].Used? && t[k].name == n {
      var k :| 0 <= k < |table| && table[k].Used? && table[k].name == n;
      assert t[k].name == n;
    }
    ContentsIs(t, m);
    CountUpdated(table, i, Free);
  }

  lemma {:induction false} CountUpdated(table: seq<Inode>, i: nat, x: Inode)
    requires i < |table|
    ensures UsedCount(table[i := x]) ==
            UsedCount(table) - (if table[i].Used? then 1 else 0) + (if x.Used? then 1 else 0)
    decreases |table|
  {
    if i == 0 {
      assert table[i := x][1..] == table[1..];
    } else {
      assert table[i := x][1..] == table[1..][i - 1 := x];
      CountUpdated(table[1..], i - 1, x);
    }
  }

  /** The number of valid inodes is the number of names. */
  lemma {:induction false} UsedCountIsSize(table: seq<Inode>)
    requires DistinctNames(table)
    ensures UsedCount(table) == |Contents(table)|
    decreases UsedCount(table)
  {
    if i: nat :| i < |table| && table[i].Used? {
      ContentsAfterRemove(table, i);
      UsedCountIsSize(table[i := Free]);
      LookupUsed(table, i);
      assert table[i].name in Contents(table);
      assert |Contents(table)| == |Contents(table) - {table[i].name}| + 1;
    } else {
      NoneUsed(table);
      assert Contents(table) == map[];
    }
  }

  lemma {:induction false} NoneUsed(table: seq<Inode>)
    requires forall i :: 0 <= i < |table| ==> !table[i].Used?
    ensures UsedCount(table) == 0
  {
    if table == [] {
    } else {
      NoneUsed(table[1..]);
    }
  }

  lemma {:induction false} FullTable(table: seq<Inode>)
    ensures FirstFree(table) == |table| <==> UsedCount(table) == |table|
    ensures UsedCount(table) <= |table|
  {
    if table == [] {
    } else {
      FullTable(table[1..]);
    }
  }
}
