/**
  The inode record as bytes.  The name field is followed by the other fields, and the loop
  that copies a name does not look at the field's length.
 */
module InodeCells {
  import opened Common
  import opened FileModel

  // Distances from the first byte of the name; mode, type and inode number come before.
  const REF_COUNT := 268
  const S_POS := 272
  const MAX_POS := 280
  const RECORD_SIZE := 288

  const ZERO: seq<Byte> := [0, 0, 0, 0]

  /** `s` written over `cells` at `at`. */
  function Put(cells: seq<Byte>, at: nat, s: seq<Byte>): (r: seq<Byte>)
    requires at + |s| <= |cells|
    ensures |r| == |cells|
    ensures forall k :: 0 <= k < |r| ==> r[k] == if at <= k < at + |s| then s[k - at] else cells[k]
  {
    cells[..at] + s + cells[at + |s|..]
  }

  /** The C string that starts at the first cell. */
  function Stored(cells: seq<Byte>): (r: seq<Byte>)
    ensures |r| <= |cells| && r == cells[..|r|] && 0 !in r
    ensures |r| < |cells| ==> cells[|r|] == 0
  {
    if cells == [] || cells[0] == 0 then [] else [cells[0]] + Stored(cells[1..])
  }

  /** The record after an inode was created: the mode, the name with its end mark, the end
      of the data at the start of the page, size 0 and no reference. */
  function Created(cells: seq<Byte>, name: seq<Byte>, mode: seq<Byte>): (r: seq<Byte>)
    requires RECORD_SIZE <= |cells| && |name| < |cells| && |mode| == 4
    ensures |r| == |cells|
  {
    var named := Put(Put(cells, NAME_SIZE, mode), 0, name + [0]);
    Put(Put(Put(named, MAX_POS, named[S_POS..S_POS + 4]), MAX_POS + 4, ZERO), REF_COUNT, ZERO)
  }

  /** The writes of flat_create_inode into a free record and whatever lies behind it. */
  method CreateRecord(cells: array<Byte>, name: seq<Byte>, mode: seq<Byte>)
    requires RECORD_SIZE <= cells.Length && |name| < cells.Length && |mode| == 4
    modifies cells
    ensures cells[..] == Created(old(cells[..]), name, mode)
  {
    hide Put;
    PutWord(cells, NAME_SIZE, mode);
    ghost var named := cells[..];
    var i := 0;
    while i < |name|
      invariant 0 <= i <= |name|
      invariant cells[..] == Put(named, 0, name[..i])
    {
      cells[i] := name[i];
      i := i + 1;
    }
    assert name[..i] == name;
    cells[i] := 0;
    assert cells[..] == Put(named, 0, name + [0]);
    PutWord(cells, MAX_POS, cells[S_POS..S_POS + 4]);
    PutWord(cells, MAX_POS + 4, ZERO);
    PutWord(cells, REF_COUNT, ZERO);
  }

  /** A field of four bytes. */
  method PutWord(cells: array<Byte>, at: nat, word: seq<Byte>)
    requires at + 4 <= cells.Length && |word| == 4
    modifies cells
    ensures cells[..] == Put(old(cells[..]), at, word)
  {
    cells[at], cells[at + 1], cells[at + 2], cells[at + 3] := word[0], word[1], word[2], word[3];
  }

  /** The comparison of a lookup. */
  method SameName(cells: array<Byte>, name: seq<Byte>) returns (same: bool)
    requires 0 !in name && |Stored(cells[..])| < cells.Length
    ensures same <==> Stored(cells[..]) == name
  {
    hide Stored;
    ghost var stored := Stored(cells[..]);
    var i := 0;
    while i < |name| && cells[i] == name[i]
      invariant 0 <= i <= |name| && i <= |stored| && stored[..i] == name[..i]
    {
      assert i < |stored| by {
        assert name[i] in name;
      }
      i := i + 1;
    }
    same := i == |name| && cells[i] == 0;
    assert i < |stored| ==> cells[i] == stored[i] && stored[i] in stored;
  }

  lemma {:induction false} StoredIs(cells: seq<Byte>, name: seq<Byte>)
    requires |name| < |cells| && cells[..|name|] == name && cells[|name|] == 0 && 0 !in name
    ensures Stored(cells) == name
  {
    if name == [] {
    } else {
      var n := |name| - 1;
      assert cells[0] == name[0] && name[0] in name;
      assert cells[1..][..n] == name[1..] && cells[1..][n] == cells[n + 1];
      StoredIs(cells[1..], name[1..]);
    }
  }

  /** The name that a lookup finds in the record is the one it was created with if and only if
      that is no longer than 268 bytes; a longer one is cut there. */
  lemma NameKept(cells: seq<Byte>, name: seq<Byte>, mode: seq<Byte>)
    requires RECORD_SIZE <= |cells| && |name| < |cells| && |mode| == 4 && 0 !in name
    ensures Stored(Created(cells, name, mode)) == name <==> |name| <= REF_COUNT
    ensures |name| > REF_COUNT ==> Stored(Created(cells, name, mode)) == name[..REF_COUNT]
  {
    hide Put, Stored;
    var c := Created(cells, name, mode);
    var kept := if |name| <= REF_COUNT then name else name[..REF_COUNT];
    assert c[..|kept|] == kept;
    StoredIs(c, kept);
  }

  /** The record keeps the start and the end of its page if and only if the name has no more
      than 272 bytes: pages start at multiples of 4096. */
  lemma PageKept(cells: seq<Byte>, name: seq<Byte>, mode: seq<Byte>)
    requires RECORD_SIZE <= |cells| && |name| < |cells| && |mode| == 4 && 0 !in name && cells[S_POS] == 0
    ensures Created(cells, name, mode)[S_POS..MAX_POS] == cells[S_POS..MAX_POS] <==> |name| <= S_POS
  {
    hide Put;
    var c := Created(cells, name, mode);
    assert |name| > S_POS ==> c[S_POS] == name[S_POS] && name[S_POS] in name;
    assert c[S_POS..MAX_POS][0] == c[S_POS] && cells[S_POS..MAX_POS][0] == cells[S_POS];
  }

  /** A record keeps its page and its name exactly up to 268 bytes.  Below the length of the
      name field it also keeps its type and number and has the mode it was given. */
  lemma RecordKept(cells: seq<Byte>, name: seq<Byte>, mode: seq<Byte>)
    requires RECORD_SIZE <= |cells| && |name| < |cells| && |mode| == 4 && 0 !in name && cells[S_POS] == 0
    ensures var c := Created(cells, name, mode);
            && (c[S_POS..MAX_POS] == cells[S_POS..MAX_POS] && Stored(c) == name <==> |name| <= REF_COUNT)
            && (|name| < NAME_SIZE ==>
                  && c[NAME_SIZE..NAME_SIZE + 4] == mode
                  && c[NAME_SIZE + 4..REF_COUNT] == cells[NAME_SIZE + 4..REF_COUNT]
                  && c[REF_COUNT..S_POS] == ZERO && c[MAX_POS + 4..RECORD_SIZE] == ZERO
                  && c[MAX_POS..MAX_POS + 4] == cells[S_POS..S_POS + 4]
                  && c[RECORD_SIZE..] == cells[RECORD_SIZE..])
  {
    hide Put, Stored;
    NameKept(cells, name, mode);
    PageKept(cells, name, mode);
    if |name| < NAME_SIZE {
      hide Created;
      var c := Created(cells, name, mode);
      forall k: nat | NAME_SIZE <= k < |cells| ensures c[k] == CellAt(cells, mode, k) {
        CellIs(cells, name, mode, k);
      }
      assert c[NAME_SIZE..NAME_SIZE + 4] == mode;
      assert c[NAME_SIZE + 4..REF_COUNT] == cells[NAME_SIZE + 4..REF_COUNT];
      assert c[MAX_POS..MAX_POS + 4] == cells[S_POS..S_POS + 4];
      assert c[RECORD_SIZE..] == cells[RECORD_SIZE..];
    }
  }

  /** What is in the cells behind the name field. */
  function CellAt(cells: seq<Byte>, mode: seq<Byte>, k: nat): Byte
    requires RECORD_SIZE <= |cells| && |mode| == 4 && NAME_SIZE <= k < |cells|
  {
    if k < NAME_SIZE + 4 then mode[k - NAME_SIZE]
    else if REF_COUNT <= k < S_POS || MAX_POS + 4 <= k < RECORD_SIZE then 0
    else if MAX_POS <= k < MAX_POS + 4 then cells[k - 8]
    else cells[k]
  }

  lemma CellIs(cells: seq<Byte>, name: seq<Byte>, mode: seq<Byte>, k: nat)
    requires RECORD_SIZE <= |cells| && |name| < NAME_SIZE && |mode| == 4 && NAME_SIZE <= k < |cells|
    ensures Created(cells, name, mode)[k] == CellAt(cells, mode, k)
  {
    hide Put;
  }

  /** A file whose name has 269 bytes is not found again under it, and opening it once more
      creates another. */
  lemma LongNameIsLost(cells: seq<Byte>, name: seq<Byte>, mode: seq<Byte>)
    requires RECORD_SIZE <= |cells| && |mode| == 4 && 0 !in name && |name| == REF_COUNT + 1
    ensures Stored(Created(cells, name, mode)) == name[..REF_COUNT] != name
  {
    NameKept(cells, name, mode);
  }
}
