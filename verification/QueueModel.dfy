/**
  Values of a message queue and what each system call does to them.

  A queue has at most four members in arrival order, one block row of four cells
  per member slot, and one buffer shared by all members.  The block table is a
  single stretch of memory, row after row; the three cells after its last row are
  part of the value because the unicast scan is wider than a row and reads them.
 */
module QueueModel {
  import opened Common

  const MAX_MEMBERS := 4
  const BUFFER_SLOTS := 128
  const TABLE_CELLS := 16
  const MEMORY_CELLS := 19
  const BROADCAST_PID := 0xffff_ffff
  const FREE := -1

  type U32 = x: int | 0 <= x < 0x1_0000_0000
  type Pid = x: int | 0 <= x < 0x8000_0000

  datatype Message = Message(from: U32, to: U32, text: string)

  datatype Queue = Queue(members: seq<Pid>, table: seq<int>, msgs: seq<Message>)

  /** The new queue, the returned code, and the message copied out, if any. */
  datatype Reply = Reply(queue: Queue, code: int, got: seq<Message>)

  /** What a process can ask of one queue; `Join` is the fork handler's part. */
  datatype Op =
    | Send(pid: Pid, msg: Message)
    | Receive(pid: Pid)
    | Block(pid: Pid, target: int)
    | Count(pid: Pid)
    | Close(pid: Pid)
    | Join(pid: Pid)

  /** `s` occurs in the first `width` cells that start at row `i`. */
  predicate RowHas(table: seq<int>, i: nat, width: nat, s: int)
    requires 4 * i + width <= |table|
  {
    exists x :: 4 * i <= x < 4 * i + width && table[x] == s
  }

  predicate Distinct<T(==)>(s: seq<T>) {
    forall i, j :: 0 <= i < j < |s| ==> s[i] != s[j]
  }

  /** The first position of a member. */
  function SlotOf(members: seq<Pid>, pid: int): (i: nat)
    requires pid in members
    ensures i < |members| && members[i] == pid
    ensures pid !in members[..i]
  {
    if members[0] == pid then 0 else 1 + SlotOf(members[1..], pid)
  }

  /** Cells of member rows hold free marks or other members, without repetition; rows
      beyond the last member are free, and so is the fourth cell of every row. */
  predicate RowsGood(members: seq<Pid>, table: seq<int>)
    requires |table| == MEMORY_CELLS && |members| <= MAX_MEMBERS
  {
    && (forall x :: 0 <= x < 4 * |members| && table[x] != FREE ==>
          table[x] in members && table[x] != members[x / 4])
    && (forall x, y :: 0 <= x < y < 4 * |members| && x / 4 == y / 4 && table[x] == table[y] ==> table[x] == FREE)
    && (forall x :: 0 <= x < TABLE_CELLS && (4 * |members| <= x || x % 4 == 3) ==> table[x] == FREE)
  }

  predicate MessagesGood(members: seq<Pid>, msgs: seq<Message>) {
    forall m :: m in msgs ==> m.to in members && m.from != m.to
  }

  /** The queue invariant. */
  predicate Good(q: Queue) {
    && |q.table| == MEMORY_CELLS
    && |q.members| <= MAX_MEMBERS
    && |q.msgs| <= BUFFER_SLOTS
    && Distinct(q.members)
    && RowsGood(q.members, q.table)
    && MessagesGood(q.members, q.msgs)
  }

  /** Messages addressed to `pid`, oldest first. */
  function Inbox(msgs: seq<Message>, pid: int): seq<Message> {
    if msgs == [] then []
    else
      var rest := Inbox(msgs[..|msgs| - 1], pid);
      var last := msgs[|msgs| - 1];
      if last.to == pid then rest + [last] else rest
  }

  /** Messages addressed to anybody but `pid`, in buffer order. */
  function Others(msgs: seq<Message>, pid: int): (r: seq<Message>)
    ensures |r| <= |msgs|
  {
    if msgs == [] then []
    else
      var rest := Others(msgs[..|msgs| - 1], pid);
      var last := msgs[|msgs| - 1];
      if last.to != pid then rest + [last] else rest
  }

  /** Position of the oldest message addressed to `pid`, or the length. */
  function FirstFor(msgs: seq<Message>, pid: int): (i: nat)
    ensures i <= |msgs|
    ensures forall k :: 0 <= k < i ==> msgs[k].to != pid
    ensures i < |msgs| ==> msgs[i].to == pid
  {
    if msgs == [] || msgs[0].to == pid then 0 else 1 + FirstFor(msgs[1..], pid)
  }

  /** What a broadcast stores for the first `n` members. */
  function Copies(q: Queue, pid: Pid, msg: Message, n: nat): (r: seq<Message>)
    requires |q.table| == MEMORY_CELLS && |q.members| <= MAX_MEMBERS && n <= |q.members|
    ensures |r| <= n
  {
    if n == 0 then []
    else
      var rest := Copies(q, pid, msg, n - 1);
      if q.members[n - 1] != pid && !RowHas(q.table, n - 1, MAX_MEMBERS, pid)
      then rest + [msg.(to := q.members[n - 1])]
      else rest
  }

  predicate Shape(q: Queue) {
    |q.table| == MEMORY_CELLS && |q.members| <= MAX_MEMBERS && |q.msgs| <= BUFFER_SLOTS
  }

  function DoSend(q: Queue, pid: Pid, msg: Message): Reply
    requires Shape(q)
  {
    if pid !in q.members || msg.from != pid || msg.from == msg.to then
      Reply(q, -EINVAL, [])
    else if msg.to == BROADCAST_PID then
      var copies := Copies(q, pid, msg, |q.members|);
      Reply(q.(msgs := q.msgs + copies), |copies|, [])
    else if msg.to !in q.members || RowHas(q.table, SlotOf(q.members, msg.to), MAX_PROCESSES, pid) then
      Reply(q, -EINVAL, [])
    else
      Reply(q.(msgs := q.msgs + [msg]), 1, [])
  }

  function DoReceive(q: Queue, pid: Pid): Reply {
    if pid !in q.members then Reply(q, -EINVAL, [])
    else
      var i := FirstFor(q.msgs, pid);
      if i == |q.msgs| then Reply(q, 0, [])
      else Reply(q.(msgs := q.msgs[..i] + q.msgs[i + 1..]), 1, [q.msgs[i]])
  }

  /** First free cell of row `i`, or the end of the row. */
  function FreeCell(table: seq<int>, i: nat): (x: nat)
    requires 4 * i + 4 <= |table|
    ensures 4 * i <= x <= 4 * i + 4
    ensures forall y :: 4 * i <= y < x ==> table[y] != FREE
    ensures x < 4 * i + 4 ==> table[x] == FREE
  {
    var b := 4 * i;
    if table[b] == FREE then b
    else if table[b + 1] == FREE then b + 1
    else if table[b + 2] == FREE then b + 2
    else if table[b + 3] == FREE then b + 3
    else b + 4
  }

  function DoBlock(q: Queue, pid: Pid, target: int): Reply
    requires Shape(q)
  {
    if target < 0 || pid !in q.members || target !in q.members || pid == target then
      Reply(q, -EINVAL, [])
    else
      var i := SlotOf(q.members, pid);
      if RowHas(q.table, i, MAX_MEMBERS, target) then Reply(q, 0, [])
      else
        var x := FreeCell(q.table, i);
        if x == 4 * i + 4 then Reply(q, -EINVAL, [])
        else Reply(q.(table := q.table[x := target]), 0, [])
  }

  function DoCount(q: Queue, pid: Pid): Reply {
    Reply(q, if pid in q.members then |Inbox(q.msgs, pid)| else -EINVAL, [])
  }

  /** One cell of the table after the member at slot `i` of `c` left: rows behind it
      move up, the last occupied row is freed, and its pid is erased everywhere. */
  function ClosedCell(table: seq<int>, i: nat, c: nat, pid: Pid, x: nat): int
    requires |table| == MEMORY_CELLS && i < c <= MAX_MEMBERS && x < MEMORY_CELLS
  {
    var v := table[if 4 * i <= x < 12 then x + 4 else x];
    if 4 * (c - 1) <= x < 4 * c then FREE
    else if x < TABLE_CELLS && v == pid then FREE
    else v
  }

  function ClosedTable(table: seq<int>, i: nat, c: nat, pid: Pid): (r: seq<int>)
    requires |table| == MEMORY_CELLS && i < c <= MAX_MEMBERS
    ensures |r| == MEMORY_CELLS
  {
    seq(MEMORY_CELLS, x requires 0 <= x < MEMORY_CELLS => ClosedCell(table, i, c, pid, x))
  }

  function DoClose(q: Queue, pid: Pid): Reply
    requires Shape(q)
  {
    if pid !in q.members then Reply(q, -EINVAL, [])
    else
      var i := SlotOf(q.members, pid);
      Reply(Queue(q.members[..i] + q.members[i + 1..],
                  ClosedTable(q.table, i, |q.members|, pid),
                  Others(q.msgs, pid)), 0, [])
  }

  /** A forked child takes the next free slot. */
  function DoJoin(q: Queue, pid: Pid): Reply {
    Reply(q.(members := q.members + [pid]), 0, [])
  }

  function Created(pid: Pid, beyond: seq<int>): Queue
    requires |beyond| == MEMORY_CELLS - TABLE_CELLS
  {
    Queue([pid], seq(TABLE_CELLS, _ => FREE) + beyond, [])
  }

  function Perform(q: Queue, op: Op): Reply
    requires Shape(q)
  {
    match op
    case Send(pid, msg) => DoSend(q, pid, msg)
    case Receive(pid) => DoReceive(q, pid)
    case Block(pid, target) => DoBlock(q, pid, target)
    case Count(pid) => DoCount(q, pid)
    case Close(pid) => DoClose(q, pid)
    case Join(pid) => DoJoin(q, pid)
  }

  /** What the code takes for granted of its callers: the buffer has room for what a
      send stores, and a forked child is new and finds a free slot. */
  predicate Enabled(q: Queue, op: Op)
    requires Shape(q)
  {
    match op
    case Send(pid, msg) => |DoSend(q, pid, msg).queue.msgs| <= BUFFER_SLOTS
    case Join(pid) => |q.members| < MAX_MEMBERS && pid !in q.members
    case _ => true
  }

  // ---- The invariant is kept by every operation ----

  lemma CreatedGood(pid: Pid, beyond: seq<int>)
    requires |beyond| == MEMORY_CELLS - TABLE_CELLS
    ensures Good(Created(pid, beyond))
  {
  }

  lemma {:induction false} CopiesGood(q: Queue, pid: Pid, msg: Message, n: nat)
    requires Good(q) && n <= |q.members| && msg.from == pid
    ensures MessagesGood(q.members, Copies(q, pid, msg, n))
  {
    if n == 0 {
    } else {
      CopiesGood(q, pid, msg, n - 1);
    }
  }

  lemma {:induction false} OthersMembers(msgs: seq<Message>, pid: int)
    ensures forall m :: m in Others(msgs, pid) <==> m in msgs && m.to != pid
  {
    if msgs == [] {
    } else {
      OthersMembers(msgs[..|msgs| - 1], pid);
      assert msgs == msgs[..|msgs| - 1] + [msgs[|msgs| - 1]];
    }
  }

  /** A member that the owner of row `i` does not block yet always finds a free cell,
      and never needs the fourth: the block call does not reach its last return. */
  lemma RowHasRoom(q: Queue, i: nat, target: Pid)
    requires Good(q) && i < |q.members|
    requires target in q.members && target != q.members[i] && !RowHas(q.table, i, MAX_MEMBERS, target)
    ensures FreeCell(q.table, i) < 4 * i + 3
  {
    var t, b := q.table, 4 * i;
    if FreeCell(t, i) >= b + 3 {
      var cells := {t[b], t[b + 1], t[b + 2], target as int};
      assert |cells| == 4;
      var own: set<int> := set m: Pid | m in q.members && m != q.members[i] :: m as int;
      assert cells <= own;
      OthersOf(q.members, i);
      SubsetSize(cells, own);
    }
  }

  lemma SubsetSize(a: set<int>, b: set<int>)
    requires a <= b
    ensures |a| <= |b|
  {
    assert b == a + (b - a);
  }

  /** Fewer than |members| other members exist. */
  lemma OthersOf(members: seq<Pid>, i: nat)
    requires i < |members| && |members| <= MAX_MEMBERS
    ensures |set m: Pid | m in members && m != members[i] :: m as int| <= 3
  {
    var rest := members[..i] + members[i + 1..];
    var own: set<int> := set m: Pid | m in members && m != members[i] :: m as int;
    var all := set k | 0 <= k < |rest| :: rest[k] as int;
    forall v | v in own ensures v in all {
      var k :| 0 <= k < |members| && members[k] == v;
      assert rest[if k < i then k else k - 1] == v;
    }
    SubsetSize(own, all);
    ImageSize(rest, |rest|);
  }

  lemma {:induction false} ImageSize(s: seq<Pid>, n: nat)
    requires n <= |s|
    ensures |set k | 0 <= k < n :: s[k] as int| <= n
  {
    if n == 0 {
    } else {
      ImageSize(s, n - 1);
      assert (set k | 0 <= k < n :: s[k] as int) == (set k | 0 <= k < n - 1 :: s[k] as int) + {s[n - 1] as int};
    }
  }

  lemma BlockGood(q: Queue, pid: Pid, target: int)
    requires Good(q)
    ensures Good(DoBlock(q, pid, target).queue)
    ensures DoBlock(q, pid, target).code == -EINVAL <==>
            pid !in q.members || target !in q.members || pid == target
  {
    hide Distinct, MessagesGood, RowsGood, RowHas, FreeCell;
    if target >= 0 && pid in q.members && target in q.members && pid != target {
      var i := SlotOf(q.members, pid);
      if !RowHas(q.table, i, MAX_MEMBERS, target) {
        RowHasRoom(q, i, target);
        NewEntryGood(q.members, q.table, i, FreeCell(q.table, i), target);
      }
    }
  }

  /** One more entry in one of the first three cells of a row. */
  lemma NewEntryGood(members: seq<Pid>, table: seq<int>, i: nat, x: nat, target: Pid)
    requires |table| == MEMORY_CELLS && |members| <= MAX_MEMBERS && i < |members| && RowsGood(members, table)
    requires target in members && target != members[i] && !RowHas(table, i, MAX_MEMBERS, target)
    requires 4 * i <= x < 4 * i + 3 && table[x] == FREE
    ensures RowsGood(members, table[x := target])
  {
    assert forall y :: 4 * i <= y < 4 * i + 4 ==> table[y] != target;
  }

  lemma ReceiveGood(q: Queue, pid: Pid)
    requires Good(q)
    ensures Good(DoReceive(q, pid).queue)
  {
  }

  lemma SendGood(q: Queue, pid: Pid, msg: Message)
    requires Good(q) && Enabled(q, Send(pid, msg))
    ensures Good(DoSend(q, pid, msg).queue)
  {
    if msg.from == pid {
      CopiesGood(q, pid, msg, |q.members|);
    }
  }

  lemma JoinGood(q: Queue, pid: Pid)
    requires Good(q) && Enabled(q, Join(pid))
    ensures Good(DoJoin(q, pid).queue)
  {
  }

  lemma CloseGood(q: Queue, pid: Pid)
    requires Good(q)
    ensures Good(DoClose(q, pid).queue)
  {
    if pid in q.members {
      OthersMembers(q.msgs, pid);
      ClosedMembers(q, pid);
      ClosedRowsGood(q, pid);
    }
  }

  /** Where the cell of a closed table comes from. */
  lemma ClosedFrom(q: Queue, pid: Pid, x: nat)
    requires Good(q) && pid in q.members && x < TABLE_CELLS
    ensures var c, q' := |q.members|, DoClose(q, pid).queue;
            if x < 4 * (c - 1) then
              var y := if x < 4 * SlotOf(q.members, pid) then x else x + 4;
              && y < 4 * c
              && q'.members[x / 4] == q.members[y / 4]
              && q'.table[x] == (if q.table[y] == pid then FREE else q.table[y])
            else
              q'.table[x] == FREE
  {
    hide MessagesGood, Distinct, Others;
    var i, members := SlotOf(q.members, pid), DoClose(q, pid).queue.members;
    NextRow(x);
    assert forall k :: 0 <= k < |members| ==> members[k] == q.members[if k < i then k else k + 1];
  }

  lemma NextRow(x: nat)
    ensures (x + 4) / 4 == x / 4 + 1
    ensures forall n: nat :: x < 4 * n <==> x / 4 < n
  {
  }

  lemma ClosedMembers(q: Queue, pid: Pid)
    requires Shape(q) && Distinct(q.members) && pid in q.members
    ensures Distinct(DoClose(q, pid).queue.members)
    ensures forall m :: m in DoClose(q, pid).queue.members <==> m in q.members && m != pid
  {
    var i, q' := SlotOf(q.members, pid), DoClose(q, pid).queue;
    forall m | m in q.members && m != pid ensures m in q'.members {
      var k :| 0 <= k < |q.members| && q.members[k] == m;
      assert q'.members[if k < i then k else k - 1] == m;
    }
  }

  lemma ClosedRowsGood(q: Queue, pid: Pid)
    requires Good(q) && pid in q.members
    ensures RowsGood(DoClose(q, pid).queue.members, DoClose(q, pid).queue.table)
  {
    var c, q' := |q.members|, DoClose(q, pid).queue;
    ClosedMembers(q, pid);
    forall x | 0 <= x < TABLE_CELLS
      ensures x < 4 * (c - 1) && q'.table[x] != FREE ==> q'.table[x] in q'.members && q'.table[x] != q'.members[x / 4]
      ensures x >= 4 * (c - 1) || x % 4 == 3 ==> q'.table[x] == FREE
    {
      ClosedFrom(q, pid, x);
    }
    forall x, y | 0 <= x < y < 4 * (c - 1) && x / 4 == y / 4 && q'.table[x] == q'.table[y]
      ensures q'.table[x] == FREE
    {
      ClosedFrom(q, pid, x);
      ClosedFrom(q, pid, y);
    }
  }

  /** Every operation keeps the invariant. */
  lemma PerformGood(q: Queue, op: Op)
    requires Good(q) && Enabled(q, op)
    ensures Good(Perform(q, op).queue)
  {
    match op
    case Send(pid, msg) => SendGood(q, pid, msg);
    case Receive(pid) => ReceiveGood(q, pid);
    case Block(pid, target) => BlockGood(q, pid, target);
    case Count(pid) =>
    case Close(pid) => CloseGood(q, pid);
    case Join(pid) => JoinGood(q, pid);
  }
}
