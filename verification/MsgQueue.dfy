/**
  The message queue as the kernel stores it: fixed buffers updated in place.
  Every method is proved to compute what `QueueModel` says about the queue's value.
 */
module MsgQueueObject {
  import opened Common
  import opened QueueModel

  class MsgQueue {
    var memberCount: nat
    const memberPid: array<Pid>
    const blockProcess: array<int>
    var msgCount: nat
    const msgBuffer: array<Message>

    ghost predicate Valid()
      reads this
    {
      && memberPid.Length == MAX_MEMBERS
      && memberPid as object != blockProcess
      && blockProcess.Length == MEMORY_CELLS
      && msgBuffer.Length == BUFFER_SLOTS
      && memberCount <= MAX_MEMBERS
      && msgCount <= BUFFER_SLOTS
    }

    /** The value this object stands for. */
    ghost function Value(): (q: Queue)
      reads this, memberPid, blockProcess, msgBuffer
      requires Valid()
      ensures Shape(q)
    {
      Queue(memberPid[..memberCount], blockProcess[..], msgBuffer[..msgCount])
    }

    /** A queue with its creator as the only member and nobody blocked; `table` is the
        memory page the block table is written into. */
    constructor (pid: Pid, table: array<int>)
      requires table.Length == MEMORY_CELLS
      modifies table
      ensures Valid() && Good(Value())
      ensures Value() == Created(pid, old(table[TABLE_CELLS..]))
      ensures fresh(memberPid) && fresh(msgBuffer) && blockProcess == table
    {
      memberPid := new Pid[MAX_MEMBERS](_ => 0);
      blockProcess := table;
      msgBuffer := new Message[BUFFER_SLOTS](_ => Message(0, 0, ""));
      memberCount := 1;
      msgCount := 0;
      new;
      memberPid[0] := pid;
      ghost var beyond := table[TABLE_CELLS..];
      var i := 0;
      while i < MAX_MEMBERS
        invariant 0 <= i <= MAX_MEMBERS
        invariant forall x :: 0 <= x < 4 * i ==> blockProcess[x] == FREE
        invariant blockProcess[TABLE_CELLS..] == beyond
        modifies blockProcess
      {
        var j := 0;
        while j < MAX_MEMBERS
          invariant 0 <= j <= MAX_MEMBERS
          invariant forall x :: 0 <= x < 4 * i + j ==> blockProcess[x] == FREE
          invariant blockProcess[TABLE_CELLS..] == beyond
          modifies blockProcess
        {
          blockProcess[4 * i + j] := FREE;
          j := j + 1;
        }
        i := i + 1;
      }
      assert memberPid[..1] == [pid];
      assert blockProcess[..] == blockProcess[..TABLE_CELLS] + beyond;
      assert blockProcess[..] == Created(pid, beyond).table;
      CreatedGood(pid, beyond);
    }

    /** The membership scan every system call starts with. */
    method IsMember(pid: int) returns (check: bool)
      requires Valid()
      ensures check <==> pid in Value().members
    {
      check := false;
      var i := 0;
      while i < memberCount
        invariant 0 <= i <= memberCount
        invariant check <==> pid in memberPid[..i]
      {
        if memberPid[i] == pid {
          assert pid in memberPid[..i + 1];
          check := true;
          assert memberPid[..memberCount][i] == pid;
          break;
        }
        i := i + 1;
      }
    }

    /** The slot of a member, or -1. */
    method FindMember(pid: int) returns (idx: int)
      requires Valid()
      ensures idx == -1 <==> pid !in Value().members
      ensures idx != -1 ==> pid in Value().members && idx == SlotOf(Value().members, pid)
    {
      idx := -1;
      var i := 0;
      while i < memberCount
        invariant 0 <= i <= memberCount && idx == -1
        invariant pid !in memberPid[..i]
      {
        if memberPid[i] == pid {
          assert memberPid[..memberCount][i] == pid;
          SlotUnique(memberPid[..memberCount], pid, i);
          return i;
        }
        i := i + 1;
      }
    }

    /** Does the scan of `width` cells from row `i` on meet `pid`? */
    method ScanRow(i: nat, width: nat, pid: int) returns (found: bool)
      requires Valid() && 4 * i + width <= MEMORY_CELLS
      ensures found <==> RowHas(Value().table, i, width, pid)
    {
      found := false;
      var j := 0;
      while j < width
        invariant 0 <= j <= width
        invariant found <==> RowHas(blockProcess[..], i, j, pid)
      {
        assert blockProcess[..][4 * i + j] == blockProcess[4 * i + j];
        if blockProcess[4 * i + j] == pid {
          found := true;
        }
        j := j + 1;
      }
    }

    method Store(msg: Message)
      requires Valid() && msgCount < BUFFER_SLOTS
      modifies this`msgCount, msgBuffer
      ensures Valid() && memberCount == old(memberCount)
      ensures Value() == old(Value()).(msgs := old(Value()).msgs + [msg])
    {
      msgBuffer[msgCount] := msg;
      msgCount := msgCount + 1;
    }

    method MsgQueueSend(pid: Pid, msg: Message) returns (code: int)
      requires Valid() && Enabled(Value(), Send(pid, msg))
      modifies this`msgCount, msgBuffer
      ensures Valid()
      ensures Reply(Value(), code, []) == DoSend(old(Value()), pid, msg)
    {
      var check := IsMember(pid);
      if !check {
        return -EINVAL;
      }
      if msg.from != pid || msg.from == msg.to {
        return -EINVAL;
      }
      if msg.to == BROADCAST_PID {
        code := Broadcast(pid, msg);
        return;
      }
      var i := FindMember(msg.to);
      if i == -1 {
        return -EINVAL;
      }
      var blocked := ScanRow(i, MAX_PROCESSES, pid);
      if blocked {
        return -EINVAL;
      }
      Store(msg);
      return 1;
    }

    /** A copy for every member that is neither the sender nor blocks it. */
    method Broadcast(pid: Pid, msg: Message) returns (delivered: nat)
      requires Valid() && msgCount + |Copies(Value(), pid, msg, memberCount)| <= BUFFER_SLOTS
      modifies this`msgCount, msgBuffer
      ensures Valid()
      ensures Value() == old(Value()).(msgs := old(Value()).msgs + Copies(old(Value()), pid, msg, memberCount))
      ensures delivered == |Copies(old(Value()), pid, msg, memberCount)|
    {
      ghost var q := Value();
      delivered := 0;
      var i := 0;
      while i < memberCount
        invariant Valid() && 0 <= i <= memberCount == |q.members|
        invariant Value() == q.(msgs := q.msgs + Copies(q, pid, msg, i))
        invariant delivered == |Copies(q, pid, msg, i)|
      {
        CopiesGrow(q, pid, msg, i + 1, |q.members|);
        var stored := Offer(i, pid, msg);
        if stored {
          delivered := delivered + 1;
        }
        i := i + 1;
      }
    }

    /** One turn of the broadcast loop. */
    method Offer(i: nat, pid: Pid, msg: Message) returns (stored: bool)
      requires Valid() && i < memberCount
      requires memberPid[i] != pid && !RowHas(Value().table, i, MAX_MEMBERS, pid) ==> msgCount < BUFFER_SLOTS
      modifies this`msgCount, msgBuffer
      ensures Valid() && memberCount == old(memberCount)
      ensures stored <==> memberPid[i] != pid && !RowHas(old(Value().table), i, MAX_MEMBERS, pid)
      ensures Value() == old(Value()).(msgs := old(Value().msgs) + if stored then [msg.(to := memberPid[i])] else [])
    {
      stored := false;
      if memberPid[i] != pid {
        var blocked := ScanRow(i, MAX_MEMBERS, pid);
        if !blocked {
          Store(msg.(to := memberPid[i]));
          stored := true;
        }
      }
    }

    method MsgQueueRcv(pid: Pid) returns (code: int, got: seq<Message>)
      requires Valid()
      modifies this`msgCount, msgBuffer
      ensures Valid()
      ensures Reply(Value(), code, got) == DoReceive(old(Value()), pid)
    {
      var check := IsMember(pid);
      if !check {
        return -EINVAL, [];
      }
      var i := 0;
      while i < msgCount
        invariant 0 <= i <= msgCount
        invariant forall k :: 0 <= k < i ==> msgBuffer[k].to != pid
      {
        if msgBuffer[i].to == pid {
          FirstUnique(msgBuffer[..msgCount], pid, i);
          got := [msgBuffer[i]];
          CloseGap(i);
          return 1, got;
        }
        i := i + 1;
      }
      FirstUnique(msgBuffer[..msgCount], pid, i);
      return 0, [];
    }

    /** Moves every message behind position `i` one place forward. */
    method CloseGap(i: nat)
      requires Valid() && i < msgCount
      modifies this`msgCount, msgBuffer
      ensures Valid()
      ensures Value() == old(Value()).(msgs := old(Value().msgs[..i] + Value().msgs[i + 1..]))
    {
      var j := i;
      while j < msgCount - 1
        invariant Valid() && msgCount == old(msgCount) && i <= j <= msgCount - 1
        invariant forall k :: 0 <= k < i ==> msgBuffer[k] == old(msgBuffer[k])
        invariant forall k :: i <= k < j ==> msgBuffer[k] == old(msgBuffer[k + 1])
        invariant forall k :: j < k < msgCount ==> msgBuffer[k] == old(msgBuffer[k])
      {
        msgBuffer[j] := msgBuffer[j + 1];
        j := j + 1;
      }
      msgCount := msgCount - 1;
      assert msgBuffer[..msgCount] == old(msgBuffer[..msgCount][..i] + msgBuffer[..msgCount][i + 1..]);
    }

    method GetMsgCount(pid: Pid) returns (code: int)
      requires Valid()
      ensures code == DoCount(Value(), pid).code
    {
      var check := IsMember(pid);
      if !check {
        return -EINVAL;
      }
      code := 0;
      var i := 0;
      while i < msgCount
        invariant 0 <= i <= msgCount
        invariant code == |Inbox(msgBuffer[..i], pid)|
      {
        assert msgBuffer[..i + 1][..i] == msgBuffer[..i];
        if msgBuffer[i].to == pid {
          code := code + 1;
        }
        i := i + 1;
      }
    }

    method MsgQueueBlock(pid: Pid, target: int) returns (code: int)
      requires Valid() && Distinct(Value().members)
      modifies blockProcess
      ensures Valid()
      ensures Reply(Value(), code, []) == DoBlock(old(Value()), pid, target)
    {
      hide RowHas, SlotOf, FreeCell;
      if target < 0 {
        return -EINVAL;
      }
      var idxCtx, idxPid := FindBoth(pid, target);
      if idxPid == -1 || idxCtx == -1 || idxCtx == idxPid {
        return -EINVAL;
      }
      SlotUnique(Value().members, pid, idxCtx);
      var found := ScanRow(idxCtx, MAX_MEMBERS, target);
      if found {
        return 0;
      }
      var i := 0;
      while i < MAX_MEMBERS
        invariant 0 <= i <= MAX_MEMBERS
        invariant forall x :: 4 * idxCtx <= x < 4 * idxCtx + i ==> blockProcess[x] != FREE
      {
        if blockProcess[4 * idxCtx + i] == FREE {
          FreeCellUnique(blockProcess[..], idxCtx, 4 * idxCtx + i);
          blockProcess[4 * idxCtx + i] := target;
          return 0;
        }
        i := i + 1;
      }
      FreeCellUnique(blockProcess[..], idxCtx, 4 * idxCtx + i);
      return -EINVAL;
    }

    /** The member slots of the caller and of its target, by one scan. */
    method FindBoth(pid: int, target: int) returns (idxCtx: int, idxPid: int)
      requires Valid()
      ensures idxCtx == -1 <==> pid !in Value().members
      ensures idxPid == -1 <==> target !in Value().members
      ensures idxCtx != -1 ==> 0 <= idxCtx < memberCount && memberPid[idxCtx] == pid
      ensures idxPid != -1 ==> 0 <= idxPid < memberCount && memberPid[idxPid] == target
    {
      idxCtx, idxPid := -1, -1;
      var i := 0;
      while i < memberCount
        invariant 0 <= i <= memberCount
        invariant if pid in memberPid[..i] then 0 <= idxCtx < i && memberPid[idxCtx] == pid else idxCtx == -1
        invariant if target in memberPid[..i] then 0 <= idxPid < i && memberPid[idxPid] == target else idxPid == -1
      {
        assert memberPid[..i + 1] == memberPid[..i] + [memberPid[i]];
        if memberPid[i] == pid {
          idxCtx := i;
        }
        if memberPid[i] == target {
          idxPid := i;
        }
        i := i + 1;
      }
    }

    method AddMember(pid: Pid)
      requires Valid() && memberCount < MAX_MEMBERS
      modifies this`memberCount, memberPid
      ensures Valid()
      ensures Value() == DoJoin(old(Value()), pid).queue
    {
      memberCount := memberCount + 1;
      memberPid[memberCount - 1] := pid;
    }

    /** Closing for a member; the second result says that nobody is left. */
    method MsgQueueClose(pid: Pid) returns (code: int, last: bool)
      requires Valid()
      modifies this, memberPid, blockProcess, msgBuffer
      ensures Valid()
      ensures Reply(Value(), code, []) == DoClose(old(Value()), pid)
      ensures last <==> code == 0 && Value().members == []
    {
      var i := FindMember(pid);
      if i == -1 {
        return -EINVAL, false;
      }
      Unlist(i, pid);
      Compact(pid);
      return 0, memberCount == 0;
    }

    /** Takes the member at slot `i` out of the member array and the block table. */
    method Unlist(i: nat, pid: Pid)
      requires Valid() && i < memberCount
      modifies this`memberCount, memberPid, blockProcess
      ensures Valid()
      ensures var q := old(Value());
              Value() == Queue(q.members[..i] + q.members[i + 1..], ClosedTable(q.table, i, |q.members|, pid), q.msgs)
    {
      ghost var q := Value();
      ShiftUp(i);
      memberCount := memberCount - 1;
      ClearRow(memberCount);
      Erase(pid);
      assert memberPid[..memberCount] == q.members[..i] + q.members[i + 1..];
      assert blockProcess[..] == ClosedTable(q.table, i, |q.members|, pid);
    }

    /** Members and block rows behind slot `i` move up by one slot. */
    method ShiftUp(i: nat)
      requires Valid() && i < memberCount
      modifies memberPid, blockProcess
      ensures forall k :: 0 <= k < i || k == 3 ==> memberPid[k] == old(memberPid[k])
      ensures forall k :: i <= k < 3 ==> memberPid[k] == old(memberPid[k + 1])
      ensures forall x :: 0 <= x < MEMORY_CELLS ==>
                blockProcess[x] == old(blockProcess[if 4 * i <= x < 12 then x + 4 else x])
    {
      var j := i;
      while j < MAX_MEMBERS - 1
        invariant i <= j <= MAX_MEMBERS - 1 || j == i
        invariant forall k :: 0 <= k < i || j <= k < MAX_MEMBERS ==> memberPid[k] == old(memberPid[k])
        invariant forall k :: i <= k < j ==> memberPid[k] == old(memberPid[k + 1])
        invariant forall x :: 0 <= x < MEMORY_CELLS ==>
                    blockProcess[x] == old(blockProcess[if 4 * i <= x < 4 * j then x + 4 else x])
      {
        memberPid[j] := memberPid[j + 1];
        ShiftRow(j);
        j := j + 1;
      }
    }

    /** The row behind row `j` is copied over it. */
    method ShiftRow(j: nat)
      requires Valid() && j < MAX_MEMBERS - 1
      modifies blockProcess
      ensures forall x :: 0 <= x < MEMORY_CELLS ==>
                blockProcess[x] == old(blockProcess[if 4 * j <= x < 4 * j + 4 then x + 4 else x])
    {
      var k := 0;
      while k < MAX_MEMBERS
        invariant 0 <= k <= MAX_MEMBERS
        invariant forall x :: 0 <= x < MEMORY_CELLS ==>
                    blockProcess[x] == old(blockProcess[if 4 * j <= x < 4 * j + k then x + 4 else x])
      {
        blockProcess[4 * j + k] := blockProcess[4 * (j + 1) + k];
        k := k + 1;
      }
    }

    method ClearRow(i: nat)
      requires Valid() && i < MAX_MEMBERS
      modifies blockProcess
      ensures forall x :: 0 <= x < MEMORY_CELLS ==>
                blockProcess[x] == if 4 * i <= x < 4 * i + 4 then FREE else old(blockProcess[x])
    {
      var k := 0;
      while k < MAX_MEMBERS
        invariant 0 <= k <= MAX_MEMBERS
        invariant forall x :: 0 <= x < MEMORY_CELLS ==>
                    blockProcess[x] == if 4 * i <= x < 4 * i + k then FREE else old(blockProcess[x])
      {
        blockProcess[4 * i + k] := FREE;
        k := k + 1;
      }
    }

    method Erase(pid: Pid)
      requires Valid()
      modifies blockProcess
      ensures forall x :: 0 <= x < MEMORY_CELLS ==>
                blockProcess[x] == if x < TABLE_CELLS && old(blockProcess[x]) == pid then FREE else old(blockProcess[x])
    {
      var j := 0;
      while j < MAX_MEMBERS
        invariant 0 <= j <= MAX_MEMBERS
        invariant forall x :: 0 <= x < MEMORY_CELLS ==>
                    blockProcess[x] == if x < 4 * j && old(blockProcess[x]) == pid then FREE else old(blockProcess[x])
      {
        var k := 0;
        while k < MAX_MEMBERS
          invariant 0 <= k <= MAX_MEMBERS
          invariant forall x :: 0 <= x < MEMORY_CELLS ==>
                      blockProcess[x] ==
                      if x < 4 * j + k && old(blockProcess[x]) == pid then FREE else old(blockProcess[x])
        {
          if blockProcess[4 * j + k] == pid {
            blockProcess[4 * j + k] := FREE;
          }
          k := k + 1;
        }
        j := j + 1;
      }
    }

    /** Drops the messages addressed to `pid`, keeping the others in order. */
    method Compact(pid: Pid)
      requires Valid()
      modifies this`msgCount, msgBuffer
      ensures Valid()
      ensures Value() == old(Value()).(msgs := Others(old(Value()).msgs, pid))
    {
      hide Others;
      ghost var was := msgBuffer[..msgCount];
      OthersNone(pid);
      var kept := 0;
      var j := 0;
      while j < msgCount
        invariant 0 <= kept <= j <= msgCount == |was|
        invariant msgBuffer[..kept] == Others(was[..j], pid)
        invariant forall k :: j <= k < msgCount ==> msgBuffer[k] == was[k]
      {
        OthersNext(was, j, pid);
        if msgBuffer[j].to != pid {
          msgBuffer[kept] := msgBuffer[j];
          kept := kept + 1;
        }
        j := j + 1;
      }
      assert was[..j] == was;
      msgCount := kept;
    }
  }

  lemma OthersNone(pid: int)
    ensures Others([], pid) == []
  {
  }

  lemma OthersNext(msgs: seq<Message>, j: nat, pid: int)
    requires j < |msgs|
    ensures Others(msgs[..j + 1], pid) == Others(msgs[..j], pid) + if msgs[j].to == pid then [] else [msgs[j]]
  {
    assert msgs[..j + 1][..j] == msgs[..j];
  }

  lemma SlotUnique(members: seq<Pid>, pid: int, i: nat)
    requires i < |members| && members[i] == pid && pid !in members[..i]
    ensures SlotOf(members, pid) == i
  {
    var k := SlotOf(members, pid);
    assert forall a :: 0 <= a < i ==> members[..i][a] == members[a];
    assert forall a :: 0 <= a < k ==> members[..k][a] == members[a];
  }

  lemma FirstUnique(msgs: seq<Message>, pid: int, i: nat)
    requires i <= |msgs| && (i < |msgs| ==> msgs[i].to == pid)
    requires forall k :: 0 <= k < i ==> msgs[k].to != pid
    ensures FirstFor(msgs, pid) == i
  {
  }

  lemma FreeCellUnique(table: seq<int>, i: nat, x: nat)
    requires 4 * i + 4 <= |table| && 4 * i <= x <= 4 * i + 4
    requires forall y :: 4 * i <= y < x ==> table[y] != FREE
    requires x < 4 * i + 4 ==> table[x] == FREE
    ensures FreeCell(table, i) == x
  {
  }

  lemma {:induction false} CopiesGrow(q: Queue, pid: Pid, msg: Message, m: nat, n: nat)
    requires Shape(q) && m <= n <= |q.members|
    ensures |Copies(q, pid, msg, m)| <= |Copies(q, pid, msg, n)|
  {
    if m == n {
    } else {
      CopiesGrow(q, pid, msg, m, n - 1);
    }
  }
}
