/**
  The reference design of a message queue: every member owns a mailbox with its own
  inbox and its own set of blocked senders, and no two members share storage.

  The shared buffer, the member array and the block table refine it, operation by
  operation and over every run.
 */
module QueueMail {
  import opened Common
  import opened QueueModel

  datatype Box = Box(inbox: seq<Message>, blocks: set<int>)

  type Mail = map<Pid, Box>

  datatype MailReply = MailReply(mail: Mail, code: int, got: seq<Message>)

  /** Members a broadcast from `from` must reach. */
  function Eligible(m: Mail, from: Pid): set<Pid> {
    set p: Pid | p in m && p != from && from !in m[p].blocks
  }

  function Deliver(b: Box, msg: Message): Box {
    b.(inbox := b.inbox + [msg])
  }

  /** The reference machine.  `refused` lets a unicast be turned down for a reason that
      mailboxes do not show. */
  function MailPerform(m: Mail, op: Op, refused: bool): MailReply {
    match op
    case Send(pid, msg) =>
      if pid !in m || msg.from != pid || msg.to == pid then MailReply(m, -EINVAL, [])
      else if msg.to == BROADCAST_PID then
        MailReply(map p | p in m :: if p in Eligible(m, pid) then Deliver(m[p], msg.(to := p)) else m[p],
                  |Eligible(m, pid)|, [])
      else if msg.to !in m || pid in m[msg.to].blocks || refused then MailReply(m, -EINVAL, [])
      else MailReply(m[msg.to := Deliver(m[msg.to], msg)], 1, [])
    case Receive(pid) =>
      if pid !in m then MailReply(m, -EINVAL, [])
      else if m[pid].inbox == [] then MailReply(m, 0, [])
      else MailReply(m[pid := m[pid].(inbox := m[pid].inbox[1..])], 1, m[pid].inbox[..1])
    case Block(pid, target) =>
      if pid !in m || target !in m || pid == target then MailReply(m, -EINVAL, [])
      else MailReply(m[pid := m[pid].(blocks := m[pid].blocks + {target})], 0, [])
    case Count(pid) =>
      MailReply(m, if pid in m then |m[pid].inbox| else -EINVAL, [])
    case Close(pid) =>
      if pid !in m then MailReply(m, -EINVAL, [])
      else MailReply(map p | p in m && p != pid :: m[p].(blocks := m[p].blocks - {pid}), 0, [])
    case Join(pid) =>
      MailReply(m[pid := Box([], {})], 0, [])
  }

  // ---- The mailboxes a stored queue stands for ----

  function BlocksOf(table: seq<int>, i: nat): set<int>
    requires 4 * i + 4 <= |table|
  {
    set x | 4 * i <= x < 4 * i + 4 && table[x] != FREE :: table[x]
  }

  function BoxAt(q: Queue, p: Pid): Box
    requires Shape(q) && p in q.members
  {
    Box(Inbox(q.msgs, p), BlocksOf(q.table, SlotOf(q.members, p)))
  }

  function View(q: Queue): Mail
    requires Shape(q)
  {
    map p | p in q.members :: BoxAt(q, p)
  }

  /** The recipient's row does not hold the sender, but the three cells the wide scan
      reads behind that row do. */
  predicate Spills(q: Queue, op: Op)
    requires Shape(q)
  {
    && op.Send? && op.msg.to in q.members
    && var i := SlotOf(q.members, op.msg.to);
    && !RowHas(q.table, i, MAX_MEMBERS, op.pid)
    && RowHas(q.table, i, MAX_PROCESSES, op.pid)
  }

  // ---- Inboxes as sequences ----

  lemma {:induction false} InboxConcat(a: seq<Message>, b: seq<Message>, p: int)
    ensures Inbox(a + b, p) == Inbox(a, p) + Inbox(b, p)
  {
    if b == [] {
      assert a + b == a;
    } else {
      var n := |b| - 1;
      assert (a + b)[..|a + b| - 1] == a + b[..n];
      InboxConcat(a, b[..n], p);
    }
  }

  lemma {:induction false} InboxNone(a: seq<Message>, p: int)
    requires forall m :: m in a ==> m.to != p
    ensures Inbox(a, p) == []
  {
    if a == [] {
    } else {
      InboxNone(a[..|a| - 1], p);
    }
  }

  lemma InboxOne(m: Message, p: int)
    ensures Inbox([m], p) == if m.to == p then [m] else []
  {
    assert [m][..0] == [];
  }

  lemma InboxAround(a: seq<Message>, m: Message, b: seq<Message>, p: int)
    ensures Inbox(a + [m] + b, p) == Inbox(a, p) + Inbox([m], p) + Inbox(b, p)
  {
    InboxConcat(a + [m], b, p);
    InboxConcat(a, [m], p);
  }

  /** Taking the oldest message of `pid` out of the shared buffer pops its inbox... */
  lemma {:induction false} InboxAfterTake(msgs: seq<Message>, pid: int)
    requires FirstFor(msgs, pid) < |msgs|
    ensures var i := FirstFor(msgs, pid);
            Inbox(msgs, pid) == [msgs[i]] + Inbox(msgs[..i] + msgs[i + 1..], pid)
  {
    var i := FirstFor(msgs, pid);
    var a, m, b := msgs[..i], msgs[i], msgs[i + 1..];
    assert msgs == a + [m] + b;
    InboxNone(a, pid);
    InboxOne(m, pid);
    InboxAround(a, m, b, pid);
    InboxConcat(a, b, pid);
  }

  /** ...and leaves every other inbox alone. */
  lemma {:induction false} OtherInboxAfterTake(msgs: seq<Message>, i: nat, p: int)
    requires i < |msgs| && msgs[i].to != p
    ensures Inbox(msgs[..i] + msgs[i + 1..], p) == Inbox(msgs, p)
  {
    var a, m, b := msgs[..i], msgs[i], msgs[i + 1..];
    assert msgs == a + [m] + b;
    InboxOne(m, p);
    InboxAround(a, m, b, p);
    InboxConcat(a, b, p);
  }

  lemma {:induction false} InboxOfOthers(msgs: seq<Message>, pid: int, p: int)
    ensures Inbox(Others(msgs, pid), p) == if p == pid then [] else Inbox(msgs, p)
  {
    if msgs == [] {
    } else {
      var n := |msgs| - 1;
      InboxOfOthers(msgs[..n], pid, p);
      InboxConcat(Others(msgs[..n], pid), [msgs[n]], p);
      InboxOne(msgs[n], p);
    }
  }

  lemma ViewIs(q: Queue, m: Mail)
    requires Shape(q)
    requires forall p: Pid :: p in q.members <==> p in m
    requires forall p :: p in q.members ==> BoxAt(q, p) == m[p]
    ensures View(q) == m
  {
  }

  lemma SlotIs(members: seq<Pid>, i: nat)
    requires Distinct(members) && i < |members|
    ensures SlotOf(members, members[i]) == i
  {
  }

  // ---- One operation ----

  lemma RowIsBlocks(q: Queue, i: nat, s: Pid)
    requires Shape(q) && i < |q.members|
    ensures RowHas(q.table, i, MAX_MEMBERS, s) <==> s in BlocksOf(q.table, i)
  {
  }

  /** What a broadcast stores, seen from one inbox. */
  lemma CopiesFirst(q: Queue, pid: Pid, msg: Message, n: nat)
    requires Shape(q) && n <= |q.members|
    ensures n == 0 ==> Copies(q, pid, msg, n) == []
    ensures n > 0 ==>
              var skipped := q.members[n - 1] == pid || RowHas(q.table, n - 1, MAX_MEMBERS, pid);
              Copies(q, pid, msg, n) ==
              Copies(q, pid, msg, n - 1) + if skipped then [] else [msg.(to := q.members[n - 1])]
  {
  }

  lemma {:induction false} CopiesInbox(q: Queue, pid: Pid, msg: Message, n: nat, j: nat)
    requires Shape(q) && Distinct(q.members) && n <= |q.members| && j < |q.members|
    ensures Inbox(Copies(q, pid, msg, n), q.members[j]) ==
            if j < n && q.members[j] != pid && !RowHas(q.table, j, MAX_MEMBERS, pid)
            then [msg.(to := q.members[j])] else []
  {
    hide Copies, Inbox, RowHas;
    CopiesFirst(q, pid, msg, n);
    if n == 0 {
      InboxNone([], q.members[j]);
    } else {
      CopiesInbox(q, pid, msg, n - 1, j);
      var c, m := Copies(q, pid, msg, n - 1), msg.(to := q.members[n - 1]);
      assert c + [] == c;
      InboxConcat(c, [m], q.members[j]);
      InboxOne(m, q.members[j]);
    }
  }

  /** Which of the first `n` members a broadcast reaches. */
  function Reached(q: Queue, pid: Pid, n: nat): set<Pid>
    requires Shape(q) && n <= |q.members|
  {
    set j | 0 <= j < n && q.members[j] != pid && !RowHas(q.table, j, MAX_MEMBERS, pid) :: q.members[j]
  }

  lemma {:induction false} CopiesCount(q: Queue, pid: Pid, msg: Message, n: nat)
    requires Shape(q) && Distinct(q.members) && n <= |q.members|
    ensures |Copies(q, pid, msg, n)| == |Reached(q, pid, n)|
  {
    hide Copies, RowHas;
    CopiesFirst(q, pid, msg, n);
    if n == 0 {
    } else {
      CopiesCount(q, pid, msg, n - 1);
      var last := q.members[n - 1];
      assert last !in Reached(q, pid, n - 1);
      if last != pid && !RowHas(q.table, n - 1, MAX_MEMBERS, pid) {
        assert Reached(q, pid, n) == Reached(q, pid, n - 1) + {last};
      } else {
        assert Reached(q, pid, n) == Reached(q, pid, n - 1);
      }
    }
  }

  /** The number of stored copies counts exactly the eligible members. */
  lemma ReachedIsEligible(q: Queue, pid: Pid)
    requires Shape(q) && Distinct(q.members)
    ensures Reached(q, pid, |q.members|) == Eligible(View(q), pid)
  {
    forall p: Pid ensures p in Reached(q, pid, |q.members|) <==> p in Eligible(View(q), pid) {
      if p in q.members {
        RowIsBlocks(q, SlotOf(q.members, p), pid);
      }
      if p in Reached(q, pid, |q.members|) {
        var j :| 0 <= j < |q.members| && q.members[j] == p && !RowHas(q.table, j, MAX_MEMBERS, pid);
        SlotIs(q.members, j);
      }
    }
  }

  lemma ViewKeys(q: Queue)
    requires Shape(q)
    ensures forall p: Pid :: p in View(q) <==> p in q.members
  {
  }

  lemma ViewAt(q: Queue, p: Pid)
    requires Shape(q) && p in q.members
    ensures p in View(q) && View(q)[p] == BoxAt(q, p)
  {
  }

  lemma BroadcastBox(q: Queue, pid: Pid, msg: Message, p: Pid)
    requires Good(q) && p in q.members
    requires |q.msgs + Copies(q, pid, msg, |q.members|)| <= BUFFER_SLOTS
    ensures var q' := q.(msgs := q.msgs + Copies(q, pid, msg, |q.members|));
            BoxAt(q', p) ==
            if p != pid && pid !in BoxAt(q, p).blocks then Deliver(BoxAt(q, p), msg.(to := p)) else BoxAt(q, p)
  {
    var j := SlotOf(q.members, p);
    CopiesInbox(q, pid, msg, |q.members|, j);
    InboxConcat(q.msgs, Copies(q, pid, msg, |q.members|), p);
    RowIsBlocks(q, j, pid);
  }

  lemma BroadcastRefines(q: Queue, pid: Pid, msg: Message)
    requires Good(q) && Enabled(q, Send(pid, msg))
    requires pid in q.members && msg.from == pid && msg.to == BROADCAST_PID
    ensures var r, a := DoSend(q, pid, msg), MailPerform(View(q), Send(pid, msg), false);
            View(r.queue) == a.mail && r.code == a.code
  {
    hide Copies, Inbox, BlocksOf, SlotOf, RowHas, Reached, View, RowsGood, MessagesGood;
    ViewKeys(q);
    var r, a := DoSend(q, pid, msg), MailPerform(View(q), Send(pid, msg), false);
    forall p | p in q.members ensures BoxAt(r.queue, p) == a.mail[p] {
      ViewAt(q, p);
      BroadcastBox(q, pid, msg, p);
    }
    ViewIs(r.queue, a.mail);
    CopiesCount(q, pid, msg, |q.members|);
    ReachedIsEligible(q, pid);
  }

  lemma UnicastRefines(q: Queue, pid: Pid, msg: Message)
    requires Shape(q) && Enabled(q, Send(pid, msg))
    requires pid in q.members && msg.from == pid && msg.to != BROADCAST_PID
    ensures var r, a := DoSend(q, pid, msg), MailPerform(View(q), Send(pid, msg), Spills(q, Send(pid, msg)));
            View(r.queue) == a.mail && r.code == a.code
  {
    hide Inbox;
    if msg.to in q.members && msg.to != pid {
      var i := SlotOf(q.members, msg.to);
      RowIsBlocks(q, i, pid);
      assert View(q)[msg.to] == BoxAt(q, msg.to);
      if DoSend(q, pid, msg).code == 1 {
        UnicastStored(q, msg);
      }
    }
  }

  lemma UnicastStored(q: Queue, msg: Message)
    requires Shape(q) && |q.msgs| < BUFFER_SLOTS && msg.to in q.members
    ensures View(q.(msgs := q.msgs + [msg])) == View(q)[msg.to := Deliver(View(q)[msg.to], msg)]
  {
    hide Inbox, BlocksOf;
    var q' := q.(msgs := q.msgs + [msg]);
    forall p | p in q.members ensures BoxAt(q', p) == if p == msg.to then Deliver(BoxAt(q, p), msg) else BoxAt(q, p) {
      InboxConcat(q.msgs, [msg], p);
      InboxOne(msg, p);
    }
    ViewIs(q', View(q)[msg.to := Deliver(View(q)[msg.to], msg)]);
  }

  lemma GoodShape(q: Queue)
    requires Good(q)
    ensures Shape(q) && Distinct(q.members)
  {
  }

  lemma ReceiveRefines(q: Queue, pid: Pid)
    requires Good(q)
    ensures var r, a := DoReceive(q, pid), MailPerform(View(q), Receive(pid), false);
            View(r.queue) == a.mail && r.code == a.code && r.got == a.got
  {
    hide Good, BlocksOf, Inbox, FirstFor, SlotOf, View;
    GoodShape(q);
    ViewKeys(q);
    if pid in q.members {
      ViewAt(q, pid);
      var i := FirstFor(q.msgs, pid);
      if i < |q.msgs| {
        var q' := DoReceive(q, pid).queue;
        var m := View(q)[pid := View(q)[pid].(inbox := Inbox(q'.msgs, pid))];
        InboxAfterTake(q.msgs, pid);
        forall p | p in q.members ensures BoxAt(q', p) == m[p] {
          ViewAt(q, p);
          if p != pid {
            OtherInboxAfterTake(q.msgs, i, p);
          }
        }
        ViewIs(q', m);
      } else {
        InboxNone(q.msgs, pid);
      }
    }
  }

  lemma BlockRefines(q: Queue, pid: Pid, target: int)
    requires Good(q)
    ensures var r, a := DoBlock(q, pid, target), MailPerform(View(q), Block(pid, target), false);
            Shape(r.queue) && View(r.queue) == a.mail && r.code == a.code
  {
    hide Good, Shape, Inbox, RowHas, BlocksOf, DoBlock, View, FreeCell, SlotOf;
    BlockGood(q, pid, target);
    BlockCases(q, pid, target);
    GoodShape(q);
    GoodShape(DoBlock(q, pid, target).queue);
    ViewKeys(q);
    if pid in q.members && target in q.members && pid != target {
      var m, i := View(q), SlotOf(q.members, pid);
      if RowHas(q.table, i, MAX_MEMBERS, target) {
        BlockAgain(q, pid, target);
        assert m[pid := m[pid].(blocks := m[pid].blocks + {target})] == m;
      } else {
        BlockStored(q, pid, target);
      }
    }
  }

  lemma BlockAgain(q: Queue, pid: Pid, target: Pid)
    requires Shape(q) && pid in q.members && RowHas(q.table, SlotOf(q.members, pid), MAX_MEMBERS, target)
    ensures View(q)[pid].blocks + {target} == View(q)[pid].blocks
  {
    RowIsBlocks(q, SlotOf(q.members, pid), target);
  }

  lemma BlockCases(q: Queue, pid: Pid, target: int)
    requires Good(q)
    ensures pid !in q.members || target !in q.members || pid == target ==>
              DoBlock(q, pid, target) == Reply(q, -EINVAL, [])
    ensures pid in q.members && target in q.members && pid != target ==>
              var i := SlotOf(q.members, pid);
              if RowHas(q.table, i, MAX_MEMBERS, target) then DoBlock(q, pid, target) == Reply(q, 0, [])
              else FreeCell(q.table, i) < 4 * i + 4 &&
                   DoBlock(q, pid, target) == Reply(q.(table := q.table[FreeCell(q.table, i) := target]), 0, [])
  {
    if pid in q.members && target in q.members && pid != target {
      var i := SlotOf(q.members, pid);
      if !RowHas(q.table, i, MAX_MEMBERS, target) {
        RowHasRoom(q, i, target);
      }
    }
  }

  lemma BlockStored(q: Queue, pid: Pid, target: Pid)
    requires Shape(q) && pid in q.members && FreeCell(q.table, SlotOf(q.members, pid)) < 4 * SlotOf(q.members, pid) + 4
    ensures var i := SlotOf(q.members, pid);
            View(q.(table := q.table[FreeCell(q.table, i) := target])) ==
            View(q)[pid := View(q)[pid].(blocks := View(q)[pid].blocks + {target})]
  {
    hide Inbox, BlocksOf, FreeCell;
    var i := SlotOf(q.members, pid);
    var q' := q.(table := q.table[FreeCell(q.table, i) := target]);
    forall p | p in q.members
      ensures BoxAt(q', p) == if p == pid then BoxAt(q, p).(blocks := BoxAt(q, p).blocks + {target}) else BoxAt(q, p)
    {
      RowAfterBlock(q.table, i, target, SlotOf(q.members, p));
    }
    ViewIs(q', View(q)[pid := View(q)[pid].(blocks := View(q)[pid].blocks + {target})]);
  }

  lemma RowAfterBlock(table: seq<int>, i: nat, target: int, j: nat)
    requires |table| == MEMORY_CELLS && i < 4 && j < 4 && target != FREE
    requires FreeCell(table, i) < 4 * i + 4
    ensures BlocksOf(table[FreeCell(table, i) := target], j) ==
            if i == j then BlocksOf(table, j) + {target} else BlocksOf(table, j)
  {
    var x := FreeCell(table, i);
    var t := table[x := target];
    assert t[x] == target;
    forall v | v in BlocksOf(table, j) ensures v in BlocksOf(t, j) {
      var y :| 4 * j <= y < 4 * j + 4 && table[y] != FREE && table[y] == v;
      assert t[y] == v;
    }
  }

  lemma JoinRefines(q: Queue, pid: Pid)
    requires Good(q) && Enabled(q, Join(pid))
    ensures View(DoJoin(q, pid).queue) == MailPerform(View(q), Join(pid), false).mail
  {
    FreeRow(q);
    assert Shape(q) && Distinct(q.members) && forall x :: x in q.msgs ==> x.to in q.members;
    hide Good, Inbox, BlocksOf;
    var q', m := DoJoin(q, pid).queue, MailPerform(View(q), Join(pid), false).mail;
    InboxNone(q.msgs, pid);
    forall p | p in q'.members ensures BoxAt(q', p) == m[p] {
      SlotIs(q'.members, if p == pid then |q.members| else SlotOf(q.members, p));
    }
    ViewIs(q', m);
  }

  /** The row a new member gets is empty. */
  lemma FreeRow(q: Queue)
    requires Good(q) && |q.members| < MAX_MEMBERS
    ensures BlocksOf(q.table, |q.members|) == {}
  {
  }

  /** The row of a member who stays, wherever it moved to. */
  lemma RowCells(q: Queue, pid: Pid, j: nat, j': nat, x: nat)
    requires Good(q) && pid in q.members && j < |q.members|
    requires j' == (if j < SlotOf(q.members, pid) then j else j - 1) && j != SlotOf(q.members, pid)
    requires x < 4
    ensures DoClose(q, pid).queue.table[4 * j' + x] ==
            if q.table[4 * j + x] == pid then FREE else q.table[4 * j + x]
  {
    ClosedFrom(q, pid, 4 * j' + x);
  }

  lemma RowsErased(t: seq<int>, t': seq<int>, j: nat, j': nat, pid: Pid)
    requires 4 * j + 4 <= |t| && 4 * j' + 4 <= |t'|
    requires forall x :: 4 * j <= x < 4 * j + 4 ==>
               t'[x + 4 * (j' - j)] == if t[x] == pid then FREE else t[x]
    ensures BlocksOf(t', j') == BlocksOf(t, j) - {pid}
  {
    var d := 4 * (j' - j);
    forall v | v in BlocksOf(t', j') ensures v in BlocksOf(t, j) - {pid} {
      var x :| 4 * j' <= x < 4 * j' + 4 && t'[x] != FREE && t'[x] == v;
      assert t'[(x - d) + d] == v && t[x - d] == v;
    }
    forall v | v in BlocksOf(t, j) - {pid} ensures v in BlocksOf(t', j') {
      var x :| 4 * j <= x < 4 * j + 4 && t[x] != FREE && t[x] == v;
      assert t'[x + d] == v;
    }
  }

  lemma RowAfterClose(q: Queue, pid: Pid, p: Pid)
    requires Good(q) && pid in q.members && p in q.members && p != pid
    ensures p in DoClose(q, pid).queue.members
    ensures var q' := DoClose(q, pid).queue;
            BlocksOf(q'.table, SlotOf(q'.members, p)) == BlocksOf(q.table, SlotOf(q.members, p)) - {pid}
  {
    hide Good, Inbox, Others, BlocksOf, ClosedTable;
    GoodShape(q);
    var q', i, j := DoClose(q, pid).queue, SlotOf(q.members, pid), SlotOf(q.members, p);
    var j' := if j < i then j else j - 1;
    ClosedMembers(q, pid);
    assert q'.members[j'] == p;
    SlotIs(q'.members, j');
    forall x | 4 * j <= x < 4 * j + 4
      ensures q'.table[x + 4 * (j' - j)] == if q.table[x] == pid then FREE else q.table[x]
    {
      RowCells(q, pid, j, j', x - 4 * j);
    }
    RowsErased(q.table, q'.table, j, j', pid);
  }

  /** A close takes one mailbox away and the leaver out of every block set; the other
      inboxes and the blocking between those who stay are what they were. */
  lemma CloseRefines(q: Queue, pid: Pid)
    requires Good(q)
    ensures var r, a := DoClose(q, pid), MailPerform(View(q), Close(pid), false);
            Shape(r.queue) && View(r.queue) == a.mail && r.code == a.code
  {
    hide Good, Inbox, Others, BlocksOf, ClosedTable, SlotOf;
    CloseGood(q, pid);
    GoodShape(q);
    GoodShape(DoClose(q, pid).queue);
    if pid in q.members {
      var r, a := DoClose(q, pid), MailPerform(View(q), Close(pid), false);
      ClosedMembers(q, pid);
      forall p | p in r.queue.members ensures BoxAt(r.queue, p) == a.mail[p] {
        RowAfterClose(q, pid, p);
        InboxOfOthers(q.msgs, pid, p);
      }
      ViewIs(r.queue, a.mail);
    }
  }

  /** Every operation on the shared buffer answers and acts as the mailboxes do. */
  lemma PerformRefines(q: Queue, op: Op)
    requires Good(q) && Enabled(q, op)
    ensures Good(Perform(q, op).queue)
    ensures var r, a := Perform(q, op), MailPerform(View(q), op, Spills(q, op));
            View(r.queue) == a.mail && r.code == a.code && r.got == a.got
  {
    assert Shape(q);
    PerformGood(q, op);
    assert Shape(Perform(q, op).queue);
    hide Good, Shape, View, DoSend, DoReceive, DoBlock, DoClose, DoJoin, RowHas, Eligible;
    match op
    case Send(pid, msg) => SendRefines(q, pid, msg);
    case Receive(pid) => ReceiveRefines(q, pid);
    case Block(pid, target) => BlockRefines(q, pid, target);
    case Count(pid) => CountRefines(q, pid);
    case Close(pid) => CloseRefines(q, pid);
    case Join(pid) => JoinRefines(q, pid);
  }

  lemma CountRefines(q: Queue, pid: Pid)
    requires Shape(q)
    ensures MailPerform(View(q), Count(pid), false) == MailReply(View(q), DoCount(q, pid).code, [])
  {
  }

  lemma SendRefines(q: Queue, pid: Pid, msg: Message)
    requires Good(q) && Enabled(q, Send(pid, msg))
    ensures var r, a := DoSend(q, pid, msg), MailPerform(View(q), Send(pid, msg), Spills(q, Send(pid, msg)));
            Shape(r.queue) && View(r.queue) == a.mail && r.code == a.code && r.got == a.got == []
  {
    if pid in q.members && msg.from == pid {
      if msg.to == BROADCAST_PID { BroadcastRefines(q, pid, msg); } else { UnicastRefines(q, pid, msg); }
    }
  }
}
