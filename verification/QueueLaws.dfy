/**
  What one call on a queue answers and changes, told from inboxes, blocks and members.
 */
module QueueLaws {
  import opened Common
  import opened QueueModel
  import opened QueueMail

  /** Whom member `p` blocks. */
  function BlockedBy(q: Queue, p: Pid): set<int>
    requires Shape(q) && p in q.members
  {
    BlocksOf(q.table, SlotOf(q.members, p))
  }

  lemma BoxesAre(q: Queue)
    requires Shape(q)
    ensures forall p: Pid :: p in View(q) <==> p in q.members
    ensures forall p :: p in q.members ==> View(q)[p] == Box(Inbox(q.msgs, p), BlockedBy(q, p))
  {
    hide Inbox, BlocksOf, SlotOf;
  }

  /** Receiving hands out the oldest message for the caller and takes it out of the inbox, or
      answers 0 for an empty one; other inboxes, members and blocks stay. */
  lemma ReceiveExact(q: Queue, pid: Pid)
    requires Good(q)
    ensures var r := DoReceive(q, pid);
            && r.queue.members == q.members && r.queue.table == q.table
            && (pid !in q.members ==> r == Reply(q, -EINVAL, []))
            && (pid in q.members && Inbox(q.msgs, pid) == [] ==> r == Reply(q, 0, []))
            && (pid in q.members && Inbox(q.msgs, pid) != [] ==>
                  && r.code == 1 && r.got == [Inbox(q.msgs, pid)[0]]
                  && Inbox(r.queue.msgs, pid) == Inbox(q.msgs, pid)[1..]
                  && forall p :: p in q.members && p != pid ==> Inbox(r.queue.msgs, p) == Inbox(q.msgs, p))
  {
    GoodShape(q);
    ReceiveRefines(q, pid);
    hide Good, Inbox, BlocksOf, SlotOf, FirstFor, View;
    BoxesAre(q);
    BoxesAre(DoReceive(q, pid).queue);
    if pid in q.members {
      var box, r := Inbox(q.msgs, pid), DoReceive(q, pid);
      if box == [] {
        assert r.code == 0;
      } else {
        assert r.got == box[..1] == [box[0]];
      }
    }
  }

  /** The caller blocks whom it named, unless either is a stranger or they are the same; other
      blocks, messages and members stay. */
  lemma BlockExact(q: Queue, pid: Pid, target: int)
    requires Good(q)
    ensures var r := DoBlock(q, pid, target);
            && Shape(r.queue) && r.queue.members == q.members && r.queue.msgs == q.msgs
            && r.code in {0, -EINVAL}
            && (r.code == 0 <==> pid in q.members && target in q.members && pid != target)
            && (r.code != 0 ==> r.queue == q)
            && (r.code == 0 ==> BlockedBy(r.queue, pid) == BlockedBy(q, pid) + {target})
            && forall p :: p in q.members && p != pid ==> BlockedBy(r.queue, p) == BlockedBy(q, p)
  {
    hide Good, Inbox, BlocksOf, SlotOf, FreeCell, View, RowHas;
    GoodShape(q);
    BlockGood(q, pid, target);
    BlockRefines(q, pid, target);
    BoxesAre(q);
    BoxesAre(DoBlock(q, pid, target).queue);
  }

  /** So what the blocked member sends to the blocker afterwards is refused. */
  lemma BlockRefuses(q: Queue, pid: Pid, target: Pid, msg: Message)
    requires Good(q) && pid in q.members && target in q.members && pid != target
    requires msg.from == target && msg.to == pid
    ensures var q' := DoBlock(q, pid, target).queue; Shape(q') && DoSend(q', target, msg) == Reply(q', -EINVAL, [])
  {
    var q' := DoBlock(q, pid, target).queue;
    GoodShape(q);
    BlockGood(q, pid, target);
    BlockExact(q, pid, target);
    RowIsBlocks(q', SlotOf(q'.members, pid), target);
  }

  /** The count is the number of messages waiting for the caller. */
  lemma CountExact(q: Queue, pid: Pid)
    requires Good(q)
    ensures DoCount(q, pid) == Reply(q, if pid in q.members then |Inbox(q.msgs, pid)| else -EINVAL, [])
  {
  }

  /** After a close the caller is no member and nobody blocks it; the others keep their inboxes
      and whom else they block. */
  lemma CloseExact(q: Queue, pid: Pid)
    requires Good(q)
    ensures var r := DoClose(q, pid);
            && Shape(r.queue) && r.code in {0, -EINVAL} && (r.code == -EINVAL <==> pid !in q.members)
            && (r.code == -EINVAL ==> r.queue == q)
            && (forall p: Pid :: p in r.queue.members <==> p in q.members && p != pid)
            && (forall p :: p in r.queue.members ==>
                  && Inbox(r.queue.msgs, p) == Inbox(q.msgs, p)
                  && BlockedBy(r.queue, p) == BlockedBy(q, p) - {pid})
  {
    hide Good, Inbox, BlocksOf, SlotOf, ClosedTable, Others, BlockedBy;
    GoodShape(q);
    CloseGood(q, pid);
    GoodShape(DoClose(q, pid).queue);
    if pid in q.members {
      ClosedMembers(q, pid);
      forall p | p in DoClose(q, pid).queue.members
        ensures p in q.members && Inbox(DoClose(q, pid).queue.msgs, p) == Inbox(q.msgs, p)
        ensures BlockedBy(DoClose(q, pid).queue, p) == BlockedBy(q, p) - {pid}
      {
        CloseBox(q, pid, p);
      }
    } else {
      StrangerBlocks(q, pid);
    }
  }

  lemma CloseBox(q: Queue, pid: Pid, p: Pid)
    requires Good(q) && pid in q.members && p in q.members && p != pid
    ensures var q' := DoClose(q, pid).queue;
            && Shape(q') && p in q'.members
            && Inbox(q'.msgs, p) == Inbox(q.msgs, p) && BlockedBy(q', p) == BlockedBy(q, p) - {pid}
  {
    hide Good, Inbox, BlocksOf, SlotOf, View, DoClose;
    GoodShape(q);
    CloseRefines(q, pid);
    var m, q' := View(q), DoClose(q, pid).queue;
    ViewKeys(q);
    ViewKeys(q');
    assert p in m && p in View(q');
    ViewAt(q, p);
    ViewAt(q', p);
  }

  /** The others keep their order. */
  lemma CloseOrder(q: Queue, pid: Pid, p: Pid, p': Pid)
    requires Good(q) && p in DoClose(q, pid).queue.members && p' in DoClose(q, pid).queue.members
    ensures p in q.members && p' in q.members
    ensures SlotOf(DoClose(q, pid).queue.members, p) < SlotOf(DoClose(q, pid).queue.members, p') <==>
            SlotOf(q.members, p) < SlotOf(q.members, p')
  {
    GoodShape(q);
    hide Good, SlotOf, ClosedTable, Others;
    if pid in q.members {
      SlotAfterClose(q, pid, p);
      SlotAfterClose(q, pid, p');
    }
  }

  lemma SlotAfterClose(q: Queue, pid: Pid, p: Pid)
    requires Shape(q) && Distinct(q.members) && pid in q.members && p in DoClose(q, pid).queue.members
    ensures p in q.members && p != pid
    ensures var i, j := SlotOf(q.members, pid), SlotOf(q.members, p);
            SlotOf(DoClose(q, pid).queue.members, p) == (if j < i then j else j - 1) && i != j
  {
    ClosedMembers(q, pid);
    hide SlotOf, ClosedTable, Others;
    var q', i, j := DoClose(q, pid).queue, SlotOf(q.members, pid), SlotOf(q.members, p);
    SlotIs(q'.members, if j < i then j else j - 1);
  }

  /** Nobody blocks a stranger. */
  lemma StrangerBlocks(q: Queue, pid: Pid)
    requires Good(q) && pid !in q.members
    ensures forall p :: p in q.members ==> pid !in BlockedBy(q, p)
  {
    hide SlotOf, MessagesGood;
  }

  /** A child is the last member; everybody else's inbox and blocks stay. */
  lemma JoinExact(q: Queue, pid: Pid)
    requires Good(q) && Enabled(q, Join(pid))
    ensures var r := DoJoin(q, pid);
            && Shape(r.queue) && r.queue.members == q.members + [pid] && r.queue.msgs == q.msgs
            && Inbox(r.queue.msgs, pid) == [] && BlockedBy(r.queue, pid) == {}
            && forall p :: p in q.members ==> BlockedBy(r.queue, p) == BlockedBy(q, p)
  {
    GoodShape(q);
    JoinRefines(q, pid);
    hide Good, Inbox, BlocksOf, SlotOf, View;
    BoxesAre(q);
    BoxesAre(DoJoin(q, pid).queue);
  }

  /** The members a broadcast of `pid` is for. */
  predicate Hears(q: Queue, pid: Pid, p: Pid)
    requires Shape(q)
  {
    p in q.members && p != pid && pid !in BlockedBy(q, p)
  }

  /** A broadcast puts the message, addressed to each, behind the inbox of every member that
      hears it, and answers how many there are; other inboxes stay. */
  lemma BroadcastPuts(q: Queue, pid: Pid, msg: Message)
    requires Good(q) && Enabled(q, Send(pid, msg))
    requires pid in q.members && msg.from == pid && msg.to == BROADCAST_PID
    ensures var r := DoSend(q, pid, msg);
            && r.queue.members == q.members && r.queue.table == q.table
            && r.code == |set p: Pid | p in q.members && Hears(q, pid, p)|
            && forall p :: p in q.members ==>
                 Inbox(r.queue.msgs, p) == Inbox(q.msgs, p) + if Hears(q, pid, p) then [msg.(to := p)] else []
  {
    hide Good, Inbox, BlocksOf, SlotOf, View, Copies;
    GoodShape(q);
    BroadcastRefines(q, pid, msg);
    ViewKeys(q);
    forall p | p in q.members
      ensures Inbox(DoSend(q, pid, msg).queue.msgs, p) ==
              Inbox(q.msgs, p) + if Hears(q, pid, p) then [msg.(to := p)] else []
      ensures Hears(q, pid, p) <==> p in Eligible(View(q), pid)
    {
      BroadcastBoxed(q, pid, msg, p);
      ViewAt(q, p);
    }
    hide Hears, Eligible;
    assert (set p: Pid | p in q.members && Hears(q, pid, p)) == Eligible(View(q), pid) by {
      EligibleMembers(q, pid);
    }
  }

  lemma EligibleMembers(q: Queue, pid: Pid)
    requires Shape(q)
    ensures forall p: Pid :: p in Eligible(View(q), pid) ==> p in q.members
  {
  }

  lemma BroadcastBoxed(q: Queue, pid: Pid, msg: Message, p: Pid)
    requires Good(q) && Enabled(q, Send(pid, msg)) && p in q.members
    requires pid in q.members && msg.from == pid && msg.to == BROADCAST_PID
    ensures Inbox(DoSend(q, pid, msg).queue.msgs, p) ==
            Inbox(q.msgs, p) + if Hears(q, pid, p) then [msg.(to := p)] else []
  {
    hide Good, Inbox, BlocksOf, SlotOf, Copies;
    GoodShape(q);
    BroadcastBox(q, pid, msg, p);
  }

  /** A unicast that is stored goes behind the recipient's inbox and into no other, and one
      that is not changes nothing. */
  lemma UnicastPuts(q: Queue, pid: Pid, msg: Message)
    requires Good(q) && Enabled(q, Send(pid, msg))
    requires pid in q.members && msg.from == pid && msg.to != BROADCAST_PID
    ensures var r := DoSend(q, pid, msg);
            && r.code in {1, -EINVAL}
            && r.queue.members == q.members && r.queue.table == q.table
            && (r.code != 1 ==> r.queue == q)
            && (r.code == 1 ==>
                  forall p :: p in q.members ==>
                    Inbox(r.queue.msgs, p) == Inbox(q.msgs, p) + if p == msg.to then [msg] else [])
  {
    GoodShape(q);
    UnicastRefines(q, pid, msg);
    hide Good, Inbox, BlocksOf, SlotOf, View, RowHas;
    BoxesAre(q);
    BoxesAre(DoSend(q, pid, msg).queue);
  }

  /** A send by a stranger, under a false name or to oneself changes nothing. */
  lemma SendRefused(q: Queue, pid: Pid, msg: Message)
    requires Good(q) && (pid !in q.members || msg.from != pid || msg.to == pid)
    ensures DoSend(q, pid, msg) == Reply(q, -EINVAL, [])
  {
  }
}
