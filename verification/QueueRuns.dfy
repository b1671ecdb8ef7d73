/**
  Statements about one message queue over whole runs, and the exact meaning of the
  two kinds of send.
 */
module QueueRuns {
  import opened Common
  import opened QueueModel
  import opened QueueMail

  datatype Answer = Answer(code: int, got: seq<Message>)

  /** Every operation of the run meets what the code takes for granted. */
  predicate Possible(q: Queue, ops: seq<Op>)
    requires Good(q)
    decreases |ops|
  {
    ops == [] || (Enabled(q, ops[0]) && (PerformGood(q, ops[0]); Possible(Perform(q, ops[0]).queue, ops[1..])))
  }

  function Run(q: Queue, ops: seq<Op>): (r: Queue)
    requires Good(q) && Possible(q, ops)
    ensures Good(r)
    decreases |ops|
  {
    if ops == [] then q
    else PerformGood(q, ops[0]); Run(Perform(q, ops[0]).queue, ops[1..])
  }

  function Answers(q: Queue, ops: seq<Op>): seq<Answer>
    requires Good(q) && Possible(q, ops)
    decreases |ops|
  {
    if ops == [] then []
    else
      PerformGood(q, ops[0]);
      var r := Perform(q, ops[0]);
      [Answer(r.code, r.got)] + Answers(r.queue, ops[1..])
  }

  /** Which operations of the run meet a spilled-over block entry. */
  function Refusals(q: Queue, ops: seq<Op>): (r: seq<bool>)
    requires Good(q) && Possible(q, ops)
    ensures |r| == |ops|
    decreases |ops|
  {
    if ops == [] then []
    else PerformGood(q, ops[0]); [Spills(q, ops[0])] + Refusals(Perform(q, ops[0]).queue, ops[1..])
  }

  function MailRun(m: Mail, ops: seq<Op>, refused: seq<bool>): (Mail, seq<Answer>)
    requires |refused| == |ops|
    decreases |ops|
  {
    if ops == [] then (m, [])
    else
      var r := MailPerform(m, ops[0], refused[0]);
      var (m', rest) := MailRun(r.mail, ops[1..], refused[1..]);
      (m', [Answer(r.code, r.got)] + rest)
  }

  /** Over every run, the shared buffer gives the answers of the separate mailboxes and
      ends where they end. */
  lemma {:induction false} RunRefines(q: Queue, ops: seq<Op>)
    requires Good(q) && Possible(q, ops)
    ensures MailRun(View(q), ops, Refusals(q, ops)) == (View(Run(q, ops)), Answers(q, ops))
    decreases |ops|
  {
    if ops == [] {
    } else {
      PerformRefines(q, ops[0]);
      var next := Perform(q, ops[0]).queue;
      RunRefines(next, ops[1..]);
      assert Refusals(q, ops)[1..] == Refusals(next, ops[1..]);
    }
  }

  // ---- First in, first out ----

  /** What an answered operation put into the inbox of `p`, told from the mailboxes. */
  function Stored(m: Mail, op: Op, code: int, p: Pid): seq<Message> {
    if !op.Send? || code <= 0 then []
    else if op.msg.to == p then [op.msg]
    else if op.msg.to == BROADCAST_PID && p in Eligible(m, op.pid) then [op.msg.(to := p)]
    else []
  }

  function Taken(op: Op, got: seq<Message>, p: Pid): seq<Message> {
    if op == Receive(p) then got else []
  }

  function Delivered(q: Queue, ops: seq<Op>, p: Pid): seq<Message>
    requires Good(q) && Possible(q, ops)
    decreases |ops|
  {
    if ops == [] then []
    else
      PerformGood(q, ops[0]);
      var r := Perform(q, ops[0]);
      Stored(View(q), ops[0], r.code, p) + Delivered(r.queue, ops[1..], p)
  }

  function Received(q: Queue, ops: seq<Op>, p: Pid): seq<Message>
    requires Good(q) && Possible(q, ops)
    decreases |ops|
  {
    if ops == [] then []
    else
      PerformGood(q, ops[0]);
      var r := Perform(q, ops[0]);
      Taken(ops[0], r.got, p) + Received(r.queue, ops[1..], p)
  }

  lemma MailFifo(m: Mail, op: Op, refused: bool, p: Pid)
    requires p in m && op != Close(p) && op != Join(p)
    ensures var r := MailPerform(m, op, refused);
            && p in r.mail
            && m[p].inbox + Stored(m, op, r.code, p) == Taken(op, r.got, p) + r.mail[p].inbox
  {
    if op.Send? && p in Eligible(m, op.pid) {
      assert Eligible(m, op.pid) == {p} + (Eligible(m, op.pid) - {p});
    }
  }

  lemma FifoStep(q: Queue, op: Op, p: Pid)
    requires Good(q) && Enabled(q, op) && p in q.members && op != Close(p)
    ensures var r := Perform(q, op);
            && Good(r.queue) && p in r.queue.members
            && Inbox(q.msgs, p) + Stored(View(q), op, r.code, p) == Taken(op, r.got, p) + Inbox(r.queue.msgs, p)
  {
    PerformRefines(q, op);
    MailFifo(View(q), op, Spills(q, op), p);
    assert View(q)[p] == BoxAt(q, p);
    assert p in View(Perform(q, op).queue) && View(Perform(q, op).queue)[p] == BoxAt(Perform(q, op).queue, p);
  }

  lemma Chain(box: seq<Message>, put: seq<Message>, took: seq<Message>, box1: seq<Message>,
              puts: seq<Message>, takes: seq<Message>, box2: seq<Message>)
    requires box + put == took + box1 && box1 + puts == takes + box2
    ensures box + (put + puts) == (took + takes) + box2
  {
    assert box + (put + puts) == (box + put) + puts;
    assert took + (box1 + puts) == (took + box1) + puts;
    assert took + (takes + box2) == (took + takes) + box2;
  }

  /** While `p` stays a member, it receives exactly what was delivered to it, in that
      order, and what is still missing waits in its inbox. */
  lemma {:induction false} Fifo(q: Queue, ops: seq<Op>, p: Pid)
    requires Good(q) && Possible(q, ops) && p in q.members && Close(p) !in ops
    ensures p in Run(q, ops).members
    ensures Inbox(q.msgs, p) + Delivered(q, ops, p) == Received(q, ops, p) + Inbox(Run(q, ops).msgs, p)
    decreases |ops|
  {
    if ops == [] {
    } else {
      FifoStep(q, ops[0], p);
      var r := Perform(q, ops[0]);
      var rest := ops[1..];
      Fifo(r.queue, rest, p);
      Chain(Inbox(q.msgs, p), Stored(View(q), ops[0], r.code, p), Taken(ops[0], r.got, p), Inbox(r.queue.msgs, p),
            Delivered(r.queue, rest, p), Received(r.queue, rest, p), Inbox(Run(r.queue, rest).msgs, p));
    }
  }

  // ---- Blocking ----

  lemma MailBlocks(m: Mail, op: Op, refused: bool, p: Pid, s: Pid)
    requires p in m && s in m[p].blocks && op != Close(p) && op != Close(s) && op != Join(p)
    ensures var r := MailPerform(m, op, refused);
            && p in r.mail && s in r.mail[p].blocks
            && forall x :: x in Stored(m, op, r.code, p) ==> x.from != s
  {
  }

  lemma BlockStep(q: Queue, op: Op, p: Pid, s: Pid)
    requires Good(q) && Enabled(q, op) && p in q.members && s in View(q)[p].blocks
    requires op != Close(p) && op != Close(s)
    ensures var r := Perform(q, op);
            && Good(r.queue) && p in r.queue.members && s in View(r.queue)[p].blocks
            && forall x :: x in Stored(View(q), op, r.code, p) ==> x.from != s
  {
    PerformRefines(q, op);
    MailBlocks(View(q), op, Spills(q, op), p, s);
    assert p in View(Perform(q, op).queue);
  }

  /** The messages that `s` sent, in order. */
  function From(msgs: seq<Message>, s: Pid): seq<Message> {
    if msgs == [] then [] else (if msgs[0].from == s then [msgs[0]] else []) + From(msgs[1..], s)
  }

  lemma {:induction false} FromConcat(a: seq<Message>, b: seq<Message>, s: Pid)
    ensures From(a + b, s) == From(a, s) + From(b, s)
  {
    if a == [] {
      assert a + b == b;
    } else {
      var first := if a[0].from == s then [a[0]] else [];
      assert (a + b)[0] == a[0] && (a + b)[1..] == a[1..] + b;
      FromConcat(a[1..], b, s);
      assert first + (From(a[1..], s) + From(b, s)) == (first + From(a[1..], s)) + From(b, s);
    }
  }

  lemma {:induction false} FromNone(msgs: seq<Message>, s: Pid)
    requires forall m :: m in msgs ==> m.from != s
    ensures From(msgs, s) == []
  {
    if msgs == [] {
    } else {
      FromNone(msgs[1..], s);
    }
  }

  lemma {:induction false} NoneDelivered(q: Queue, ops: seq<Op>, p: Pid, s: Pid)
    requires Good(q) && Possible(q, ops) && p in q.members && s in View(q)[p].blocks
    requires Close(p) !in ops && Close(s) !in ops
    ensures forall m :: m in Delivered(q, ops, p) ==> m.from != s
    decreases |ops|
  {
    if ops == [] {
    } else {
      BlockStep(q, ops[0], p, s);
      NoneDelivered(Perform(q, ops[0]).queue, ops[1..], p, s);
    }
  }

  /** Once `p` has blocked `s`, and until one of the two leaves, the messages from `s` that
      `p` receives and those that stay in the buffer for it are together exactly those
      that were in the buffer before: nothing from `s` is stored for `p`. */
  lemma BlockedNotDelivered(q: Queue, ops: seq<Op>, p: Pid, s: Pid)
    requires Good(q) && Possible(q, ops) && p in q.members && s in View(q)[p].blocks
    requires Close(p) !in ops && Close(s) !in ops
    ensures From(Received(q, ops, p), s) + From(Inbox(Run(q, ops).msgs, p), s) == From(Inbox(q.msgs, p), s)
  {
    hide Good, Inbox, Run, Possible, Received, Delivered, View;
    var box, box2, took, put := Inbox(q.msgs, p), Inbox(Run(q, ops).msgs, p), Received(q, ops, p), Delivered(q, ops, p);
    Fifo(q, ops, p);
    NoneDelivered(q, ops, p, s);
    FromNone(put, s);
    FromConcat(box, put, s);
    FromConcat(took, box2, s);
  }

  /** Whoever joins starts with an empty inbox, blocks nobody and is blocked by nobody,
      whatever a former member with the same pid did. */
  lemma JoinStartsClean(q: Queue, p: Pid)
    requires Good(q) && Enabled(q, Join(p))
    ensures var m := View(DoJoin(q, p).queue);
            && p in m && m[p] == Box([], {})
            && forall o :: o in m ==> p !in m[o].blocks
  {
    JoinRefines(q, p);
    var m := View(q);
    forall o | o in m ensures p !in m[o].blocks {
      assert m[o] == BoxAt(q, o);
    }
  }

  // ---- Exactly which sends arrive ----

  /** The broadcast answer counts the members that are neither the sender nor block it. */
  lemma BroadcastExact(q: Queue, pid: Pid, msg: Message)
    requires Good(q) && Enabled(q, Send(pid, msg))
    requires pid in q.members && msg.from == pid && msg.to == BROADCAST_PID
    ensures DoSend(q, pid, msg).code ==
            |q.members| - 1 - |set p: Pid | p in q.members && p != pid && pid in View(q)[p].blocks|
  {
    BroadcastRefines(q, pid, msg);
    ViewSizes(q, pid);
    EligibleSize(View(q), pid);
  }

  lemma ViewSizes(q: Queue, pid: Pid)
    requires Shape(q) && Distinct(q.members)
    ensures |View(q).Keys| == |q.members|
    ensures (set p: Pid | p in q.members && p != pid && pid in View(q)[p].blocks) == Blocking(View(q), pid)
  {
    MembersSize(q.members);
    assert View(q).Keys == set p: Pid | p in q.members;
  }

  function Blocking(m: Mail, from: Pid): set<Pid> {
    set p: Pid | p in m && p != from && from in m[p].blocks
  }

  lemma EligibleSize(m: Mail, from: Pid)
    requires from in m
    ensures |Eligible(m, from)| == |m.Keys| - 1 - |Blocking(m, from)|
  {
    var e, b := Eligible(m, from), Blocking(m, from);
    assert m.Keys == e + b + {from};
    assert |e + b| == |e| + |b|;
  }

  lemma {:induction false} MembersSize(s: seq<Pid>)
    requires Distinct(s)
    ensures |set p: Pid | p in s| == |s|
  {
    if s == [] {
    } else {
      var n := |s| - 1;
      MembersSize(s[..n]);
      assert s == s[..n] + [s[n]];
      assert s[n] !in s[..n];
      assert (set p: Pid | p in s) == (set p: Pid | p in s[..n]) + {s[n]};
    }
  }

  /** The row behind the recipient's, as far as the unicast scan reads it. */
  predicate NextRefuses(q: Queue, i: nat, pid: Pid)
    requires Shape(q) && i < |q.members|
  {
    if i + 1 < |q.members| then pid in View(q)[q.members[i + 1]].blocks
    else i + 1 == MAX_MEMBERS && pid in q.table[TABLE_CELLS..]
  }

  lemma WideRow(t: seq<int>, i: nat, pid: Pid)
    requires |t| == MEMORY_CELLS && i < MAX_MEMBERS
    ensures var b := 4 * i + 4;
            RowHas(t, i, MAX_PROCESSES, pid) <==>
            RowHas(t, i, MAX_MEMBERS, pid) || t[b] == pid || t[b + 1] == pid || t[b + 2] == pid
  {
  }

  lemma ThreeCells(t: seq<int>, i: nat, pid: Pid)
    requires 4 * i + 4 <= |t| && t[4 * i + 3] == FREE
    ensures var b := 4 * i;
            pid in BlocksOf(t, i) <==> t[b] == pid || t[b + 1] == pid || t[b + 2] == pid
  {
  }

  lemma NextRow(q: Queue, i: nat, pid: Pid)
    requires Good(q) && i < |q.members|
    ensures RowHas(q.table, i, MAX_PROCESSES, pid) <==>
            RowHas(q.table, i, MAX_MEMBERS, pid) || NextRefuses(q, i, pid)
  {
    var b := 4 * i + 4;
    WideRow(q.table, i, pid);
    if i + 1 < |q.members| {
      SlotIs(q.members, i + 1);
      ThreeCells(q.table, i + 1, pid);
      assert View(q)[q.members[i + 1]] == BoxAt(q, q.members[i + 1]);
    } else if i + 1 == MAX_MEMBERS {
      assert q.table[TABLE_CELLS..] == [q.table[b], q.table[b + 1], q.table[b + 2]];
    } else {
      assert q.table[b] == q.table[b + 1] == q.table[b + 2] == FREE;
    }
  }

  /** A well-formed unicast is stored if and only if the recipient does not block the
      sender and neither does the member that sits right behind the recipient. */
  lemma UnicastExact(q: Queue, pid: Pid, msg: Message)
    requires Good(q) && pid in q.members && msg.from == pid && msg.to != pid && msg.to != BROADCAST_PID
    ensures DoSend(q, pid, msg).code == 1 <==>
            && msg.to in q.members
            && pid !in View(q)[msg.to].blocks
            && !NextRefuses(q, SlotOf(q.members, msg.to), pid)
    ensures DoSend(q, pid, msg).code in {1, -EINVAL}
  {
    if msg.to in q.members {
      var i := SlotOf(q.members, msg.to);
      NextRow(q, i, pid);
      RowIsBlocks(q, i, pid);
      assert View(q)[msg.to] == BoxAt(q, msg.to);
    }
  }

  /** 1, 2 and 3 share a queue and 2 blocks 3. */
  const TWO_BLOCKS_THREE :=
    Queue([1, 2, 3], [-1, -1, -1, -1, 3, -1, -1, -1, -1, -1, -1, -1, -1, -1, -1, -1, 0, 0, 0], [])

  /** So a recipient that blocks nobody can be out of reach: in that reachable state 3
      cannot send to 1. */
  lemma UnicastRefusedUnblocked()
    ensures Good(Created(1, [0, 0, 0])) && Possible(Created(1, [0, 0, 0]), [Join(2), Join(3), Block(2, 3)])
    ensures Run(Created(1, [0, 0, 0]), [Join(2), Join(3), Block(2, 3)]) == TWO_BLOCKS_THREE
    ensures View(TWO_BLOCKS_THREE)[1].blocks == {}
    ensures DoSend(TWO_BLOCKS_THREE, 3, Message(3, 1, "hello")).code == -EINVAL
  {
    var q0 := Created(1, [0, 0, 0]);
    CreatedGood(1, [0, 0, 0]);
    BlockTwo();
    RunThree(q0, q0.(members := [1, 2]), q0.(members := [1, 2, 3]), TWO_BLOCKS_THREE, Join(2), Join(3), Block(2, 3));
    SpillTwo();
  }

  lemma BlockTwo()
    ensures Perform(Created(1, [0, 0, 0]).(members := [1, 2, 3]), Block(2, 3)).queue == TWO_BLOCKS_THREE
  {
    var q := Created(1, [0, 0, 0]).(members := [1, 2, 3]);
    assert SlotOf(q.members, 2) == 1 by { assert q.members[1..] == [2, 3]; }
    assert FreeCell(q.table, 1) == 4;
  }

  lemma SpillTwo()
    ensures View(TWO_BLOCKS_THREE)[1].blocks == {}
    ensures DoSend(TWO_BLOCKS_THREE, 3, Message(3, 1, "hello")).code == -EINVAL
  {
    var q := TWO_BLOCKS_THREE;
    assert SlotOf(q.members, 1) == 0;
    assert View(q)[1] == BoxAt(q, 1);
    assert q.table[4] == 3;
    assert RowHas(q.table, 0, MAX_PROCESSES, 3);
  }

  lemma RunThree(q0: Queue, q1: Queue, q2: Queue, q3: Queue, a: Op, b: Op, c: Op)
    requires Good(q0) && Enabled(q0, a) && Perform(q0, a).queue == q1
    requires Shape(q1) && Enabled(q1, b) && Perform(q1, b).queue == q2
    requires Shape(q2) && Enabled(q2, c) && Perform(q2, c).queue == q3
    ensures Possible(q0, [a, b, c]) && Run(q0, [a, b, c]) == q3
  {
    hide Good, Shape, Perform, Enabled;
    PerformGood(q0, a);
    PerformGood(q1, b);
    PerformGood(q2, c);
    RunFirst(q2, c, []);
    RunFirst(q1, b, [c]);
    RunFirst(q0, a, [b, c]);
    assert [a] + [b, c] == [a, b, c];
  }

  lemma RunFirst(q: Queue, op: Op, ops: seq<Op>)
    requires Good(q) && Enabled(q, op) && Good(Perform(q, op).queue) && Possible(Perform(q, op).queue, ops)
    ensures Possible(q, [op] + ops) && Run(q, [op] + ops) == Run(Perform(q, op).queue, ops)
  {
    hide Good, Shape, Perform, Enabled;
    assert ([op] + ops)[1..] == ops;
  }

  // ---- Conservation ----

  function CountsUpTo(q: Queue, n: nat): nat
    requires Shape(q) && n <= |q.members|
  {
    if n == 0 then 0 else CountsUpTo(q, n - 1) + DoCount(q, q.members[n - 1]).code
  }

  lemma {:induction false} CountsEmpty(q: Queue, n: nat)
    requires Shape(q) && n <= |q.members| && q.msgs == []
    ensures CountsUpTo(q, n) == 0
  {
    if n == 0 {
    } else {
      CountsEmpty(q, n - 1);
    }
  }

  lemma {:induction false} CountsWithout(q: Queue, n: nat)
    requires Good(q) && n <= |q.members| && q.msgs != []
    ensures var q0 := q.(msgs := q.msgs[..|q.msgs| - 1]);
            CountsUpTo(q, n) == CountsUpTo(q0, n) + (if q.msgs[|q.msgs| - 1].to in q.members[..n] then 1 else 0)
  {
    if n == 0 {
    } else {
      CountsWithout(q, n - 1);
      assert q.members[..n] == q.members[..n - 1] + [q.members[n - 1]];
      assert q.members[n - 1] !in q.members[..n - 1];
    }
  }

  /** The pending counts of the members add up to the number of buffered messages. */
  lemma {:induction false} CountsAddUp(q: Queue)
    requires Good(q)
    ensures CountsUpTo(q, |q.members|) == |q.msgs|
    decreases |q.msgs|
  {
    if q.msgs == [] {
      CountsEmpty(q, |q.members|);
    } else {
      var last := |q.msgs| - 1;
      assert q.msgs[last] in q.msgs;
      CountsAddUp(q.(msgs := q.msgs[..last]));
      CountsWithout(q, |q.members|);
      assert q.members[..|q.members|] == q.members;
    }
  }
}
