/**
  Runs of the message queue as it is stored: operations on the arrays, one after the
  other, do what `QueueRuns` says about values and what separate mailboxes would do.
 */
module QueueSteps {
  import opened QueueModel
  import opened QueueMail
  import opened QueueRuns
  import opened MsgQueueObject

  /** One operation on the arrays. */
  method Execute(m: MsgQueue, op: Op) returns (code: int, got: seq<Message>)
    requires m.Valid() && Good(m.Value()) && Enabled(m.Value(), op)
    modifies m, m.memberPid, m.blockProcess, m.msgBuffer
    ensures m.Valid() && Reply(m.Value(), code, got) == Perform(old(m.Value()), op)
  {
    hide DoSend, DoReceive, DoBlock, DoClose;
    got := [];
    match op {
      case Send(pid, msg) => code := m.MsgQueueSend(pid, msg);
      case Receive(pid) => code, got := m.MsgQueueRcv(pid);
      case Block(pid, target) => code := m.MsgQueueBlock(pid, target);
      case Count(pid) => code := m.GetMsgCount(pid);
      case Close(pid) =>
        var last;
        code, last := m.MsgQueueClose(pid);
      case Join(pid) =>
        m.AddMember(pid);
        code := 0;
    }
  }

  lemma RunFirst(q: Queue, ops: seq<Op>)
    requires Good(q) && Possible(q, ops) && ops != []
    ensures Enabled(q, ops[0])
    ensures var r := Perform(q, ops[0]);
            && Good(r.queue) && Possible(r.queue, ops[1..])
            && Run(q, ops) == Run(r.queue, ops[1..])
            && Answers(q, ops) == [Answer(r.code, r.got)] + Answers(r.queue, ops[1..])
  {
    hide Good, Perform, Enabled;
    PerformGood(q, ops[0]);
  }

  /** A run on the arrays gives the answers of the separate mailboxes and ends where they end. */
  method ExecuteAll(m: MsgQueue, ops: seq<Op>) returns (answers: seq<Answer>)
    requires m.Valid() && Good(m.Value()) && Possible(m.Value(), ops)
    modifies m, m.memberPid, m.blockProcess, m.msgBuffer
    ensures m.Valid() && m.Value() == Run(old(m.Value()), ops) && answers == Answers(old(m.Value()), ops)
    ensures MailRun(View(old(m.Value())), ops, Refusals(old(m.Value()), ops)) == (View(m.Value()), answers)
  {
    hide Good, Perform, Enabled, Possible, Run, Answers, MailRun, View, MsgQueue.Valid, MsgQueue.Value;
    ghost var q := m.Value();
    answers := [];
    var k := 0;
    while k < |ops|
      invariant 0 <= k <= |ops|
      invariant m.Valid() && Good(m.Value()) && Possible(m.Value(), ops[k..])
      invariant Run(q, ops) == Run(m.Value(), ops[k..])
      invariant Answers(q, ops) == answers + Answers(m.Value(), ops[k..])
    {
      RunFirst(m.Value(), ops[k..]);
      assert ops[k..][0] == ops[k] && ops[k..][1..] == ops[k + 1..];
      var code, got := Execute(m, ops[k]);
      answers := answers + [Answer(code, got)];
      k := k + 1;
    }
    NoMore(m.Value(), ops[k..]);
    RunRefines(q, ops);
  }

  lemma NoMore(q: Queue, ops: seq<Op>)
    requires Good(q) && ops == []
    ensures Possible(q, ops) && Run(q, ops) == q && Answers(q, ops) == []
  {
  }
}
