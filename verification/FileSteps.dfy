/**
  Runs of the file layer as it is stored: operations on descriptors, file objects, inodes
  and storage, one after the other, do what `FileRuns` says about views.
 */
module FileSteps {
  import opened Common
  import opened FileModel
  import opened FileRuns
  import opened FlatFs
  import opened SuperBlockObject
  import opened FileLayer

  /** What the process gets back: the code, the bytes and its own offset. */
  datatype Answer = Answer(code: int, data: seq<Byte>, offset: Offset)

  /** A close that is carried out leaves its code open. */
  predicate Agrees<Id>(v: View<Id>, op: Op<Id>, a: Answer)
    requires Inv(v) && Allowed(v, op)
  {
    var r := Perform(v, op);
    && ((op.Close? && IsOpen(v, op.fd)) || a.code == r.code)
    && a.data == (if op.Read? then r.data else []) && a.offset == r.offset
  }

  /** The page of the new object, if the operation is an open. */
  function PageOf<Id>(op: Op<Id>): set<Id> {
    if op.OpenFile? then {op.id} else {}
  }

  function PagesOf<Id>(ops: seq<Op<Id>>): set<Id> {
    if ops == [] then {} else PageOf(ops[0]) + PagesOf(ops[1..])
  }

  /** Nothing in front of a page is read. */
  predicate Frontless<Id>(op: Op<Id>) {
    op.Send? ==> op.front == []
  }

  lemma PerformKeys<Id>(v: View<Id>, op: Op<Id>)
    requires Inv(v) && Allowed(v, op)
    ensures Perform(v, op).view.descs.Keys <= v.descs.Keys + PageOf(op)
  {
    assert |v.slots| == MAX_OPEN_FILES;
    hide Inv, Allowed, DoOpen, DoRead, DoWrite, DoSeek, DoDup2, DoClose, DoSend;
    match op
    case OpenFile(id, name, flags) => OpenCases(v, id, name, flags);
    case Read(fd, count) => ReadKeys(v, fd, count);
    case Write(fd, data) => WriteKeys(v, fd, data);
    case Seek(fd, delta, whence) => SeekKeys(v, fd, delta, whence);
    case Dup2(oldfd, newfd) => DupKeys(v, oldfd, newfd);
    case Close(fd) => CloseKeys(v, fd);
    case Send(outfd, infd, offset, count, front) => SendKeys(v, outfd, infd, offset, count, front);
  }

  lemma ReadKeys<Id>(v: View<Id>, fd: nat, count: nat)
    requires Inv(v)
    ensures DoRead(v, fd, count).view.descs.Keys == v.descs.Keys
  {
  }

  lemma WriteKeys<Id>(v: View<Id>, fd: nat, data: seq<Byte>)
    requires Inv(v)
    ensures DoWrite(v, fd, data).view.descs.Keys == v.descs.Keys
  {
  }

  lemma SeekKeys<Id>(v: View<Id>, fd: nat, delta: int, whence: Whence)
    requires Inv(v)
    ensures DoSeek(v, fd, delta, whence).view.descs.Keys == v.descs.Keys
  {
  }

  lemma DupKeys<Id>(v: View<Id>, oldfd: nat, newfd: nat)
    requires Inv(v) && SafeDup(v, oldfd, newfd)
    ensures DoDup2(v, oldfd, newfd).view.descs.Keys <= v.descs.Keys
  {
  }

  lemma CloseKeys<Id>(v: View<Id>, fd: nat)
    requires Inv(v)
    ensures DoClose(v, fd).view.descs.Keys <= v.descs.Keys
  {
  }

  lemma SendKeys<Id>(v: View<Id>, outfd: nat, infd: nat, offset: Offset, count: nat, front: seq<Byte>)
    requires Inv(v) && Reaches(front, offset)
    ensures DoSend(v, outfd, infd, offset, count, front).view.descs.Keys == v.descs.Keys
  {
    assert |v.slots| == MAX_OPEN_FILES;
    hide Inv, DoRead, DoWrite, Fetch, LowWord, Long;
    if IsOpen(v, infd) {
      var r := Source(v, infd, offset, count, front);
      ReadKeeps(v, infd, count);
      ReadKeys(v, infd, count);
      WriteKeys(r.view, outfd, r.data);
    }
  }

  /** What is in front of the page does not matter to an offset that is not negative. */
  lemma SendFrontless<Id>(v: View<Id>, outfd: nat, infd: nat, offset: Offset, count: nat, front: seq<Byte>)
    requires Inv(v) && Reaches([], offset)
    ensures Reaches(front, offset)
    ensures DoSend(v, outfd, infd, offset, count, front) == DoSend(v, outfd, infd, offset, count, [])
  {
    assert |v.slots| == MAX_OPEN_FILES;
    hide Inv, DoWrite, DoRead, LowWord, Long;
    if IsOpen(v, infd) {
      assert Source(v, infd, offset, count, front) == Source(v, infd, offset, count, []);
    }
  }

  /** One operation. */
  method Execute(p: Process, op: Op<FileObject>) returns (a: Answer)
    requires p.Valid() && Allowed(p.view, op) && Frontless(op)
    modifies p`view, p.files, p.view.descs.Keys, PageOf(op)
    modifies p.sb`numFiles, p.sb`table, p.sb.inode[..], p.sb.storage
    ensures p.Valid() && p.view == Perform(old(p.view), op).view && Agrees(old(p.view), op, a)
  {
    hide SuperBlock.Valid, Inv, Contents, DoOpen, DoRead, DoWrite, DoSeek, DoDup2, DoClose, DoSend;
    hide Process.Tied, SafeDup, SafeWrite, SafeSend, PageHolds, Reaches, GoodName, Objects;
    a := Answer(0, [], NoOffset);
    PerformKeeps(p.view, op);
    AnswerShapes(p.view, op);
    match op {
      case OpenFile(id, name, flags) =>
        var code := p.OpenFile(id, name, flags);
        a := a.(code := code);
      case Read(fd, count) =>
        var buf := new Byte[FILE_SIZE](_ => 0);
        var code := p.ReadFile(fd, buf, count);
        a := a.(code := code, data := if code < 0 then [] else buf[..code]);
      case Write(fd, data) =>
        var buf := new Byte[|data|](i requires 0 <= i < |data| => data[i]);
        assert buf[..|data|] == data;
        var code := p.WriteFile(fd, buf, |data|);
        a := a.(code := code);
      case Seek(fd, delta, whence) =>
        var code := p.Seek(fd, delta, whence);
        a := a.(code := code);
      case Dup2(oldfd, newfd) =>
        var code := p.Dup2(oldfd, newfd);
        a := a.(code := code);
      case Close(fd) =>
        var code := p.Close(fd);
        a := a.(code := code);
      case Send(outfd, infd, offset, count, front) =>
        ghost var actual := FrontOf(p, infd);
        SendFrontless(p.view, outfd, infd, offset, count, actual);
        var code, moved := p.SendFile(outfd, infd, offset, count, actual);
        a := Answer(code, [], moved);
    }
  }

  ghost function FrontOf(p: Process, fd: nat): (front: seq<Byte>)
    requires p.Valid() && fd < MAX_OPEN_FILES
    ensures p.IsFront(fd, front)
    reads p, p.files, p.view.descs.Keys, p.sb, p.sb.inode, p.sb.inode[..], p.sb.storage
  {
    if p.files[fd] == null then [] else p.Opened(fd); p.sb.Front(p.files[fd].inode)
  }

  /** Which operations hand out bytes or move an offset of the caller. */
  lemma AnswerShapes<Id>(v: View<Id>, op: Op<Id>)
    requires Inv(v) && Allowed(v, op)
    ensures !op.Send? ==> Perform(v, op).offset == NoOffset
    ensures op.Read? ==>
              var r := DoRead(v, op.fd, op.count);
              (if r.code < 0 then r.data == [] else |r.data| == r.code) && |r.data| <= FILE_SIZE
  {
    hide Overlay, Count, Fetch;
  }

  /** The answers of a run, one by one. */
  ghost predicate AllAgree<Id>(v: View<Id>, ops: seq<Op<Id>>, answers: seq<Answer>)
    requires Inv(v) && Possible(v, ops)
    decreases |ops|
  {
    && |answers| == |ops|
    && (ops == [] ||
        (&& Agrees(v, ops[0], answers[0])
         && (PerformKeeps(v, ops[0]); AllAgree(Perform(v, ops[0]).view, ops[1..], answers[1..]))))
  }

  lemma FirstOp<Id>(v: View<Id>, ops: seq<Op<Id>>)
    requires Inv(v) && Possible(v, ops) && ops != []
    ensures Allowed(v, ops[0])
    ensures var v1 := Perform(v, ops[0]).view;
            && Inv(v1) && Possible(v1, ops[1..]) && Run(v, ops) == Run(v1, ops[1..])
            && v1.descs.Keys <= v.descs.Keys + PageOf(ops[0])
  {
    hide Inv, Allowed, Perform, PageOf;
    PerformKeeps(v, ops[0]);
    PerformKeys(v, ops[0]);
  }

  lemma LastAgrees<Id>(v: View<Id>, ops: seq<Op<Id>>, answers: seq<Answer>, op: Op<Id>, a: Answer)
    requires Inv(v) && Possible(v, ops) && AllAgree(v, ops, answers)
    requires Allowed(Run(v, ops), op) && Agrees(Run(v, ops), op, a)
    ensures Possible(v, ops + [op]) && AllAgree(v, ops + [op], answers + [a])
    ensures Run(v, ops + [op]) == Perform(Run(v, ops), op).view
    decreases |ops|
  {
    hide Inv, Allowed, Perform, Agrees;
    PerformKeeps(Run(v, ops), op);
    if ops == [] {
      assert ([] + [op])[1..] == [] && ([] + [a])[1..] == [];
    } else {
      PerformKeeps(v, ops[0]);
      assert (ops + [op])[1..] == ops[1..] + [op] && (answers + [a])[1..] == answers[1..] + [a];
      LastAgrees(Perform(v, ops[0]).view, ops[1..], answers[1..], op, a);
    }
  }

  lemma {:induction false} PagesIn<Id>(ops: seq<Op<Id>>, k: nat)
    requires k < |ops|
    ensures PageOf(ops[k]) <= PagesOf(ops)
  {
    if k == 0 {
    } else {
      PagesIn(ops[1..], k - 1);
    }
  }

  /** A run ends in the view that `Run` says, with the answers of its operations. */
  method ExecuteAll(p: Process, ops: seq<Op<FileObject>>) returns (answers: seq<Answer>)
    requires p.Valid() && Possible(p.view, ops) && forall op :: op in ops ==> Frontless(op)
    modifies p`view, p.files, p.view.descs.Keys, PagesOf(ops)
    modifies p.sb`numFiles, p.sb`table, p.sb.inode[..], p.sb.storage
    ensures p.Valid() && p.view == Run(old(p.view), ops) && AllAgree(old(p.view), ops, answers)
  {
    hide Inv, Allowed, Perform, Possible, Run, AllAgree, Agrees, Process.Tied, PageOf, PagesOf, Frontless;
    ghost var v := p.view;
    answers := [];
    var k := 0;
    NoOps(v);
    while k < |ops|
      invariant 0 <= k <= |ops|
      invariant p.Valid() && Possible(p.view, ops[k..])
      invariant Possible(v, ops[..k]) && p.view == Run(v, ops[..k]) && AllAgree(v, ops[..k], answers)
      invariant p.view.descs.Keys <= v.descs.Keys + PagesOf(ops)
    {
      FirstOp(p.view, ops[k..]);
      PagesIn(ops, k);
      assert ops[k..][0] == ops[k] && ops[k..][1..] == ops[k + 1..];
      ghost var before := p.view;
      var a := Execute(p, ops[k]);
      LastAgrees(v, ops[..k], answers, ops[k], a);
      assert ops[..k] + [ops[k]] == ops[..k + 1];
      answers := answers + [a];
      k := k + 1;
    }
    assert ops[..k] == ops;
  }

  lemma NoOps<Id>(v: View<Id>)
    requires Inv(v)
    ensures Possible(v, []) && Run(v, []) == v && AllAgree(v, [], [])
  {
  }
}
