/**
 The history stays truthful: matched sends and receives agree, results say what
 happened, and every operation that has not returned is in progress.
 */
module IpcBook {

  import opened Common
  import opened Ipc
  import opened IpcInv
  import opened IpcHistory

  /** An operation starts and returns an error at once; the kernel state does not change. */
  lemma FailBook(y: Sys, t: nat, e: nat, m: Msg, op: OpKind, err: int)
    requires Book(y) && Ready(y.k, t) && err != OK
    ensures var id := |y.h.ops|;
            var h := SetDone(Start(y.h, t, Fresh(op, t, e, m)), id, err);
            Book(Sys(y.k, if op == CALL then SetFinished(h, id, Fail(err)) else h))
  {
    var id := |y.h.ops|;
    var h1 := SetDone(Start(y.h, t, Fresh(op, t, e, m)), id, err);
    var h := if op == CALL then SetFinished(h1, id, Fail(err)) else h1;
    forall i | 0 <= i < |h.ops| ensures PeerOk(h, i) && ResultOk(h, i) && InFlight(y.k, h, i) {
      if i < id { assert PeerOk(y.h, i) && ResultOk(y.h, i) && InFlight(y.k, y.h, i); }
    }
    forall u | 0 <= u < |y.k.threads| ensures ThreadRec(y.k, h, u) {
      assert ThreadRec(y.k, y.h, u);
    }
  }

  /** An operation starts and its thread goes to sleep on the endpoint's queue. */
  lemma BlockBook(y: Sys, t: nat, e: nat, m: Msg, op: OpKind)
    requires Book(y) && Ready(y.k, t) && e < |y.k.eps|
    ensures op != RECV ==> Book(Sys(EnqueueSender(y.k, t, e, m, op), Start(y.h, t, Fresh(op, t, e, m))))
    ensures Book(Sys(EnqueueReceiver(y.k, t, e, m), Start(y.h, t, Fresh(RECV, t, e, m))))
  {
    if op != RECV {
      StartBook(y, EnqueueSender(y.k, t, e, m, op), t, e, m, op);
    }
    StartBook(y, EnqueueReceiver(y.k, t, e, m), t, e, m, RECV);
  }

  lemma StartBook(y: Sys, k: Kernel, t: nat, e: nat, m: Msg, op: OpKind)
    requires Book(y) && Ready(y.k, t) && |k.threads| == |y.k.threads|
    requires forall u | 0 <= u < |k.threads| && u != t :: k.threads[u] == y.k.threads[u]
    requires var T := k.threads[t];
             && T.alive && T.op == op && T.ep == e && T.buf == m && T.result == ERR_NOPARTNER
             && T.at == if op == RECV then RecvWait else SendWait
    ensures Book(Sys(k, Start(y.h, t, Fresh(op, t, e, m))))
  {
    var h := Start(y.h, t, Fresh(op, t, e, m));
    forall i | 0 <= i < |h.ops| ensures PeerOk(h, i) && ResultOk(h, i) && InFlight(k, h, i) {
      if i < |y.h.ops| { assert PeerOk(y.h, i) && ResultOk(y.h, i) && InFlight(y.k, y.h, i); }
    }
    forall u | 0 <= u < |k.threads| ensures ThreadRec(k, h, u) {
      assert ThreadRec(y.k, y.h, u);
    }
  }

  /** The history after a send that met a waiting receiver. */
  function DirectHist(h: History, t: nat, r: nat, e: nat, m: Msg, op: OpKind): History
    requires t < |h.cur| && r < |h.cur| && h.cur[r] < |h.ops|
  {
    SetDone(Matched(Start(h, t, Fresh(op, t, e, m)), |h.ops|, h.cur[r]), |h.ops|, OK)
  }

  lemma DirectBook(y: Sys, t: nat, e: nat, m: Msg, op: OpKind)
    requires Base(y) && Ready(y.k, t) && e < |y.k.eps| && op != RECV
    requires y.k.eps[e].recvQ != []
    ensures y.k.eps[e].recvQ[0] < |y.k.threads| && y.h.cur[y.k.eps[e].recvQ[0]] < |y.h.ops|
    ensures var k1 := DirectTransfer(y.k, t, e, m, op);
            var k := if op == CALL then AwaitReply(k1, t).0 else k1;
            Book(Sys(k, DirectHist(y.h, t, y.k.eps[e].recvQ[0], e, m, op)))
  {
    hide QInv, CopySlice;
    HeadQueued(y.k, e);
    HeadRec(y, e);
    var r := y.k.eps[e].recvQ[0];
    var k1 := DirectTransfer(y.k, t, e, m, op);
    var k := if op == CALL then AwaitReply(k1, t).0 else k1;
    var h := DirectHist(y.h, t, r, e, m, op);
    assert ThreadRec(y.k, y.h, r) && ResultOk(y.h, y.h.cur[r]);
    forall i | 0 <= i < |h.ops| ensures PeerOk(h, i) && ResultOk(h, i) && InFlight(k, h, i) {
      if i < |y.h.ops| { assert PeerOk(y.h, i) && ResultOk(y.h, i) && InFlight(y.k, y.h, i); }
    }
    forall u | 0 <= u < |k.threads| ensures ThreadRec(k, h, u) {
      assert ThreadRec(y.k, y.h, u);
    }
  }

  function TakeHist(h: History, t: nat, s: nat, e: nat, m: Msg): History
    requires t < |h.cur| && s < |h.cur| && h.cur[s] < |h.ops|
  {
    SetDone(Matched(Start(h, t, Fresh(RECV, t, e, m)), h.cur[s], |h.ops|), |h.ops|, OK)
  }

  lemma TakeBook(y: Sys, t: nat, e: nat, m: Msg)
    requires Base(y) && Ready(y.k, t) && e < |y.k.eps|
    requires y.k.eps[e].sendQ != []
    ensures y.k.eps[e].sendQ[0] < |y.k.threads| && y.h.cur[y.k.eps[e].sendQ[0]] < |y.h.ops|
    ensures Book(Sys(TakeSender(y.k, t, e), TakeHist(y.h, t, y.k.eps[e].sendQ[0], e, m)))
  {
    hide QInv, CopySlice;
    HeadQueued(y.k, e);
    HeadRec(y, e);
    var s := y.k.eps[e].sendQ[0];
    var k := TakeSender(y.k, t, e);
    var h := TakeHist(y.h, t, s, e, m);
    assert ThreadRec(y.k, y.h, s) && ResultOk(y.h, y.h.cur[s]);
    forall i | 0 <= i < |h.ops| ensures PeerOk(h, i) && ResultOk(h, i) && InFlight(k, h, i) {
      if i < |y.h.ops| { assert PeerOk(y.h, i) && ResultOk(y.h, i) && InFlight(y.k, y.h, i); }
    }
    forall u | 0 <= u < |k.threads| ensures ThreadRec(k, h, u) {
      assert ThreadRec(y.k, y.h, u);
    }
  }

  /** Threads may change in any way their records do not depend on. */
  predicate SameRec(T: Thread, T': Thread) {
    && T'.alive == T.alive && T'.at == T.at && T'.op == T.op && T'.ep == T.ep && T'.buf == T.buf
    && (T'.result == OK <==> T.result == OK)
  }

  lemma BookFrame(y: Sys, k: Kernel)
    requires Book(y) && |k.threads| == |y.k.threads|
    requires forall u | 0 <= u < |k.threads| :: SameRec(y.k.threads[u], k.threads[u])
    ensures Book(Sys(k, y.h))
  {
    forall i | 0 <= i < |y.h.ops| ensures InFlight(k, y.h, i) {
      assert InFlight(y.k, y.h, i);
    }
    forall u | 0 <= u < |k.threads| ensures ThreadRec(k, y.h, u) {
      assert ThreadRec(y.k, y.h, u);
    }
  }

  /** Recording an answer changes no match. */
  lemma AnsweredBook(y: Sys, c: nat, a: Answer)
    requires Book(y)
    ensures Book(Sys(y.k, Answered(y.h, c, a)))
  {
    var h := Answered(y.h, c, a);
    forall i | 0 <= i < |h.ops| ensures PeerOk(h, i) && ResultOk(h, i) && InFlight(y.k, h, i) {
      assert PeerOk(y.h, i) && ResultOk(y.h, i) && InFlight(y.k, y.h, i);
    }
    forall u | 0 <= u < |y.k.threads| ensures ThreadRec(y.k, h, u) {
      assert ThreadRec(y.k, y.h, u);
    }
  }

  lemma ReplyBook(y: Sys, t: nat, m: Msg)
    requires Base(y) && Enabled(y, AReply(t, m))
    ensures Book(Step(y, AReply(t, m)))
  {
    hide QInv, Book, SliceError, CopySlice, Answered;
    if y.k.threads[t].caller.Some? {
      var c := y.k.threads[t].caller.value;
      var k := Reply(y.k, t, m).0;
      var err := SliceError(y.k.windows, y.k.threads[t].proc, y.k.threads[c].proc, m);
      BookFrame(y, k);
      AnsweredBook(Sys(k, y.h), c, Answer(t, err, Msg(m.tag, m.regs)));
    }
  }

  lemma ExitBook(y: Sys, t: nat)
    requires Base(y) && Enabled(y, AExit(t))
    ensures Book(Step(y, AExit(t)))
  {
    hide QInv, Answered;
    assert PlaceOk(y.k.threads[t]);
    var k := Exit(y.k, t);
    forall i | 0 <= i < |y.h.ops| ensures InFlight(k, y.h, i) {
      assert InFlight(y.k, y.h, i);
    }
    forall u | 0 <= u < |k.threads| ensures ThreadRec(k, y.h, u) {
      assert ThreadRec(y.k, y.h, u);
    }
    if y.k.threads[t].caller.Some? {
      AnsweredBook(Sys(k, y.h), y.k.threads[t].caller.value, Answer(t, ERR_DEAD, NoMsg));
    }
  }

  lemma ResumeSendBook(y: Sys, t: nat)
    requires Base(y) && Enabled(y, AResume(t)) && y.k.threads[t].at == SendWait
    ensures Book(Step(y, AResume(t)))
  {
    hide QInv, Drop;
    ResumeRec(y, t);
    var k, h := Resume(y.k, t).0, RecordResume(y, t);
    assert ThreadRec(y.k, y.h, t) && PlaceOk(y.k.threads[t]) && ResultOk(y.h, y.h.cur[t]) && PeerOk(y.h, y.h.cur[t]);
    forall i | 0 <= i < |h.ops| ensures PeerOk(h, i) && ResultOk(h, i) && InFlight(k, h, i) {
      assert PeerOk(y.h, i) && ResultOk(y.h, i) && InFlight(y.k, y.h, i);
    }
    forall u | 0 <= u < |k.threads| ensures ThreadRec(k, h, u) {
      assert ThreadRec(y.k, y.h, u);
    }
  }

  lemma ResumeRecvBook(y: Sys, t: nat)
    requires Base(y) && Enabled(y, AResume(t)) && y.k.threads[t].at == RecvWait
    ensures Book(Step(y, AResume(t)))
  {
    hide QInv, Drop;
    ResumeRec(y, t);
    var k, h := Resume(y.k, t).0, RecordResume(y, t);
    assert ThreadRec(y.k, y.h, t) && PlaceOk(y.k.threads[t]) && ResultOk(y.h, y.h.cur[t]) && PeerOk(y.h, y.h.cur[t]);
    forall i | 0 <= i < |h.ops| ensures PeerOk(h, i) && ResultOk(h, i) && InFlight(k, h, i) {
      assert PeerOk(y.h, i) && ResultOk(y.h, i) && InFlight(y.k, y.h, i);
    }
    forall u | 0 <= u < |k.threads| ensures ThreadRec(k, h, u) {
      assert ThreadRec(y.k, y.h, u);
    }
  }

  lemma ResumeReplyBook(y: Sys, t: nat)
    requires Base(y) && Enabled(y, AResume(t)) && y.k.threads[t].at == ReplyWait
    ensures Book(Step(y, AResume(t)))
  {
    hide QInv, Drop;
    ResumeRec(y, t);
    var k, h := Resume(y.k, t).0, RecordResume(y, t);
    assert ThreadRec(y.k, y.h, t) && PlaceOk(y.k.threads[t]) && ResultOk(y.h, y.h.cur[t]) && PeerOk(y.h, y.h.cur[t]);
    forall i | 0 <= i < |h.ops| ensures PeerOk(h, i) && ResultOk(h, i) && InFlight(k, h, i) {
      assert PeerOk(y.h, i) && ResultOk(y.h, i) && InFlight(y.k, y.h, i);
    }
    forall u | 0 <= u < |k.threads| ensures ThreadRec(k, h, u) {
      assert ThreadRec(y.k, y.h, u);
    }
  }

  lemma ResumeBook(y: Sys, t: nat)
    requires Base(y) && Enabled(y, AResume(t))
    ensures Book(Step(y, AResume(t)))
  {
    hide QInv, PInv, Book;
    match y.k.threads[t].at
    case SendWait => ResumeSendBook(y, t);
    case RecvWait => ResumeRecvBook(y, t);
    case ReplyWait => ResumeReplyBook(y, t);
  }

  lemma AppendBook(y: Sys, T: Thread)
    requires Book(y) && T.at == User
    ensures Book(Sys(y.k.(threads := y.k.threads + [T]), y.h.(cur := y.h.cur + [0])))
  {
    var k, h := y.k.(threads := y.k.threads + [T]), y.h.(cur := y.h.cur + [0]);
    forall i | 0 <= i < |h.ops| ensures PeerOk(h, i) && ResultOk(h, i) && InFlight(k, h, i) {
      assert PeerOk(y.h, i) && ResultOk(y.h, i) && InFlight(y.k, y.h, i);
    }
    forall u | 0 <= u < |k.threads| ensures ThreadRec(k, h, u) {
      if u < |y.k.threads| { assert ThreadRec(y.k, y.h, u); }
    }
  }

  lemma DestroyBook(y: Sys, e: nat)
    requires Base(y) && Enabled(y, ADestroy(e))
    ensures Book(Step(y, ADestroy(e)))
  {
    hide Book;
    assert EndpointOk(y.k, e);
    HeadQueued(y.k, e);
    FailAllSpec(y.k.threads, y.k.eps[e].sendQ);
    FailAllSpec(FailAll(y.k.threads, y.k.eps[e].sendQ), y.k.eps[e].recvQ);
    BookFrame(y, Destroy(y.k, e));
  }

  lemma SendBook(y: Sys, t: nat, e: nat, m: Msg, op: OpKind, mem: bool)
    requires Base(y) && Ready(y.k, t) && e < |y.k.eps| && op != RECV
    ensures y.k.eps[e].recvQ != [] ==> y.k.eps[e].recvQ[0] < |y.k.threads|
    ensures var k := if op == CALL then Call(y.k, t, e, m, mem).0 else SendOp(y.k, t, e, m, op, mem).0;
            Book(Sys(k, RecordSend(y, t, e, m, op, mem)))
  {
    hide QInv, Book, SliceError, DirectTransfer, EnqueueSender;
    HeadRec(y, e);
    var E := y.k.eps[e];
    var (k1, ret) := SendOp(y.k, t, e, m, op, mem);
    if ret.Blocked? {
      BlockBook(y, t, e, m, op);
    } else if ret.res == OK {
      DirectBook(y, t, e, m, op);
    } else {
      FailBook(y, t, e, m, op, ret.res);
      assert PlaceOk(y.k.threads[t]);
      assert op == CALL ==> CallTail(k1, t, ret.res).0.threads == k1.threads;
    }
  }

  lemma RecvBook(y: Sys, t: nat, e: nat, m: Msg, mem: bool)
    requires Base(y) && Enabled(y, ARecv(t, e, m, mem))
    ensures Book(Step(y, ARecv(t, e, m, mem)))
  {
    hide QInv, Book, SliceError, TakeSender, EnqueueReceiver;
    HeadQueued(y.k, e);
    HeadRec(y, e);
    var E := y.k.eps[e];
    var (k1, ret) := Recv(y.k, t, e, m, mem);
    if ret.Blocked? {
      BlockBook(y, t, e, m, RECV);
    } else if E.sendQ != [] && ret.res == OK {
      TakeBook(y, t, e, m);
    } else {
      BookFrame(y, k1);
      FailBook(Sys(k1, y.h), t, e, m, RECV, ret.res);
    }
  }

  lemma StepBook(y: Sys, a: Action)
    requires Base(y) && Enabled(y, a)
    ensures Book(Step(y, a))
  {
    hide QInv, Book, PInv, SendOp, Call, Recv, Reply, Resume, Exit, Destroy;
    match a
    case ASend(t, e, m, mem) => SendBook(y, t, e, m, SEND, mem);
    case ACall(t, e, m, mem) => SendBook(y, t, e, m, CALL, mem);
    case ARecv(t, e, m, mem) => RecvBook(y, t, e, m, mem);
    case AReply(t, m) => ReplyBook(y, t, m);
    case AResume(t) => ResumeBook(y, t);
    case AExit(t) => ExitBook(y, t);
    case ADestroy(e) => DestroyBook(y, e);
    case AFork(t, p) => AppendBook(y, y.k.threads[t].(proc := p));
    case AWake(t) => BookFrame(y, Wake(y.k, t));
    case ANewThread(p) => AppendBook(y, IdleThread.(proc := p));
    case ANewEndpoint => BookFrame(y, y.k.(eps := y.k.eps + [Endpoint(false, [], [], 0, 0)]));
  }
}
