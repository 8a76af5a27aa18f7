/**
 Calls are answered by the thread that received them and return that answer, as
 long as no thread forks while it owes a reply.
 */
module IpcAnswers {

  import opened Common
  import opened Ipc
  import opened IpcInv
  import opened IpcHistory
  import opened IpcBook

  /** What a caller's record depends on. */
  predicate SameCall(T: Thread, T': Thread) {
    && T'.alive == T.alive && T'.at == T.at && T'.pending == T.pending && T'.server == T.server
    && T'.replyResult == T.replyResult && T'.replyTag == T.replyTag && T'.replyRegs == T.replyRegs
  }

  lemma AnswersFrame(y: Sys, k: Kernel)
    requires Answers(y) && |k.threads| == |y.k.threads|
    requires forall u | 0 <= u < |k.threads| :: SameCall(y.k.threads[u], k.threads[u])
    ensures Answers(Sys(k, y.h))
  {
    forall u | 0 <= u < |k.threads| ensures CallRec(k, y.h, u) {
      assert CallRec(y.k, y.h, u);
    }
  }

  /** An operation starts, and its thread has no answer to wait for yet. */
  lemma StartAnswers(y: Sys, k: Kernel, t: nat, r: OpRec)
    requires Book(y) && Answers(y) && t < |y.k.threads| == |k.threads|
    requires forall u | 0 <= u < |k.threads| && u != t :: SameCall(y.k.threads[u], k.threads[u])
    requires r.peer.None? && r.answer.None?
    ensures Answers(Sys(k, Start(y.h, t, r)))
  {
    var h := Start(y.h, t, r);
    forall i | 0 <= i < |h.ops| ensures AnswerOk(h, i) {
      if i < |y.h.ops| { assert AnswerOk(y.h, i) && PeerOk(y.h, i); }
    }
    forall u | 0 <= u < |k.threads| ensures CallRec(k, h, u) {
      assert CallRec(y.k, y.h, u) && ThreadRec(y.k, y.h, u);
      if u != t && k.threads[u].alive && k.threads[u].at != User { assert PeerOk(y.h, y.h.cur[u]); }
    }
  }

  lemma DirectAnswers(y: Sys, t: nat, e: nat, m: Msg, op: OpKind)
    requires Base(y) && Answers(y) && Ready(y.k, t) && e < |y.k.eps| && op != RECV
    requires y.k.eps[e].recvQ != []
    ensures y.k.eps[e].recvQ[0] < |y.k.threads| && y.h.cur[y.k.eps[e].recvQ[0]] < |y.h.ops|
    ensures var k1 := DirectTransfer(y.k, t, e, m, op);
            var k := if op == CALL then AwaitReply(k1, t).0 else k1;
            Answers(Sys(k, DirectHist(y.h, t, y.k.eps[e].recvQ[0], e, m, op)))
  {
    hide QInv, PInv, CopySlice;
    HeadQueued(y.k, e);
    HeadRec(y, e);
    var r := y.k.eps[e].recvQ[0];
    var k1 := DirectTransfer(y.k, t, e, m, op);
    var k := if op == CALL then AwaitReply(k1, t).0 else k1;
    var h := DirectHist(y.h, t, r, e, m, op);
    assert ThreadRec(y.k, y.h, r);
    forall i | 0 <= i < |h.ops| ensures AnswerOk(h, i) {
      if i < |y.h.ops| { assert AnswerOk(y.h, i) && PeerOk(y.h, i) && ResultOk(y.h, i); }
    }
    forall u | 0 <= u < |k.threads| ensures CallRec(k, h, u) {
      assert CallRec(y.k, y.h, u) && ThreadRec(y.k, y.h, u);
    }
  }

  lemma TakeAnswers(y: Sys, t: nat, e: nat, m: Msg)
    requires Base(y) && Answers(y) && Ready(y.k, t) && e < |y.k.eps|
    requires y.k.eps[e].sendQ != []
    ensures y.k.eps[e].sendQ[0] < |y.k.threads| && y.h.cur[y.k.eps[e].sendQ[0]] < |y.h.ops|
    ensures Answers(Sys(TakeSender(y.k, t, e), TakeHist(y.h, t, y.k.eps[e].sendQ[0], e, m)))
  {
    hide QInv, PInv, CopySlice;
    HeadQueued(y.k, e);
    HeadRec(y, e);
    var s := y.k.eps[e].sendQ[0];
    var k := TakeSender(y.k, t, e);
    var h := TakeHist(y.h, t, s, e, m);
    assert ThreadRec(y.k, y.h, s) && ResultOk(y.h, y.h.cur[s]);
    forall i | 0 <= i < |h.ops| ensures AnswerOk(h, i) {
      if i < |y.h.ops| { assert AnswerOk(y.h, i) && PeerOk(y.h, i) && ResultOk(y.h, i); }
    }
    forall u | 0 <= u < |k.threads| ensures CallRec(k, h, u) {
      assert CallRec(y.k, y.h, u) && ThreadRec(y.k, y.h, u);
    }
  }

  /** Answering a waiting caller, by a reply or by the server's exit. */
  lemma AnswerAnswers(y: Sys, k: Kernel, t: nat, a: Answer)
    requires PInv(y.k) && Book(y) && Debts(y.k) && Answers(y) && Ready(y.k, t) && y.k.threads[t].caller.Some?
    requires |k.threads| == |y.k.threads| && y.k.threads[t].caller.value < |y.k.threads|
    requires forall u | 0 <= u < |k.threads| && u != y.k.threads[t].caller.value && u != t :: k.threads[u] == y.k.threads[u]
    requires k.threads[t].at == User
    requires var C' := k.threads[y.k.threads[t].caller.value];
             !C'.pending
             && AnswerRet(a) == if C'.replyResult == OK then Done(OK, Msg(C'.replyTag, C'.replyRegs)) else Fail(C'.replyResult)
    requires a.server == t
    ensures Answers(Sys(k, Answered(y.h, y.k.threads[t].caller.value, a)))
  {
    CallerRec(y, t);
    var c := y.k.threads[t].caller.value;
    assert CallerOk(y.k, t);
    var h := Answered(y.h, c, a);
    forall i | 0 <= i < |h.ops| ensures AnswerOk(h, i) {
      assert AnswerOk(y.h, i);
    }
    forall u | 0 <= u < |k.threads| ensures CallRec(k, h, u) {
      assert CallRec(y.k, y.h, u) && ThreadRec(y.k, y.h, u);
    }
  }

  lemma ReplyAnswers(y: Sys, t: nat, m: Msg)
    requires Base(y) && Debts(y.k) && Answers(y) && Enabled(y, AReply(t, m))
    ensures Answers(Step(y, AReply(t, m)))
  {
    hide QInv, Book, Answers, SliceError, CopySlice, Answered;
    if y.k.threads[t].caller.Some? {
      var c := y.k.threads[t].caller.value;
      var err := SliceError(y.k.windows, y.k.threads[t].proc, y.k.threads[c].proc, m);
      AnswerAnswers(y, Reply(y.k, t, m).0, t, Answer(t, err, Msg(m.tag, m.regs)));
    }
  }

  lemma ExitAnswers(y: Sys, t: nat)
    requires Base(y) && Debts(y.k) && Answers(y) && Enabled(y, AExit(t))
    ensures Answers(Step(y, AExit(t)))
  {
    hide QInv, Answered;
    assert PlaceOk(y.k.threads[t]);
    if y.k.threads[t].caller.Some? {
      AnswerAnswers(y, Exit(y.k, t), t, Answer(t, ERR_DEAD, NoMsg));
    } else {
      var k := Exit(y.k, t);
      forall u | 0 <= u < |k.threads| ensures CallRec(k, y.h, u) {
        assert CallRec(y.k, y.h, u);
      }
    }
  }

  lemma ResumeAnswers(y: Sys, t: nat)
    requires Base(y) && Answers(y) && Enabled(y, AResume(t))
    ensures Answers(Step(y, AResume(t)))
  {
    hide QInv, Drop;
    ResumeRec(y, t);
    var k, h := Resume(y.k, t).0, RecordResume(y, t);
    assert ThreadRec(y.k, y.h, t) && PlaceOk(y.k.threads[t]) && CallRec(y.k, y.h, t);
    forall i | 0 <= i < |h.ops| ensures AnswerOk(h, i) {
      assert AnswerOk(y.h, i) && ResultOk(y.h, i);
    }
    forall u | 0 <= u < |k.threads| ensures CallRec(k, h, u) {
      assert CallRec(y.k, y.h, u) && ThreadRec(y.k, y.h, u);
    }
  }

  lemma AppendAnswers(y: Sys, T: Thread)
    requires Answers(y) && T.at == User
    ensures Answers(Sys(y.k.(threads := y.k.threads + [T]), y.h.(cur := y.h.cur + [0])))
  {
    var k, h := y.k.(threads := y.k.threads + [T]), y.h.(cur := y.h.cur + [0]);
    forall i | 0 <= i < |h.ops| ensures AnswerOk(h, i) {
      assert AnswerOk(y.h, i);
    }
    forall u | 0 <= u < |k.threads| ensures CallRec(k, h, u) {
      if u < |y.k.threads| { assert CallRec(y.k, y.h, u); }
    }
  }

  /** An operation that has failed has no answer. */
  lemma FailAnswers(y: Sys, t: nat, e: nat, m: Msg, op: OpKind, err: int)
    requires Book(y) && Answers(y) && Ready(y.k, t)
    ensures var id := |y.h.ops|;
            var h := SetDone(Start(y.h, t, Fresh(op, t, e, m)), id, err);
            Answers(Sys(y.k, if op == CALL then SetFinished(h, id, Fail(err)) else h))
  {
    var id := |y.h.ops|;
    var h0 := Start(y.h, t, Fresh(op, t, e, m));
    var h1 := SetDone(h0, id, err);
    var h := if op == CALL then SetFinished(h1, id, Fail(err)) else h1;
    StartAnswers(y, y.k, t, Fresh(op, t, e, m));
    forall i | 0 <= i < |h.ops| ensures AnswerOk(h, i) {
      assert AnswerOk(h0, i);
    }
    forall u | 0 <= u < |y.k.threads| ensures CallRec(y.k, h, u) {
      assert CallRec(y.k, h0, u) && ThreadRec(y.k, y.h, u);
    }
  }

  lemma SendAnswers(y: Sys, t: nat, e: nat, m: Msg, op: OpKind, mem: bool)
    requires Base(y) && Answers(y) && Ready(y.k, t) && e < |y.k.eps| && op != RECV
    ensures y.k.eps[e].recvQ != [] ==> y.k.eps[e].recvQ[0] < |y.k.threads|
    ensures var k := if op == CALL then Call(y.k, t, e, m, mem).0 else SendOp(y.k, t, e, m, op, mem).0;
            Answers(Sys(k, RecordSend(y, t, e, m, op, mem)))
  {
    hide QInv, Book, Answers, SliceError, DirectTransfer;
    HeadRec(y, e);
    var (k1, ret) := SendOp(y.k, t, e, m, op, mem);
    if ret.Blocked? {
      StartAnswers(y, k1, t, Fresh(op, t, e, m));
    } else if ret.res == OK {
      DirectAnswers(y, t, e, m, op);
    } else {
      FailAnswers(y, t, e, m, op, ret.res);
      assert PlaceOk(y.k.threads[t]);
      assert op == CALL ==> CallTail(k1, t, ret.res).0.threads == k1.threads;
    }
  }

  lemma RecvAnswers(y: Sys, t: nat, e: nat, m: Msg, mem: bool)
    requires Base(y) && Answers(y) && Enabled(y, ARecv(t, e, m, mem))
    ensures Answers(Step(y, ARecv(t, e, m, mem)))
  {
    hide QInv, PInv, Book, Answers, SliceError, TakeSender;
    HeadQueued(y.k, e);
    HeadRec(y, e);
    var (k1, ret) := Recv(y.k, t, e, m, mem);
    if ret.Blocked? {
      StartAnswers(y, k1, t, Fresh(RECV, t, e, m));
    } else if y.k.eps[e].sendQ != [] && ret.res == OK {
      TakeAnswers(y, t, e, m);
    } else {
      BookFrame(y, k1);
      AnswersFrame(y, k1);
      FailAnswers(Sys(k1, y.h), t, e, m, RECV, ret.res);
    }
  }

  lemma DestroyAnswers(y: Sys, e: nat)
    requires Base(y) && Answers(y) && Enabled(y, ADestroy(e))
    ensures Answers(Step(y, ADestroy(e)))
  {
    hide Book, Answers, QInv, PInv;
    HeadQueued(y.k, e);
    FailAllSpec(y.k.threads, y.k.eps[e].sendQ);
    FailAllSpec(FailAll(y.k.threads, y.k.eps[e].sendQ), y.k.eps[e].recvQ);
    AnswersFrame(y, Destroy(y.k, e));
  }

  lemma StepAnswers(y: Sys, a: Action)
    requires Base(y) && Debts(y.k) && Answers(y) && Enabled(y, a)
    ensures Answers(Step(y, a))
  {
    hide QInv, PInv, Book, Debts, Answers, SendOp, Call, Recv, Reply, Resume, Exit, Destroy;
    match a
    case ASend(t, e, m, mem) => SendAnswers(y, t, e, m, SEND, mem);
    case ACall(t, e, m, mem) => SendAnswers(y, t, e, m, CALL, mem);
    case ARecv(t, e, m, mem) => RecvAnswers(y, t, e, m, mem);
    case AReply(t, m) => ReplyAnswers(y, t, m);
    case AResume(t) => ResumeAnswers(y, t);
    case AExit(t) => ExitAnswers(y, t);
    case ADestroy(e) => DestroyAnswers(y, e);
    case AFork(t, p) => AppendAnswers(y, y.k.threads[t].(proc := p));
    case AWake(t) => AnswersFrame(y, Wake(y.k, t));
    case ANewThread(p) => AppendAnswers(y, IdleThread.(proc := p));
    case ANewEndpoint => AnswersFrame(y, y.k.(eps := y.k.eps + [Endpoint(false, [], [], 0, 0)]));
  }
}
