/**
 Every step of every run keeps the queues and the places of the threads.  A step
 keeps debts owed to waiting callers exactly when it is not the fork of a debtor,
 and keeps callers and servers linked exactly when it is disciplined.
 */
module IpcSteps {

  import opened Common
  import opened Ipc
  import opened IpcInv
  import opened IpcPlaces
  import opened IpcLinks
  import opened IpcHistory

  lemma StepQ(y: Sys, a: Action)
    requires Base(y) && Enabled(y, a)
    ensures QInv(KStep(y, a).0)
  {
    hide QInv, PInv, Book, SliceError, Destroy, DirectTransfer, TakeSender, EnqueueSender, EnqueueReceiver, RefuseSender;
    match a
    case ASend(t, e, m, mem) => SendOpQ(y, t, e, m, SEND, mem);
    case ACall(t, e, m, mem) =>
      SendOpQ(y, t, e, m, CALL, mem);
      CallQ(y, t, e, m, mem);
    case ARecv(t, e, m, mem) => RecvQ(y, t, e, m, mem);
    case AReply(t, m) => ReplyQ(y, t, m);
    case AResume(t) => ResumeRec(y, t); ResumeQ(y.k, t);
    case AExit(t) => ExitQ(y, t);
    case ADestroy(e) => DestroyQ(y.k, e);
    case AFork(t, p) => AppendQ(y.k, y.k.threads[t].(proc := p));
    case AWake(t) => QFrame(y.k, Wake(y.k, t));
    case ANewThread(p) => AppendQ(y.k, IdleThread.(proc := p));
    case ANewEndpoint => NewEndpointQ(y.k);
  }

  lemma SendOpQ(y: Sys, t: nat, e: nat, m: Msg, op: OpKind, mem: bool)
    requires QInv(y.k) && Book(y) && Ready(y.k, t) && e < |y.k.eps|
    ensures y.k.eps[e].recvQ != [] ==> y.k.eps[e].recvQ[0] < |y.k.threads|
    ensures QInv(SendOp(y.k, t, e, m, op, mem).0)
  {
    hide QInv, Book, SliceError, DirectTransfer, EnqueueSender;
    HeadRec(y, e);
    var E := y.k.eps[e];
    if E.recvQ != [] {
      DirectTransferQ(y.k, t, e, m, op);
    } else if !E.dead {
      EnqueueQ(y.k, t, e, m, op);
    }
  }

  lemma CallQ(y: Sys, t: nat, e: nat, m: Msg, mem: bool)
    requires QInv(y.k) && Book(y) && Ready(y.k, t) && e < |y.k.eps|
    requires y.k.eps[e].recvQ != [] ==> y.k.eps[e].recvQ[0] < |y.k.threads|
    requires QInv(SendOp(y.k, t, e, m, CALL, mem).0)
    ensures QInv(Call(y.k, t, e, m, mem).0)
  {
    hide QInv, Book, SliceError, CopySlice;
    var (k1, ret) := SendOp(y.k, t, e, m, CALL, mem);
    if ret.Done? {
      HeadQueued(y.k, e);
      assert k1.threads[t].at == User;
      NotQueued(k1, t);
      AwaitReplyQ(k1, t);
    }
  }

  lemma RecvQ(y: Sys, t: nat, e: nat, m: Msg, mem: bool)
    requires QInv(y.k) && Book(y) && Ready(y.k, t) && e < |y.k.eps|
    ensures y.k.eps[e].sendQ != [] ==> y.k.eps[e].sendQ[0] < |y.k.threads|
    ensures QInv(Recv(y.k, t, e, m, mem).0)
  {
    hide QInv, Book, SliceError, TakeSender, RefuseSender, EnqueueReceiver;
    HeadRec(y, e);
    var E := y.k.eps[e];
    if E.sendQ != [] {
      TakeSenderQ(y.k, t, e);
      RefuseSenderQ(y.k, e, Recv(y.k, t, e, m, mem).1.res);
    } else if !E.dead {
      EnqueueQ(y.k, t, e, m, RECV);
    }
  }

  lemma ReplyQ(y: Sys, t: nat, m: Msg)
    requires QInv(y.k) && PInv(y.k) && Ready(y.k, t)
    ensures y.k.threads[t].caller.Some? ==> y.k.threads[t].caller.value < |y.k.threads|
    ensures QInv(Reply(y.k, t, m).0)
  {
    hide QInv, SliceError, CopySlice;
    QFrame(y.k, Reply(y.k, t, m).0);
  }

  lemma ExitQ(y: Sys, t: nat)
    requires QInv(y.k) && PInv(y.k) && Ready(y.k, t)
    ensures y.k.threads[t].caller.Some? ==> y.k.threads[t].caller.value < |y.k.threads|
    ensures y.k.threads[t].server.None? && QInv(Exit(y.k, t))
  {
    hide QInv;
    assert PlaceOk(y.k.threads[t]);
    var k1 := LeaveServer(FailCaller(y.k, t), t);
    QFrame(y.k, k1);
    NotQueued(k1, t);
    QFrameOne(k1, t, k1.threads[t].(alive := false));
  }

  lemma NewEndpointQ(k: Kernel)
    requires QInv(k)
    ensures QInv(k.(eps := k.eps + [Endpoint(false, [], [], 0, 0)]))
  {
    var k' := k.(eps := k.eps + [Endpoint(false, [], [], 0, 0)]);
    forall f | 0 <= f < |k'.eps| ensures EndpointOk(k', f) {
      if f < |k.eps| {
        assert EndpointOk(k, f);
        forall i | 0 <= i < |k.eps[f].sendQ| ensures QueuedAt(k', k.eps[f].sendQ[i], f, SendWait) {
          assert QueuedAt(k, k.eps[f].sendQ[i], f, SendWait);
        }
        forall i | 0 <= i < |k.eps[f].recvQ| ensures QueuedAt(k', k.eps[f].recvQ[i], f, RecvWait) {
          assert QueuedAt(k, k.eps[f].recvQ[i], f, RecvWait);
        }
      }
    }
    forall u | 0 <= u < |k'.threads| ensures SleeperOk(k', u) {
      assert SleeperOk(k, u);
    }
  }

  // ----------------------------------------------------------------- places

  lemma StepP(y: Sys, a: Action)
    requires Base(y) && Enabled(y, a)
    ensures PInv(KStep(y, a).0)
  {
    hide QInv, PInv, Book, SendOp, Call, Recv, Reply, Resume, Exit, Destroy;
    match a
    case ASend(t, e, m, mem) => SendP(y.k, t, e, m, SEND, mem);
    case ACall(t, e, m, mem) => SendP(y.k, t, e, m, CALL, mem);
    case ARecv(t, e, m, mem) => RecvP(y.k, t, e, m, mem);
    case AReply(t, m) => ReplyP(y.k, t, m);
    case AResume(t) => ResumeRec(y, t); ResumeP(y.k, t);
    case AExit(t) => ExitP(y.k, t);
    case ADestroy(e) => DestroyP(y.k, e);
    case AFork(t, p) => ForkP(y.k, t, p);
    case AWake(t) => WakeP(y.k, t);
    case ANewThread(p) => AppendP(y.k, IdleThread.(proc := p));
    case ANewEndpoint => NewEndpointP(y.k);
  }

  lemma ForkP(k: Kernel, t: nat, p: Option<nat>)
    requires PInv(k) && t < |k.threads|
    ensures PInv(Fork(k, t, p))
  {
    assert PlaceOk(k.threads[t]);
    AppendP(k, k.threads[t].(proc := p));
  }

  lemma NewEndpointP(k: Kernel)
    requires PInv(k)
    ensures PInv(k.(eps := k.eps + [Endpoint(false, [], [], 0, 0)]))
  {
  }

  // ------------------------------------------------------------------ links

  predicate DebtorForks(y: Sys, a: Action)
    requires Enabled(y, a)
  {
    a.AFork? && y.k.threads[a.t].caller.Some?
  }

  lemma SendL(y: Sys, t: nat, e: nat, m: Msg, mem: bool)
    requires Base(y) && Debts(y.k) && Enabled(y, ASend(t, e, m, mem))
    ensures var k := KStep(y, ASend(t, e, m, mem)).0; Debts(k) && (Links(y.k) ==> Links(k))
  {
    hide QInv, PInv, Book, SliceError, CopySlice, Links, Debts, DirectTransfer;
    HeadQueued(y.k, e);
    HeadRec(y, e);
    if y.k.eps[e].recvQ != [] {
      DirectTransferL(y.k, t, e, m, SEND);
    }
    LinksFrame(y.k, EnqueueSender(y.k, t, e, m, SEND));
  }

  lemma CallL(y: Sys, t: nat, e: nat, m: Msg, mem: bool)
    requires Base(y) && Debts(y.k) && Enabled(y, ACall(t, e, m, mem))
    ensures var k := KStep(y, ACall(t, e, m, mem)).0;
            Debts(k) && (Links(y.k) ==> (Links(k) <==> Disciplined(y, ACall(t, e, m, mem))))
  {
    hide QInv, Book, SliceError, CopySlice, Links, Debts, DirectTransfer;
    HeadQueued(y.k, e);
    HeadRec(y, e);
    assert PlaceOk(y.k.threads[t]);
    var (k1, ret) := SendOp(y.k, t, e, m, CALL, mem);
    if ret == Done(OK, NoMsg) && y.k.eps[e].recvQ != [] {
      DirectTransferL(y.k, t, e, m, CALL);
      DirectTransferP(y.k, t, e, m, CALL);
      CallTailL(k1, t, OK);
    } else if ret.Blocked? {
      LinksFrame(y.k, k1);
    } else {
      CallTailL(y.k, t, ret.res);
    }
  }

  lemma RecvL(y: Sys, t: nat, e: nat, m: Msg, mem: bool)
    requires Base(y) && Debts(y.k) && Enabled(y, ARecv(t, e, m, mem))
    ensures var k := KStep(y, ARecv(t, e, m, mem)).0;
            Debts(k) && (Links(y.k) ==> (Links(k) <==> Disciplined(y, ARecv(t, e, m, mem))))
  {
    hide QInv, PInv, Book, SliceError, CopySlice, Links, Debts, TakeSender;
    HeadQueued(y.k, e);
    HeadRec(y, e);
    var (k, ret) := Recv(y.k, t, e, m, mem);
    if !y.k.eps[e].dead && y.k.eps[e].sendQ != [] && ret.res == OK {
      TakeSenderL(y.k, t, e);
    } else {
      LinksFrame(y.k, k);
    }
  }

  lemma StepLinks(y: Sys, a: Action)
    requires Base(y) && Debts(y.k) && Enabled(y, a)
    ensures var k := KStep(y, a).0;
            (Debts(k) <==> !DebtorForks(y, a)) && (Links(y.k) ==> (Links(k) <==> Disciplined(y, a)))
  {
    hide QInv, PInv, Book, Links, Debts, SendOp, Call, Recv, Reply, Resume, Exit, Destroy;
    match a
    case ASend(t, e, m, mem) => SendL(y, t, e, m, mem);
    case ACall(t, e, m, mem) => CallL(y, t, e, m, mem);
    case ARecv(t, e, m, mem) => RecvL(y, t, e, m, mem);
    case AReply(t, m) => ReplyL(y.k, t, m);
    case AResume(t) => ResumeRec(y, t); ResumeL(y.k, t);
    case AExit(t) => ExitL(y.k, t);
    case ADestroy(e) => DestroyL(y.k, e);
    case AFork(t, p) => ForkIffFree(y.k, t, p);
    case AWake(t) => WakeL(y.k, t);
    case ANewThread(p) => NewThreadL(y.k, IdleThread.(proc := p));
    case ANewEndpoint => LinksFrame(y.k, KStep(y, a).0);
  }

  /** A step leaves every debt owed to a live, waiting caller if and only if it is not the fork of a debtor. */
  lemma DebtsSurviveIff(y: Sys, a: Action)
    requires Base(y) && Debts(y.k) && Enabled(y, a)
    ensures Debts(KStep(y, a).0) <==> !DebtorForks(y, a)
  {
    StepLinks(y, a);
  }

  /**
   The links between callers and servers survive a step if and only if the step is
   disciplined: a call handed to a server that owes a reply, or a fork by a thread
   that owes one, always breaks them.
   */
  lemma DisciplineIsExact(y: Sys, a: Action)
    requires Base(y) && Links(y.k) && Enabled(y, a)
    ensures Links(KStep(y, a).0) <==> Disciplined(y, a)
  {
    hide Disciplined, KStep, QInv, PInv, Book;
    StepLinks(y, a);
  }
}
