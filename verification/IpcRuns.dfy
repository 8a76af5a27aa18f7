/**
 The theorems about whole runs of message passing.
 */
module IpcRuns {

  import opened Common
  import opened Ipc
  import opened IpcInv
  import opened IpcHistory
  import opened IpcSteps
  import opened IpcBook
  import opened IpcAnswers
  import opened IpcOrder

  lemma StepSound(y: Sys, a: Action)
    requires Sound(y) && Enabled(y, a)
    ensures Sound(Step(y, a))
  {
    hide QInv, PInv, Book, Order, Counts, KStep, Record;
    StepQ(y, a);
    StepP(y, a);
    StepBook(y, a);
    StepOrder(y, a);
  }

  /** Nobody forks while it owes a reply. */
  lemma StepFair(y: Sys, a: Action)
    requires Fair(y) && Enabled(y, a) && !DebtorForks(y, a)
    ensures Fair(Step(y, a))
  {
    hide QInv, PInv, Book, Order, Counts, Debts, Answers, KStep, Record;
    StepSound(y, a);
    DebtsSurviveIff(y, a);
    StepAnswers(y, a);
  }

  lemma StepGood(y: Sys, a: Action)
    requires Good(y) && Enabled(y, a) && Disciplined(y, a)
    ensures Good(Step(y, a))
  {
    hide QInv, PInv, Book, Order, Counts, Answers, Links, KStep, Record;
    DisciplineIsExact(y, a);
    StepFair(y, a);
  }

  ghost predicate EnabledRun(y: Sys, acts: seq<Action>)
    requires Sound(y)
    decreases |acts|
  {
    acts == [] || (Enabled(y, acts[0]) && (StepSound(y, acts[0]); EnabledRun(Step(y, acts[0]), acts[1..])))
  }

  ghost function Run(y: Sys, acts: seq<Action>): Sys
    requires Sound(y) && EnabledRun(y, acts)
    decreases |acts|
  {
    if acts == [] then y else StepSound(y, acts[0]); Run(Step(y, acts[0]), acts[1..])
  }

  ghost predicate FairRun(y: Sys, acts: seq<Action>)
    requires Sound(y) && EnabledRun(y, acts)
    decreases |acts|
  {
    acts == [] ||
    (!DebtorForks(y, acts[0]) && (StepSound(y, acts[0]); FairRun(Step(y, acts[0]), acts[1..])))
  }

  ghost predicate DisciplinedRun(y: Sys, acts: seq<Action>)
    requires Sound(y) && EnabledRun(y, acts)
    decreases |acts|
  {
    acts == [] ||
    (Disciplined(y, acts[0]) && (StepSound(y, acts[0]); DisciplinedRun(Step(y, acts[0]), acts[1..])))
  }

  /** The machine before the first thread and endpoint exist. */
  const Boot := Sys(Kernel([], [], map[], 0, 0), History([], []))

  lemma BootGood()
    ensures Good(Boot)
  {
  }

  // ------------------------------------------------------------- exactly once

  /** What has been recorded is never changed: partners, results, answers and final results are set once. */
  predicate KeepsRec(r: OpRec, r': OpRec) {
    && r'.kind == r.kind && r'.thread == r.thread && r'.ep == r.ep
    && (r.peer.Some? ==> r'.peer == r.peer && r'.msg == r.msg)
    && (r.done.Some? ==> r'.done == r.done)
    && (r.answer.Some? ==> r'.answer == r.answer)
    && (r.finished.Some? ==> r'.finished == r.finished)
  }

  ghost predicate Extends(h: History, h': History) {
    |h.ops| <= |h'.ops| && forall i | 0 <= i < |h.ops| :: KeepsRec(h.ops[i], h'.ops[i])
  }

  lemma StepExtends(y: Sys, a: Action)
    requires Sound(y) && Enabled(y, a)
    ensures Extends(y.h, Record(y, a))
  {
    hide Order, Counts, SliceError;
    match a
    case ASend(t, e, m, mem) => SendExtends(y, t, e, m, SEND, mem);
    case ACall(t, e, m, mem) => SendExtends(y, t, e, m, CALL, mem);
    case ARecv(t, e, m, mem) => RecvExtends(y, t, e, m, mem);
    case AReply(t, m) =>
    case AResume(t) => ResumeExtends(y, t);
    case AExit(t) =>
    case _ =>
  }

  lemma SendExtends(y: Sys, t: nat, e: nat, m: Msg, op: OpKind, mem: bool)
    requires QInv(y.k) && Book(y) && Ready(y.k, t) && e < |y.k.eps|
    ensures Extends(y.h, RecordSend(y, t, e, m, op, mem))
  {
    hide QInv;
    HeadQueued(y.k, e);
    HeadRec(y, e);
    if y.k.eps[e].recvQ != [] {
      assert ThreadRec(y.k, y.h, y.k.eps[e].recvQ[0]);
    }
  }

  lemma RecvExtends(y: Sys, t: nat, e: nat, m: Msg, mem: bool)
    requires QInv(y.k) && Book(y) && Ready(y.k, t) && e < |y.k.eps|
    ensures Extends(y.h, RecordRecv(y, t, e, m, mem))
  {
    hide QInv;
    HeadQueued(y.k, e);
    HeadRec(y, e);
    if y.k.eps[e].sendQ != [] {
      assert ThreadRec(y.k, y.h, y.k.eps[e].sendQ[0]);
    }
  }

  lemma ResumeExtends(y: Sys, t: nat)
    requires QInv(y.k) && Book(y) && Valid(y.k, t) && y.k.threads[t].at != User
    ensures Extends(y.h, RecordResume(y, t))
  {
    hide QInv;
    ResumeRec(y, t);
    assert ThreadRec(y.k, y.h, t);
  }

  lemma ExtendsTrans(a: History, b: History, c: History)
    requires Extends(a, b) && Extends(b, c)
    ensures Extends(a, c)
  {
    forall i | 0 <= i < |a.ops| ensures KeepsRec(a.ops[i], c.ops[i]) {
      assert KeepsRec(a.ops[i], b.ops[i]) && KeepsRec(b.ops[i], c.ops[i]);
    }
  }

  /**
   Every run keeps the queues, the places, the matching, its order and its counts, and
   never rewrites what it has recorded.
   */
  lemma {:induction false} RunSound(y: Sys, acts: seq<Action>)
    requires Sound(y) && EnabledRun(y, acts)
    ensures Sound(Run(y, acts)) && Extends(y.h, Run(y, acts).h)
    decreases |acts|
  {
    hide Sound, Extends, Enabled, Step;
    if acts == [] {
      ExtendsRefl(y.h);
    } else {
      StepSound(y, acts[0]);
      SoundParts(y);
      StepExtends(y, acts[0]);
      assert Step(y, acts[0]).h == Record(y, acts[0]) by { StepHistory(y, acts[0]); }
      RunSound(Step(y, acts[0]), acts[1..]);
      ExtendsTrans(y.h, Step(y, acts[0]).h, Run(y, acts).h);
    }
  }

  /** Every run in which nobody forks while owing a reply also keeps debts owed to waiting callers, and answers right. */
  lemma {:induction false} RunFair(y: Sys, acts: seq<Action>)
    requires Fair(y) && EnabledRun(y, acts) && FairRun(y, acts)
    ensures Fair(Run(y, acts))
    decreases |acts|
  {
    hide Debts, Answers, Order, Counts, Base, Enabled, DebtorForks, Step;
    if acts != [] {
      StepFair(y, acts[0]);
      SoundParts(y);
      RunFair(Step(y, acts[0]), acts[1..]);
    }
  }

  /** Every disciplined run also keeps callers and servers linked. */
  lemma {:induction false} RunGood(y: Sys, acts: seq<Action>)
    requires Good(y) && EnabledRun(y, acts) && DisciplinedRun(y, acts)
    ensures Good(Run(y, acts))
    decreases |acts|
  {
    hide Links, Answers, Order, Counts, Base, Enabled, Disciplined, Step;
    if acts != [] {
      StepGood(y, acts[0]);
      SoundParts(y);
      RunGood(Step(y, acts[0]), acts[1..]);
    }
  }

  lemma StepHistory(y: Sys, a: Action)
    requires Base(y) && Enabled(y, a)
    ensures Step(y, a).h == Record(y, a)
  {
  }

  lemma SoundParts(y: Sys)
    requires Sound(y)
    ensures Base(y)
  {
  }

  lemma ExtendsRefl(h: History)
    ensures Extends(h, h)
  {
  }

  // ------------------------------------------------------------- the theorems

  ghost function Servers(k: Kernel, c: nat): set<nat> {
    set s: nat | s < |k.threads| && k.threads[s].alive && k.threads[s].caller == Some(c)
  }

  /** A caller is owed a reply if and only if exactly one live thread points back at it; never more than one does. */
  lemma PendingIffOneServer(k: Kernel, c: nat)
    requires Links(k) && c < |k.threads|
    ensures k.threads[c].pending <==> |Servers(k, c)| == 1
    ensures !k.threads[c].pending <==> Servers(k, c) == {}
  {
    assert PendingOk(k, c);
    forall s: nat | s in Servers(k, c) ensures k.threads[c].pending && k.threads[c].server == Some(s) {
      assert CallerOk(k, s);
    }
    if k.threads[c].pending {
      var s := k.threads[c].server.value;
      assert CallerOk(k, s);
      assert Servers(k, c) == {s};
    } else {
      assert Servers(k, c) == {};
    }
  }

  /**
   A call whose request was received is in one of two states.  Unanswered: the
   caller is inside the call, and the thread that received the request is alive and
   points back at it.  Answered: by that same thread, and once the call returns it
   returns exactly that answer.  The caller's server may have turned to another call
   only in runs that are not disciplined.
   */
  lemma CallStatus(y: Sys, i: nat)
    requires Fair(y) && i < |y.h.ops| && y.h.ops[i].kind == CALL && y.h.ops[i].peer.Some?
    ensures y.h.ops[i].peer.value < |y.h.ops|
    ensures var r := y.h.ops[i]; var s := y.h.ops[r.peer.value].thread;
            && (r.answer.None? ==>
                  && r.thread < |y.k.threads| == |y.h.cur| && y.h.cur[r.thread] == i && r.finished.None?
                  && y.k.threads[r.thread].alive && y.k.threads[r.thread].pending
                  && (Links(y.k) ==> s < |y.k.threads| && y.k.threads[s].alive && y.k.threads[s].caller == Some(r.thread)))
            && (r.answer.Some? ==> r.answer.value.server == s)
            && (r.finished.Some? ==> r.answer.Some? && r.finished.value == AnswerRet(r.answer.value))
  {
    hide QInv, Order, Counts;
    assert PeerOk(y.h, i) && AnswerOk(y.h, i) && InFlight(y.k, y.h, i);
    var r := y.h.ops[i];
    if r.answer.None? {
      assert ThreadRec(y.k, y.h, r.thread) && CallRec(y.k, y.h, r.thread) && PlaceOk(y.k.threads[r.thread]);
      if Links(y.k) {
        assert PendingOk(y.k, r.thread);
        assert CallerOk(y.k, y.k.threads[r.thread].server.value);
      }
    }
  }

  /** An answer appears only when the server that received the call replies or exits. */
  lemma AnswerComesFromServer(y: Sys, a: Action, i: nat)
    requires Fair(y) && Enabled(y, a) && i < |y.h.ops| && y.h.ops[i].answer.None?
    requires i < |Record(y, a).ops| && Record(y, a).ops[i].answer.Some?
    ensures (a.AReply? || a.AExit?) && a.t < |y.k.threads| && y.k.threads[a.t].caller.Some?
    ensures y.h.ops[i].peer.Some? && y.h.ops[i].peer.value < |y.h.ops|
    ensures y.h.ops[y.h.ops[i].peer.value].thread == a.t
    ensures var c := y.k.threads[a.t].caller.value;
            && c < |y.h.cur| && c < |y.k.threads| && y.h.cur[c] == i
            && Record(y, a).ops[i].answer.value ==
                 if a.AExit? then Answer(a.t, ERR_DEAD, NoMsg)
                 else Answer(a.t, SliceError(y.k.windows, y.k.threads[a.t].proc, y.k.threads[c].proc, a.m), Msg(a.m.tag, a.m.regs))
  {
    hide QInv, Order, Counts, SliceError;
    if a.AReply? || a.AExit? {
      assert CallerOk(y.k, a.t);
      if y.k.threads[a.t].caller.Some? { CallerRec(y, a.t); }
    } else {
      OthersKeepAnswers(y, a, i);
    }
  }

  lemma OthersKeepAnswers(y: Sys, a: Action, i: nat)
    requires Base(y) && Enabled(y, a) && !a.AReply? && !a.AExit? && i < |y.h.ops|
    ensures i < |Record(y, a).ops| && Record(y, a).ops[i].answer == y.h.ops[i].answer
  {
    hide QInv, PInv, Book, SendOp, Recv, Resume;
    BookSizes(y);
    match a
    case ASend(t, e, m, mem) => HeadRec(y, e);
    case ACall(t, e, m, mem) => HeadRec(y, e);
    case ARecv(t, e, m, mem) => HeadRec(y, e);
    case AResume(t) => ResumeRec(y, t);
    case _ =>
  }

  /**
   A send returned OK exactly when it was matched with one receive on the same
   endpoint that got the same tag and registers; the matching is one to one and
   keeps the order in which the operations started.
   */
  lemma SendsMatchReceives(y: Sys, i: nat, j: nat)
    requires Sound(y) && i < |y.h.ops| && j < |y.h.ops| && y.h.ops[i].kind != RECV && y.h.ops[j].kind != RECV
    requires y.h.ops[i].done.Some? && y.h.ops[j].done.Some?
    ensures y.h.ops[i].done.value == OK <==> y.h.ops[i].peer.Some?
    ensures y.h.ops[i].peer.Some? ==>
              var p := y.h.ops[i].peer.value;
              && p < |y.h.ops| && y.h.ops[p].kind == RECV && y.h.ops[p].peer == Some(i)
              && y.h.ops[p].ep == y.h.ops[i].ep && y.h.ops[p].msg == y.h.ops[i].msg
              && (y.h.ops[p].done.Some? ==> y.h.ops[p].done.value == OK)
    ensures y.h.ops[i].done.value == OK && y.h.ops[j].done.value == OK && i != j ==>
              y.h.ops[i].peer != y.h.ops[j].peer
    ensures y.h.ops[j].done.value == OK <==> y.h.ops[j].peer.Some?
    ensures y.h.ops[i].peer.Some? && y.h.ops[j].peer.Some? && i < j && y.h.ops[i].ep == y.h.ops[j].ep ==>
              y.h.ops[i].peer.value < y.h.ops[j].peer.value
  {
    hide QInv, PInv, Counts;
    assert PeerOk(y.h, i) && ResultOk(y.h, i) && PeerOk(y.h, j) && ResultOk(y.h, j);
    if y.h.ops[i].peer.Some? {
      assert ResultOk(y.h, y.h.ops[i].peer.value);
      assert MatchedOn(y.h, i, y.h.ops[i].ep, false);
    }
    if y.h.ops[j].peer.Some? {
      assert MatchedOn(y.h, j, y.h.ops[j].ep, false);
    }
  }

  /** A receive returned OK exactly when it was matched, and then with the sender's message. */
  lemma ReceivesMatchSends(y: Sys, j: nat)
    requires Sound(y) && j < |y.h.ops| && y.h.ops[j].kind == RECV && y.h.ops[j].done.Some?
    ensures y.h.ops[j].done.value == OK <==> y.h.ops[j].peer.Some?
    ensures y.h.ops[j].peer.Some? ==>
              var i := y.h.ops[j].peer.value;
              i < |y.h.ops| && y.h.ops[i].kind != RECV && y.h.ops[i].peer == Some(j) && y.h.ops[i].msg == y.h.ops[j].msg
  {
    hide QInv, PInv, Counts, Order;
    assert PeerOk(y.h, j) && ResultOk(y.h, j);
  }

  /** What a receive hands to its caller is the message recorded for it. */
  lemma ReceivedIsRecorded(y: Sys, a: Action)
    requires Sound(y) && Enabled(y, a) && KStep(y, a).1.Done? && KStep(y, a).1.res == OK
    requires a.ARecv? || (a.AResume? && y.k.threads[a.t].at == RecvWait)
    ensures var h := Record(y, a);
            && a.t < |h.cur| && h.cur[a.t] < |h.ops|
            && h.ops[h.cur[a.t]].done == Some(OK) && h.ops[h.cur[a.t]].msg == KStep(y, a).1.msg
  {
    hide QInv, PInv, Order, Counts, SliceError;
    if a.ARecv? {
      HeadQueued(y.k, a.e);
      HeadRec(y, a.e);
      if y.k.eps[a.e].sendQ != [] {
        assert ThreadRec(y.k, y.h, y.k.eps[a.e].sendQ[0]);
      }
    } else {
      ResumeRec(y, a.t);
      assert ThreadRec(y.k, y.h, a.t);
    }
  }

  /** Nobody sleeps without something that will wake them; a server does so in disciplined runs. */
  lemma SleepersAreAwaited(k: Kernel, t: nat)
    requires QInv(k) && PInv(k) && Valid(k, t) && k.threads[t].asleep
    ensures var T := k.threads[t];
            match T.at
            case User => false
            case SendWait => T.ep < |k.eps| && !k.eps[T.ep].dead && t in k.eps[T.ep].sendQ && k.eps[T.ep].recvQ == []
            case RecvWait => T.ep < |k.eps| && !k.eps[T.ep].dead && t in k.eps[T.ep].recvQ && k.eps[T.ep].sendQ == []
            case ReplyWait => T.pending
                              && (Links(k) ==> T.server.Some? && T.server.value < |k.threads|
                                               && k.threads[T.server.value].alive && k.threads[T.server.value].caller == Some(t))
  {
    var T := k.threads[t];
    assert PlaceOk(T) && SleeperOk(k, t);
    if T.at == SendWait || T.at == RecvWait {
      assert EndpointOk(k, T.ep);
    } else if T.at == ReplyWait && Links(k) {
      assert PendingOk(k, t);
      assert CallerOk(k, T.server.value);
    }
  }

  /** A second call handed to a server that still owes a reply leaves the first caller waiting for nobody. */
  lemma SecondCallOrphansFirst(y: Sys, t: nat, e: nat, m: Msg, mem: bool) returns (c: nat)
    requires Good(y) && Enabled(y, ACall(t, e, m, mem)) && !Disciplined(y, ACall(t, e, m, mem))
    ensures var k := KStep(y, ACall(t, e, m, mem)).0;
            c < |k.threads| && k.threads[c].alive && k.threads[c].pending && Servers(k, c) == {}
  {
    hide QInv, Book, Order, Counts, SliceError, CopySlice;
    HeadQueued(y.k, e);
    HeadRec(y, e);
    var s := y.k.eps[e].recvQ[0];
    c := y.k.threads[s].caller.value;
    assert CallerOk(y.k, s) && PlaceOk(y.k.threads[t]);
    var k := KStep(y, ACall(t, e, m, mem)).0;
    forall u: nat | u < |k.threads| ensures k.threads[u].caller != Some(c) {
      assert CallerOk(y.k, u);
      assert u != s ==> k.threads[u].caller == y.k.threads[u].caller;
    }
  }

  /** So does a server that owes a reply and receives a call that was queued. */
  lemma SecondRecvOrphansFirst(y: Sys, t: nat, e: nat, m: Msg, mem: bool) returns (c: nat)
    requires Good(y) && Enabled(y, ARecv(t, e, m, mem)) && !Disciplined(y, ARecv(t, e, m, mem))
    ensures var k := KStep(y, ARecv(t, e, m, mem)).0;
            c < |k.threads| && k.threads[c].alive && k.threads[c].pending && Servers(k, c) == {}
  {
    hide QInv, Book, Order, Counts, SliceError, CopySlice;
    HeadQueued(y.k, e);
    HeadRec(y, e);
    c := y.k.threads[t].caller.value;
    assert CallerOk(y.k, t) && PlaceOk(y.k.threads[y.k.eps[e].sendQ[0]]);
    var k := KStep(y, ARecv(t, e, m, mem)).0;
    forall u: nat | u < |k.threads| ensures k.threads[u].caller != Some(c) {
      assert CallerOk(y.k, u);
      assert u != t ==> k.threads[u].caller == y.k.threads[u].caller;
    }
  }

  /** A debtor's fork lets the child answer a call that its parent received. */
  lemma ForkedDebtAnswersWrong(y: Sys, t: nat, p: Option<nat>, m: Msg)
    requires Fair(y) && Enabled(y, AFork(t, p)) && DebtorForks(y, AFork(t, p))
    ensures Sound(Step(y, AFork(t, p))) && Enabled(Step(y, AFork(t, p)), AReply(|y.k.threads|, m))
    ensures !Answers(Step(Step(y, AFork(t, p)), AReply(|y.k.threads|, m)))
  {
    hide QInv, PInv, Order, Counts, SliceError, CopySlice;
    StepSound(y, AFork(t, p));
    CallerRec(y, t);
    var c := y.k.threads[t].caller.value;
    var y1 := Step(y, AFork(t, p));
    var y2 := Step(y1, AReply(|y.k.threads|, m));
    assert Open(y1.h, c) && y1.h.cur[c] == y.h.cur[c];
    assert !AnswerOk(y2.h, y.h.cur[c]);
  }
}
