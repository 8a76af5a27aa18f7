/**
 Runs of message passing with a history of operations.  Every send, call and
 receive gets a number when it starts; the history records which receive a send
 was matched with, what each operation returned, and how each call was answered.
 */
module IpcHistory {

  import opened Common
  import opened Ipc
  import opened IpcInv

  /** How a call was answered, and by which thread. */
  datatype Answer = Answer(server: nat, res: int, reply: Msg)

  /**
   `msg` is the message sent, or for a receive the message it got.  `done` is the
   result of the send half or of the receive, `finished` that of the whole call.
   */
  datatype OpRec = OpRec(
    kind: OpKind, thread: nat, ep: nat, msg: Msg,
    peer: Option<nat>, done: Option<int>, answer: Option<Answer>, finished: Option<Ret>)

  /** `cur` is the number of the operation each thread started last. */
  datatype History = History(ops: seq<OpRec>, cur: seq<nat>)

  datatype Sys = Sys(k: Kernel, h: History)

  datatype Action =
    | ASend(t: nat, e: nat, m: Msg, mem: bool)
    | ACall(t: nat, e: nat, m: Msg, mem: bool)
    | ARecv(t: nat, e: nat, m: Msg, mem: bool)
    | AReply(t: nat, m: Msg)
    | AResume(t: nat)
    | AExit(t: nat)
    | ADestroy(e: nat)
    | AFork(t: nat, proc: Option<nat>)
    | AWake(t: nat)
    | ANewThread(proc: Option<nat>)
    | ANewEndpoint

  // ------------------------------------------------------------- recording

  function Start(h: History, t: nat, r: OpRec): History
    requires t < |h.cur|
  {
    History(h.ops + [r], h.cur[t := |h.ops|])
  }

  function Matched(h: History, s: nat, r: nat): History
    requires s < |h.ops| && r < |h.ops|
  {
    var o1 := h.ops[s := h.ops[s].(peer := Some(r))];
    h.(ops := o1[r := o1[r].(peer := Some(s), msg := h.ops[s].msg)])
  }

  function SetDone(h: History, i: nat, res: int): History
    requires i < |h.ops|
  {
    h.(ops := h.ops[i := h.ops[i].(done := Some(res))])
  }

  function SetFinished(h: History, i: nat, r: Ret): History
    requires i < |h.ops|
  {
    h.(ops := h.ops[i := h.ops[i].(finished := Some(r))])
  }

  function SetAnswer(h: History, i: nat, a: Answer): History
    requires i < |h.ops|
  {
    h.(ops := h.ops[i := h.ops[i].(answer := Some(a))])
  }

  function Fresh(kind: OpKind, t: nat, e: nat, m: Msg): OpRec {
    OpRec(kind, t, e, m, None, None, None, None)
  }

  // ------------------------------------------------------------- invariant

  /** A matched operation and its partner: one send, one receive, same endpoint, same message. */
  predicate PeerOk(h: History, i: nat)
    requires i < |h.ops|
  {
    h.ops[i].peer.Some? ==>
      var p := h.ops[i].peer.value;
      && p < |h.ops| && h.ops[p].peer == Some(i)
      && h.ops[p].ep == h.ops[i].ep && h.ops[p].msg == h.ops[i].msg
      && (h.ops[i].kind == RECV <==> h.ops[p].kind != RECV)
  }

  function AnswerRet(a: Answer): Ret {
    if a.res == OK then Done(OK, a.reply) else Fail(a.res)
  }

  /** What the recorded results say about the match. */
  predicate ResultOk(h: History, i: nat)
    requires i < |h.ops|
  {
    var r := h.ops[i];
    && (r.done.Some? ==> (r.done.value == OK <==> r.peer.Some?))
    && (r.answer.Some? ==> r.kind == CALL && r.peer.Some?)
    && (r.finished.Some? ==> r.kind == CALL && r.done.Some?)
    && (r.finished.Some? && r.peer.None? ==> r.finished.value == Fail(r.done.value))
  }

  predicate Complete(r: OpRec) {
    if r.kind == CALL then r.finished.Some? else r.done.Some?
  }

  /** An operation that has not returned is the current one of a live thread inside the kernel. */
  predicate InFlight(k: Kernel, h: History, i: nat)
    requires i < |h.ops|
  {
    !Complete(h.ops[i]) ==>
      var t := h.ops[i].thread;
      t < |k.threads| && t < |h.cur| && k.threads[t].alive && k.threads[t].at != User && h.cur[t] == i
  }

  /** The record of a thread's current operation agrees with the thread about its match. */
  predicate ThreadRec(k: Kernel, h: History, t: nat)
    requires t < |k.threads| == |h.cur|
  {
    var T := k.threads[t];
    T.alive && T.at != User ==>
      && h.cur[t] < |h.ops|
      && var r := h.ops[h.cur[t]];
      && r.thread == t && r.finished.None?
      && (T.at == SendWait ==> r.kind == T.op && r.kind != RECV && r.ep == T.ep && r.msg == T.buf && r.done.None?
                               && (T.result == OK <==> r.peer.Some?))
      && (T.at == RecvWait ==> r.kind == RECV && r.ep == T.ep && r.done.None?
                               && (T.result == OK <==> r.peer.Some?) && (r.peer.Some? ==> r.msg == T.buf))
      && (T.at == ReplyWait ==> r.kind == CALL && r.peer.Some? && r.done == Some(OK))
  }

  /** Sends and receives, in every run. */
  ghost predicate Book(y: Sys) {
    && |y.h.cur| == |y.k.threads|
    && (forall i | 0 <= i < |y.h.ops| :: PeerOk(y.h, i) && ResultOk(y.h, i) && InFlight(y.k, y.h, i))
    && (forall t | 0 <= t < |y.k.threads| :: ThreadRec(y.k, y.h, t))
  }

  // ---------------------------------------------------------------- answers

  /** A call is answered by the thread that received it, and returns that answer. */
  predicate AnswerOk(h: History, i: nat)
    requires i < |h.ops|
  {
    var r := h.ops[i];
    && (r.answer.Some? ==> r.peer.Some? && r.peer.value < |h.ops| && r.answer.value.server == h.ops[r.peer.value].thread)
    && (r.finished.Some? && r.peer.Some? ==> r.answer.Some? && r.finished.value == AnswerRet(r.answer.value))
  }

  /** A caller's reply state says whether its received call was answered, and how. */
  predicate CallRec(k: Kernel, h: History, t: nat)
    requires t < |k.threads| == |h.cur|
  {
    var T := k.threads[t];
    T.alive && T.at != User && h.cur[t] < |h.ops| && h.ops[h.cur[t]].kind == CALL && h.ops[h.cur[t]].peer.Some? ==>
      var r := h.ops[h.cur[t]];
      if T.pending then r.answer.None? && r.peer.value < |h.ops| && T.server == Some(h.ops[r.peer.value].thread)
      else r.answer.Some? && AnswerRet(r.answer.value)
           == (if T.replyResult == OK then Done(OK, Msg(T.replyTag, T.replyRegs)) else Fail(T.replyResult))
  }

  /** Calls and replies, while no debtor forks. */
  ghost predicate Answers(y: Sys) {
    && |y.h.cur| == |y.k.threads|
    && (forall i | 0 <= i < |y.h.ops| :: AnswerOk(y.h, i))
    && (forall t | 0 <= t < |y.k.threads| :: CallRec(y.k, y.h, t))
  }

  // ------------------------------------------------------------------ order

  predicate MatchedOn(h: History, i: nat, e: nat, recv: bool) {
    i < |h.ops| && h.ops[i].peer.Some? && h.ops[i].ep == e && (h.ops[i].kind == RECV) == recv
  }

  /** On one endpoint, earlier sends are matched with earlier receives. */
  ghost predicate Monotone(h: History) {
    forall i: nat, j: nat, e: nat ::
      MatchedOn(h, i, e, false) && MatchedOn(h, j, e, false) && i < j ==> h.ops[i].peer.value < h.ops[j].peer.value
  }

  /** A queue is in starting order, and nothing matched on the endpoint started after a thread still queued. */
  ghost predicate QueueOrder(h: History, q: seq<nat>, e: nat, recv: bool) {
    && (forall i | 0 <= i < |q| :: q[i] < |h.cur|)
    && (forall i, j | 0 <= i < j < |q| :: h.cur[q[i]] < h.cur[q[j]])
    && (forall i: nat, j | MatchedOn(h, i, e, recv) && 0 <= j < |q| :: i < h.cur[q[j]])
  }

  ghost predicate Order(y: Sys) {
    && Monotone(y.h)
    && (forall e | 0 <= e < |y.k.eps| ::
          QueueOrder(y.h, y.k.eps[e].sendQ, e, false) && QueueOrder(y.h, y.k.eps[e].recvQ, e, true))
  }

  // ------------------------------------------------------------------ count

  ghost function MatchedSends(h: History, e: nat): set<nat> {
    set i: nat | i < |h.ops| && MatchedOn(h, i, e, false)
  }

  ghost predicate Counts(y: Sys) {
    && (forall i: nat | i < |y.h.ops| :: y.h.ops[i].ep < |y.k.eps|)
    && (forall e: nat | e < |y.k.eps| :: |MatchedSends(y.h, e)| == y.k.eps[e].sent + y.k.eps[e].received)
  }

  // ------------------------------------------------------------------ steps

  /** The thread that acts may do so: it is running, and a receive waits for an existing endpoint. */
  predicate Enabled(y: Sys, a: Action) {
    match a
    case ASend(t, e, m, _) => Ready(y.k, t) && e < |y.k.eps|
    case ACall(t, e, m, _) => Ready(y.k, t) && e < |y.k.eps|
    case ARecv(t, e, m, _) => Ready(y.k, t) && e < |y.k.eps|
    case AReply(t, m) => Ready(y.k, t)
    case AResume(t) => Valid(y.k, t) && y.k.threads[t].at != User && !y.k.threads[t].asleep
    case AExit(t) => Ready(y.k, t)
    case ADestroy(e) => e < |y.k.eps|
    case AFork(t, _) => Ready(y.k, t)
    case AWake(t) => t < |y.k.threads|
    case ANewThread(_) => true
    case ANewEndpoint => true
  }

  const IdleThread := Thread(true, false, User, None, 0, NoMsg, SEND, OK, None, None, false, OK, 0, [])

  /** What a step needs of the state it starts from. */
  ghost predicate Base(y: Sys) {
    QInv(y.k) && PInv(y.k) && Book(y)
  }

  /** What every run keeps. */
  ghost predicate Sound(y: Sys) {
    Base(y) && Order(y) && Counts(y)
  }

  /** What every run keeps in which nobody forks while owing a reply. */
  ghost predicate Fair(y: Sys) {
    Sound(y) && Debts(y.k) && Answers(y)
  }

  /** What every disciplined run keeps. */
  ghost predicate Good(y: Sys) {
    Fair(y) && Links(y.k)
  }

  /** A thread at the head of a queue has a recorded operation. */
  lemma HeadRec(y: Sys, e: nat)
    requires QInv(y.k) && Book(y) && e < |y.k.eps|
    ensures y.k.eps[e].sendQ != [] ==> y.k.eps[e].sendQ[0] < |y.k.threads| && y.h.cur[y.k.eps[e].sendQ[0]] < |y.h.ops|
    ensures y.k.eps[e].recvQ != [] ==> y.k.eps[e].recvQ[0] < |y.k.threads| && y.h.cur[y.k.eps[e].recvQ[0]] < |y.h.ops|
  {
    hide QInv;
    HeadQueued(y.k, e);
    if y.k.eps[e].sendQ != [] { assert ThreadRec(y.k, y.h, y.k.eps[e].sendQ[0]); }
    if y.k.eps[e].recvQ != [] { assert ThreadRec(y.k, y.h, y.k.eps[e].recvQ[0]); }
  }

  /** Thread `c` is inside a call that was received and not yet answered. */
  predicate Open(h: History, c: nat) {
    && c < |h.cur| && h.cur[c] < |h.ops|
    && var r := h.ops[h.cur[c]];
       r.thread == c && r.kind == CALL && r.peer.Some? && r.answer.None? && r.finished.None?
  }

  /** The answer thread `c` gets is recorded with its open call, if it has one. */
  function Answered(h: History, c: nat, a: Answer): History {
    if Open(h, c) then SetAnswer(h, h.cur[c], a) else h
  }

  /** A caller that is owed a reply has an open call, received by the thread that owes it. */
  lemma CallerRec(y: Sys, t: nat)
    requires PInv(y.k) && Debts(y.k) && Book(y) && Answers(y) && t < |y.k.threads| && y.k.threads[t].caller.Some?
    ensures y.k.threads[t].caller.value < |y.k.threads| && Open(y.h, y.k.threads[t].caller.value)
    ensures var r := y.h.ops[y.h.cur[y.k.threads[t].caller.value]]; r.peer.value < |y.h.ops| && y.h.ops[r.peer.value].thread == t
  {
    assert CallerOk(y.k, t);
    var c := y.k.threads[t].caller.value;
    assert PlaceOk(y.k.threads[c]) && ThreadRec(y.k, y.h, c) && CallRec(y.k, y.h, c);
  }

  lemma ResumeRec(y: Sys, t: nat)
    requires QInv(y.k) && Book(y) && Valid(y.k, t) && y.k.threads[t].at != User
    ensures y.h.cur[t] < |y.h.ops| && (y.k.threads[t].at != ReplyWait ==> y.k.threads[t].ep < |y.k.eps|)
  {
    assert ThreadRec(y.k, y.h, t) && SleeperOk(y.k, t);
  }

  /** What the kernel does. */
  ghost function KStep(y: Sys, a: Action): (Kernel, Ret)
    requires Base(y) && Enabled(y, a)
  {
    match a
    case ASend(t, e, m, mem) => HeadRec(y, e); SendOp(y.k, t, e, m, SEND, mem)
    case ACall(t, e, m, mem) => HeadRec(y, e); Call(y.k, t, e, m, mem)
    case ARecv(t, e, m, mem) => HeadRec(y, e); Recv(y.k, t, e, m, mem)
    case AReply(t, m) => Reply(y.k, t, m)
    case AResume(t) => ResumeRec(y, t); Resume(y.k, t)
    case AExit(t) => assert PlaceOk(y.k.threads[t]); (Exit(y.k, t), Blocked)
    case ADestroy(e) => HeadQueued(y.k, e); (Destroy(y.k, e), Blocked)
    case AFork(t, p) => (Fork(y.k, t, p), Blocked)
    case AWake(t) => (Wake(y.k, t), Blocked)
    case ANewThread(p) => (y.k.(threads := y.k.threads + [IdleThread.(proc := p)]), Blocked)
    case ANewEndpoint => (y.k.(eps := y.k.eps + [Endpoint(false, [], [], 0, 0)]), Blocked)
  }

  ghost function RecordSend(y: Sys, t: nat, e: nat, m: Msg, op: OpKind, mem: bool): History
    requires QInv(y.k) && Book(y) && Ready(y.k, t) && e < |y.k.eps|
  {
    HeadRec(y, e);
    var h := Start(y.h, t, Fresh(op, t, e, m));
    var ret := SendOp(y.k, t, e, m, op, mem).1;
    if ret.Blocked? then h
    else if ret.res == OK && y.k.eps[e].recvQ != [] then
      SetDone(Matched(h, |y.h.ops|, y.h.cur[y.k.eps[e].recvQ[0]]), |y.h.ops|, OK)
    else if op == CALL then SetFinished(SetDone(h, |y.h.ops|, ret.res), |y.h.ops|, Fail(ret.res))
    else SetDone(h, |y.h.ops|, ret.res)
  }

  ghost function RecordRecv(y: Sys, t: nat, e: nat, m: Msg, mem: bool): History
    requires QInv(y.k) && Book(y) && Ready(y.k, t) && e < |y.k.eps|
  {
    HeadRec(y, e);
    var h := Start(y.h, t, Fresh(RECV, t, e, m));
    var ret := Recv(y.k, t, e, m, mem).1;
    if ret.Blocked? then h
    else if ret.res == OK && y.k.eps[e].sendQ != [] then
      SetDone(Matched(h, y.h.cur[y.k.eps[e].sendQ[0]], |y.h.ops|), |y.h.ops|, OK)
    else SetDone(h, |y.h.ops|, ret.res)
  }

  ghost function RecordResume(y: Sys, t: nat): History
    requires QInv(y.k) && Book(y) && Valid(y.k, t) && y.k.threads[t].at != User
  {
    ResumeRec(y, t);
    var T, ret, i := y.k.threads[t], Resume(y.k, t).1, y.h.cur[t];
    var h := if T.at == ReplyWait then y.h else SetDone(y.h, i, T.result);
    if ret.Done? && h.ops[i].kind == CALL then SetFinished(h, i, ret) else h
  }

  /** What goes into the history. */
  ghost function Record(y: Sys, a: Action): History
    requires Base(y) && Enabled(y, a)
  {
    match a
    case ASend(t, e, m, mem) => RecordSend(y, t, e, m, SEND, mem)
    case ACall(t, e, m, mem) => RecordSend(y, t, e, m, CALL, mem)
    case ARecv(t, e, m, mem) => RecordRecv(y, t, e, m, mem)
    case AReply(t, m) =>
      if y.k.threads[t].caller.None? then y.h
      else
        var c := y.k.threads[t].caller.value;
        Answered(y.h, c, Answer(t, SliceError(y.k.windows, y.k.threads[t].proc, y.k.threads[c].proc, m), Msg(m.tag, m.regs)))
    case AResume(t) => RecordResume(y, t)
    case AExit(t) =>
      if y.k.threads[t].caller.None? then y.h
      else Answered(y.h, y.k.threads[t].caller.value, Answer(t, ERR_DEAD, NoMsg))
    case AFork(_, _) => y.h.(cur := y.h.cur + [0])
    case ANewThread(_) => y.h.(cur := y.h.cur + [0])
    case _ => y.h
  }

  ghost function Step(y: Sys, a: Action): Sys
    requires Base(y) && Enabled(y, a)
  {
    Sys(KStep(y, a).0, Record(y, a))
  }

  /** No server is given a call while it owes a reply, and no thread forks while it owes one. */
  ghost predicate Disciplined(y: Sys, a: Action)
    requires Base(y) && Enabled(y, a)
  {
    match a
    case ACall(t, e, m, mem) =>
      HeadRec(y, e);
      y.k.eps[e].recvQ != [] && SendOp(y.k, t, e, m, CALL, mem).1 == Done(OK, NoMsg) ==>
        y.k.threads[y.k.eps[e].recvQ[0]].caller.None?
    case ARecv(t, e, m, mem) =>
      HeadRec(y, e);
      y.k.eps[e].sendQ != [] && Recv(y.k, t, e, m, mem).1.res == OK && y.k.threads[y.k.eps[e].sendQ[0]].op == CALL ==>
        y.k.threads[t].caller.None?
    case AFork(t, _) => y.k.threads[t].caller.None?
    case _ => true
  }
}
