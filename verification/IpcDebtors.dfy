/**
 Two short runs from boot: a server that receives again before it has answered leaves
 its first caller waiting for nobody, and one that forks before it has answered has
 its child answer in its place.
 */
module IpcDebtors {

  import opened Common
  import opened Ipc
  import opened IpcInv
  import opened IpcHistory
  import opened IpcRuns

  // Thread 0 serves endpoint 0; threads 1 and 2 call it.

  const Setup: seq<Action> := [ANewEndpoint, ANewThread(None), ANewThread(None), ANewThread(None)]
  const Take := ARecv(0, 0, NoMsg, true)
  const FirstCall := ACall(1, 0, NoMsg, true)
  const SecondCall := ACall(2, 0, NoMsg, true)

  function Waiting(): Thread {
    IdleThread.(asleep := true, at := RecvWait, op := RECV, result := ERR_NOPARTNER)
  }

  /** A thread inside a call that was received. */
  function Caller(): Thread {
    IdleThread.(asleep := true, at := ReplyWait, server := Some(0), pending := true, replyResult := ERR_DEAD)
  }

  /** A server that has received the call of thread 1 and not answered it. */
  function Debtor(): Thread {
    IdleThread.(op := CALL, caller := Some(1))
  }

  function WithThreads(ts: seq<Thread>, q: seq<nat>, n: nat): Kernel {
    Kernel(ts, [Endpoint(false, [], q, n, 0)], map[], n, n)
  }

  lemma {:induction false} RunSnoc(y: Sys, acts: seq<Action>, a: Action)
    requires Sound(y) && EnabledRun(y, acts) && Sound(Run(y, acts)) && Enabled(Run(y, acts), a)
    ensures EnabledRun(y, acts + [a]) && Run(y, acts + [a]) == Step(Run(y, acts), a)
    decreases |acts|
  {
    hide Base, Order, Counts, Enabled, KStep, Record;
    if acts == [] {
      StepSound(y, a);
      assert [] + [a] == [a] && [a][1..] == [];
    } else {
      StepSound(y, acts[0]);
      assert (acts + [a])[0] == acts[0] && (acts + [a])[1..] == acts[1..] + [a];
      RunSnoc(Step(y, acts[0]), acts[1..], a);
    }
  }

  /** A disciplined run from boot that ends in this kernel state. */
  ghost predicate Reaches(acts: seq<Action>, k: Kernel) {
    Good(Boot) && EnabledRun(Boot, acts) && Good(Run(Boot, acts)) && Run(Boot, acts).k == k
  }

  ghost predicate Leads(y: Sys, a: Action, k: Kernel) {
    Base(y) && Enabled(y, a) && Disciplined(y, a) && KStep(y, a).0 == k
  }

  lemma ReachOn(acts: seq<Action>, k: Kernel, a: Action, k': Kernel)
    requires Reaches(acts, k) && Leads(Run(Boot, acts), a, k')
    ensures Reaches(acts + [a], k')
  {
    hide Base, Order, Counts, Debts, Answers, Links, Enabled, Disciplined, KStep, Record, Run, EnabledRun;
    StepGood(Run(Boot, acts), a);
    RunSnoc(Boot, acts, a);
  }

  lemma Adds(y: Sys, ts: seq<Thread>)
    requires Good(y) && y.k == WithThreads(ts, [], 0)
    ensures Leads(y, ANewThread(None), WithThreads(ts + [IdleThread], [], 0))
  {
    hide QInv, PInv, Book, Order, Counts, Debts, Answers, Links;
    assert IdleThread.(proc := None) == IdleThread;
  }

  /** The server waits. */
  lemma Takes(y: Sys, s: Thread, rest: seq<Thread>, n: nat)
    requires Good(y) && y.k == WithThreads([s] + rest, [], n) && s.alive && s.at == User && !s.asleep
    ensures var w := s.(asleep := true, at := RecvWait, ep := 0, buf := NoMsg, op := RECV, result := ERR_NOPARTNER);
      Leads(y, Take, WithThreads([w] + rest, [0], n))
  {
    hide QInv, PInv, Book, Order, Counts, Debts, Answers, Links;
    var w := s.(asleep := true, at := RecvWait, ep := 0, buf := NoMsg, op := RECV, result := ERR_NOPARTNER);
    assert ([s] + rest)[0 := w] == [w] + rest && ([] + [0]) == [0];
    var E := Endpoint(false, [], [], n, 0);
    assert [E][0 := E.(recvQ := [0])] == [E.(recvQ := [0])];
    assert EnqueueReceiver(y.k, 0, 0, NoMsg) == WithThreads([w] + rest, [0], n);
  }

  /** The first call is handed over. */
  lemma Calls(y: Sys)
    requires Good(y) && y.k == WithThreads([Waiting(), IdleThread, IdleThread], [0], 0)
    ensures Leads(y, FirstCall, WithThreads([Waiting().(asleep := false, op := CALL, result := OK, caller := Some(1)), Caller(), IdleThread], [], 1))
  {
    hide QInv, PInv, Book, Order, Counts, Debts, Answers, Links;
    var i, w, E := IdleThread, Waiting(), Endpoint(false, [], [0], 0, 0);
    assert [E][0 := Endpoint(false, [], [], 1, 0)] == [Endpoint(false, [], [], 1, 0)] && [0][1..] == [];
    var c := i.(pending := true, replyResult := ERR_DEAD, server := Some(0));
    assert [w, i, i][0 := w.(op := CALL, result := OK)] == [w.(op := CALL, result := OK), i, i];
    var s := w.(asleep := false, op := CALL, result := OK, caller := Some(1));
    assert DirectTransfer(y.k, 1, 0, NoMsg, CALL) == WithThreads([s, c, i], [], 1);
    assert [s, c, i][1 := Caller()] == [s, Caller(), i];
  }

  /** The server returns from its receive. */
  lemma Returns(y: Sys)
    requires Good(y) && y.k == WithThreads([Waiting().(asleep := false, op := CALL, result := OK, caller := Some(1)), Caller(), IdleThread], [], 1)
    ensures Leads(y, AResume(0), WithThreads([Debtor(), Caller(), IdleThread], [], 1))
  {
    hide QInv, PInv, Book, Order, Counts, Debts, Answers, Links;
  }

  lemma SetUp()
    ensures Reaches(Setup, WithThreads([IdleThread, IdleThread, IdleThread], [], 0))
  {
    hide Base, Order, Counts, Debts, Answers, Links, Disciplined, Reaches, Leads, Good;
    StartUp();
    var i := IdleThread;
    assert [] + [i] == [i] && [i] + [i] == [i, i] && [i, i] + [i] == [i, i, i];
    Grows([ANewEndpoint], []);
    Grows([ANewEndpoint] + [ANewThread(None)], [i]);
    Grows([ANewEndpoint] + [ANewThread(None)] + [ANewThread(None)], [i, i]);
    assert Setup == [ANewEndpoint] + [ANewThread(None)] + [ANewThread(None)] + [ANewThread(None)];
  }

  lemma StartUp()
    ensures Reaches([ANewEndpoint], WithThreads([], [], 0))
  {
    hide Order, Counts, Debts, Answers, Links;
    BootGood();
    assert Leads(Boot, ANewEndpoint, WithThreads([], [], 0));
    assert [] + [ANewEndpoint] == [ANewEndpoint];
    ReachOn([], Boot.k, ANewEndpoint, WithThreads([], [], 0));
  }

  lemma Grows(acts: seq<Action>, ts: seq<Thread>)
    requires Reaches(acts, WithThreads(ts, [], 0))
    ensures Reaches(acts + [ANewThread(None)], WithThreads(ts + [IdleThread], [], 0))
  {
    hide Base, Order, Counts, Debts, Answers, Links, Leads, Run, EnabledRun;
    Adds(Run(Boot, acts), ts);
    ReachOn(acts, WithThreads(ts, [], 0), ANewThread(None), WithThreads(ts + [IdleThread], [], 0));
  }

  const ToDebt: seq<Action> := Setup + [Take] + [FirstCall] + [AResume(0)]

  lemma InDebt()
    ensures Reaches(ToDebt, WithThreads([Debtor(), Caller(), IdleThread], [], 1))
  {
    hide Base, Order, Counts, Debts, Answers, Links, Leads, Run, EnabledRun, Disciplined;
    SetUp();
    var i := IdleThread;
    var a, b, c := Setup, Setup + [Take], Setup + [Take] + [FirstCall];
    assert [i] + [i, i] == [i, i, i] && [Waiting()] + [i, i] == [Waiting(), i, i];
    Takes(Run(Boot, a), i, [i, i], 0);
    ReachOn(a, WithThreads([i, i, i], [], 0), Take, WithThreads([Waiting(), i, i], [0], 0));
    Calls(Run(Boot, b));
    var w := Waiting().(asleep := false, op := CALL, result := OK, caller := Some(1));
    ReachOn(b, WithThreads([Waiting(), i, i], [0], 0), FirstCall, WithThreads([w, Caller(), i], [], 1));
    Returns(Run(Boot, c));
    ReachOn(c, WithThreads([w, Caller(), i], [], 1), AResume(0), WithThreads([Debtor(), Caller(), i], [], 1));
  }

  const ToSecond: seq<Action> := ToDebt + [Take]

  /**
   Receive, be called, receive again, be called again: an undisciplined run from boot,
   after which the first caller sleeps for a reply that no thread owes it.
   */
  lemma OrphanRun()
    ensures Sound(Boot) && EnabledRun(Boot, ToSecond + [SecondCall])
    ensures var k := Run(Boot, ToSecond + [SecondCall]).k;
      && |k.threads| == 3 && k.threads[1].alive && k.threads[1].asleep && k.threads[1].pending && Servers(k, 1) == {}
  {
    hide Base, Order, Counts, Debts, Answers, Links, Leads, Run, EnabledRun, Disciplined;
    InDebt();
    var d := Debtor();
    var ts := [Caller(), IdleThread];
    assert [d] + ts == [d, Caller(), IdleThread];
    Takes(Run(Boot, ToDebt), d, ts, 1);
    var w := d.(asleep := true, at := RecvWait, ep := 0, buf := NoMsg, op := RECV, result := ERR_NOPARTNER);
    ReachOn(ToDebt, WithThreads([d] + ts, [], 1), Take, WithThreads([w] + ts, [0], 1));
    var y := Run(Boot, ToSecond);
    RunSnoc(Boot, ToSecond, SecondCall);
    CallsAgain(y);
  }

  lemma CallsAgain(y: Sys)
    requires Good(y) && y.k.windows == map[] && |y.k.threads| == 3 && |y.k.eps| == 1
    requires y.k.eps[0] == Endpoint(false, [], [0], 1, 0) && y.k.threads[0].caller == Some(1) && y.k.threads[1] == Caller()
    requires y.k.threads[2] == IdleThread
    ensures Enabled(y, SecondCall)
    ensures var k := Step(y, SecondCall).k;
      && |k.threads| == 3 && k.threads[1] == Caller() && Servers(k, 1) == {}
  {
    hide QInv, PInv, Book, Order, Counts, Debts, Answers, Links;
  }

  /** Receive, be called, fork, and let the child reply: after this run from boot the answer is not the receiver's. */
  lemma ForkRun()
    ensures Sound(Boot) && EnabledRun(Boot, ToDebt + [AFork(0, None)] + [AReply(3, NoMsg)])
    ensures !Answers(Run(Boot, ToDebt + [AFork(0, None)] + [AReply(3, NoMsg)]))
  {
    hide Base, Order, Counts, Debts, Answers, Links, Leads, Run, EnabledRun;
    InDebt();
    var y := Run(Boot, ToDebt);
    RunSnoc(Boot, ToDebt, AFork(0, None));
    ForkedDebtAnswersWrong(y, 0, None, NoMsg);
    RunSnoc(Boot, ToDebt + [AFork(0, None)], AReply(3, NoMsg));
  }
}
