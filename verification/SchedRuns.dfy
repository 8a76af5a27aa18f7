/**
 The scheduler over whole runs: queues, bitmap and count always describe the
 waiting threads, and a thread in the best queue is reached in turn.
 */
module SchedRuns {

  import opened Common
  import opened Sched

  /** `schedule` puts a runnable current thread back at the tail of its queue. */
  ghost function Requeue(y: Sys): Sys
    requires Shape(y)
  {
    y.(rq := if y.threads[y.cur].state == Runnable && y.cur != y.idle
             then Enqueue(y.rq, y.cur, y.threads[y.cur].prio) else y.rq,
       cur := y.idle)
  }

  lemma RequeueInv(y: Sys)
    requires Inv(y)
    ensures Inv(Requeue(y))
    ensures Schedule(y).rq == Pick(Requeue(y).rq, y.idle).0 && Schedule(y).cur == Pick(Requeue(y).rq, y.idle).1
    ensures Schedule(y).threads == y.threads && Schedule(y).idle == y.idle
  {
    hide QueueOk, Enqueue, Pick, Total;
    if y.threads[y.cur].state == Runnable && y.cur != y.idle {
      EnqueueInv(y, Requeue(y), y.cur);
    } else {
      QuietInv(y, Requeue(y));
    }
  }

  /** The best non-empty queue, found through the bitmap. */
  lemma FfsIsBest(y: Sys)
    requires Inv(y)
    ensures var b := Ffs(y.rq.words, 0);
      && (b.None? ==> forall p | 0 <= p < MAX_PRIO :: y.rq.queues[p] == [])
      && (b.Some? ==> b.value < MAX_PRIO && y.rq.queues[b.value] != [] && forall p | 0 <= p < b.value :: y.rq.queues[p] == [])
  {
    hide Ffs, Total;
    forall p | 0 <= p < MAX_PRIO ensures Bit(y.rq.words, p) <==> y.rq.queues[p] != [] { assert QueueOk(y, p); }
  }

  lemma PickInv(y: Sys)
    requires Inv(y) && y.cur == y.idle
    ensures var (rq, t) := Pick(y.rq, y.idle); t < |y.threads| && Inv(y.(rq := rq, cur := t))
  {
    hide Ffs, Total;
    FfsIsBest(y);
    var b := Ffs(y.rq.words, 0);
    if b.Some? {
      var t := y.rq.queues[b.value][0];
      assert QueueOk(y, b.value) && t in y.rq.queues[b.value];
      UnlinkInv(y, y.(rq := Pick(y.rq, y.idle).0, cur := t), t);
    }
  }

  /**
   `schedule` picks the head of the highest-priority non-empty queue, counting the
   current thread put back first; it idles exactly when nobody waits.
   */
  lemma ScheduleSpec(y: Sys)
    requires Inv(y)
    ensures var z := Schedule(y); var r := Requeue(y);
      && Inv(z)
      && ((forall p | 0 <= p < MAX_PRIO :: r.rq.queues[p] == []) ==> z.cur == y.idle)
      && (forall p | 0 <= p < MAX_PRIO && r.rq.queues[p] != [] && (forall q | 0 <= q < p :: r.rq.queues[q] == []) ::
            z.cur == r.rq.queues[p][0] && z.rq.queues == r.rq.queues[p := r.rq.queues[p][1..]])
  {
    hide Ffs, Total, QueueOk, Enqueue;
    RequeueInv(y);
    var r := Requeue(y);
    FfsIsBest(r);
    PickInv(r);
    assert Schedule(y) == r.(rq := Pick(r.rq, y.idle).0, cur := Pick(r.rq, y.idle).1);
  }

  lemma SetPriorityInv(y: Sys, t: nat, p: int)
    requires Inv(y) && t < |y.threads|
    ensures Inv(SetPriority(y, t, p))
  {
    hide QueueOk, Total, Unlink, PutBit;
    var z := SetPriority(y, t, p);
    LinkedIff(y, t);
    if Linked(y.rq, t) {
      var u := y.(threads := y.threads[t := y.threads[t].(prio := Clamp(p), started := false)],
                  rq := Unlink(y.rq, t, y.threads[t].prio).(nr := y.rq.nr - 1));
      UnlinkInv(y, u, t);
      LinkedIff(u, t);
      EnqueueInv(u, z, t);
    } else {
      QuietInv(y, z);
    }
  }

  /** Every step keeps queues, bitmap and count in agreement with the threads. */
  lemma StepInv(y: Sys, a: Action)
    requires Inv(y) && Enabled(y, a)
    ensures Inv(Step(y, a))
  {
    hide QueueOk, Total, Unlink, PutBit, Schedule, SetPriority, Enqueue;
    match a
    case ANew(p) => QuietInv(y, Step(y, a));
    case AStart(t) =>
      if t == y.cur || t == y.idle { assert false; }
      EnqueueInv(y, Step(y, a), t);
    case AWakeup(t) =>
      if y.threads[t].state != Runnable && t != y.cur {
        EnqueueInv(y, Step(y, a), t);
      } else {
        QuietInv(y, Step(y, a));
      }
    case ASetPriority(t, p) => SetPriorityInv(y, t, p);
    case AArm(s) =>
      LinkedIff(y, y.cur);
      QuietInv(y, Step(y, a));
    case ASchedule => ScheduleSpec(y);
  }

  // ------------------------------------------------------------------- runs

  /** After `sched_init`: the idle thread alone, running. */
  function Boot(): Sys {
    Sys([Thread(MAX_PRIO - 1, Runnable, true)],
        Rq(NoQueues(MAX_PRIO), seq(WORDS, _ => seq(64, _ => false)), 0), 0, 0)
  }

  function NoQueues(n: nat): seq<seq<nat>> {
    seq(n, _ => [])
  }

  lemma {:induction false} TotalEmpty(n: nat)
    ensures Total(NoQueues(n)) == 0
  {
    if n > 0 {
      assert NoQueues(n)[1..] == NoQueues(n - 1);
      TotalEmpty(n - 1);
    }
  }

  lemma BootInv()
    ensures Inv(Boot())
  {
    hide Total;
    TotalEmpty(MAX_PRIO);
    var y := Boot();
    assert !Waits(y, 0);
    forall b | 0 <= b < 192 ensures !Bit(y.rq.words, b) {}
    forall p | 0 <= p < MAX_PRIO ensures QueueOk(y, p) { assert y.rq.queues[p] == []; }
  }

  ghost predicate EnabledRun(y: Sys, run: seq<Action>)
    requires Inv(y)
    decreases |run|
  {
    run == [] || (Enabled(y, run[0]) && (StepInv(y, run[0]); EnabledRun(Step(y, run[0]), run[1..])))
  }

  ghost function Run(y: Sys, run: seq<Action>): Sys
    requires Inv(y) && EnabledRun(y, run)
    decreases |run|
  {
    if run == [] then y else StepInv(y, run[0]); Run(Step(y, run[0]), run[1..])
  }

  /**
   In every run a thread is on the queue of its priority, once, exactly when it has
   been started, can run, is not current and is not the idle thread; and on no other.
   The bitmap marks exactly the non-empty queues and the count is their total length.
   */
  lemma {:induction false} RunInv(y: Sys, run: seq<Action>, t: nat, p: nat)
    requires Inv(y) && EnabledRun(y, run) && p < MAX_PRIO
    ensures var z := Run(y, run);
      && Inv(z) && z.rq.nr == Total(z.rq.queues) && NoDup(z.rq.queues[p])
      && (Bit(z.rq.words, p) <==> z.rq.queues[p] != [])
      && (t in z.rq.queues[p] <==> t < |z.threads| && Waits(z, t) && z.threads[t].prio == p)
    decreases |run|
  {
    hide Inv, Step, Enabled;
    if run == [] {
      InvFacts(y, t, p);
    } else {
      InvFacts(y, t, p);
      StepInv(y, run[0]);
      RunInv(Step(y, run[0]), run[1..], t, p);
    }
  }

  lemma InvFacts(y: Sys, t: nat, p: nat)
    requires Inv(y) && p < MAX_PRIO
    ensures Shape(y) && y.rq.nr == Total(y.rq.queues) && NoDup(y.rq.queues[p])
    ensures Bit(y.rq.words, p) <==> y.rq.queues[p] != []
    ensures t in y.rq.queues[p] <==> t < |y.threads| && Waits(y, t) && y.threads[t].prio == p
  {
    assert QueueOk(y, p);
  }

  // --------------------------------------------------------------- fairness

  /** The thread stands at position `k` of queue `p`. */
  predicate Stands(y: Sys, t: nat, p: nat, k: nat)
    requires RqShape(y.rq)
  {
    p < MAX_PRIO && k < |y.rq.queues[p]| && y.rq.queues[p][k] == t
  }

  /** No thread of higher priority than `p` can run. */
  predicate Calm(y: Sys, p: nat) {
    forall u | 0 <= u < |y.threads| && y.threads[u].started && y.threads[u].state == Runnable && u != y.idle ::
      y.threads[u].prio >= p
  }

  lemma NoMembers(q: seq<nat>)
    ensures (forall t: nat :: t !in q) ==> q == []
  {
    if q != [] { assert q[0] in q; }
  }

  lemma CalmQueues(y: Sys, p: nat)
    requires Inv(y) && Calm(y, p) && p <= MAX_PRIO
    ensures forall q | 0 <= q < p :: y.rq.queues[q] == []
  {
    forall q | 0 <= q < p ensures y.rq.queues[q] == [] {
      assert QueueOk(y, q);
      NoMembers(y.rq.queues[q]);
    }
  }

  lemma {:induction false} DropKeepsOrder(q: seq<nat>, u: nat, k: nat)
    requires k < |q| && q[k] != u
    ensures exists j :: 0 <= j <= k && j < |Drop(q, u)| && Drop(q, u)[j] == q[k]
  {
    if q[0] == u {
      assert Drop(q, u)[k - 1] == q[k];
    } else if k > 0 {
      DropKeepsOrder(q[1..], u, k - 1);
      var j :| 0 <= j <= k - 1 && j < |Drop(q[1..], u)| && Drop(q[1..], u)[j] == q[1..][k - 1];
      assert Drop(q, u)[j + 1] == q[k];
    } else {
      assert Drop(q, u)[0] == q[0];
    }
  }

  /** Where the thread stands after a step that does not pick it. */
  lemma ScheduleAdvances(y: Sys, t: nat, p: nat, k: nat)
    requires Inv(y) && Stands(y, t, p, k) && Calm(y, p)
    ensures k == 0 ==> Schedule(y).cur == t
    ensures k > 0 ==> Shape(Schedule(y)) && Stands(Schedule(y), t, p, k - 1)
  {
    hide Total, QueueOk;
    var r := Requeue(y);
    RequeueInv(y);
    ScheduleSpec(y);
    CalmQueues(r, p);
    assert r.rq.queues[p][..|y.rq.queues[p]|] == y.rq.queues[p];
    assert r.rq.queues[p][k] == t;
  }

  lemma OthersKeepPlace(y: Sys, a: Action, t: nat, p: nat, k: nat)
    requires Inv(y) && Enabled(y, a) && Stands(y, t, p, k) && !a.ASchedule? && !(a.ASetPriority? && a.t == t)
    ensures Shape(Step(y, a)) && exists j :: 0 <= j <= k && Stands(Step(y, a), t, p, j)
  {
    hide Total, QueueOk;
    StepInv(y, a);
    var z := Step(y, a);
    if a.ASetPriority? && Linked(y.rq, a.t) {
      var o := y.threads[a.t].prio;
      var u := Unlink(y.rq, a.t, o);
      DropKeepsOrder(y.rq.queues[p], a.t, k);
      var j :| 0 <= j <= k && j < |Drop(y.rq.queues[p], a.t)| && Drop(y.rq.queues[p], a.t)[j] == t;
      var i := if o == p then j else k;
      assert u.queues[p][i] == t;
      assert Stands(z, t, p, i);
    } else {
      if a.AArm? { LinkedIff(y, y.cur); }
      assert Stands(z, t, p, k);
    }
  }

  function Schedules(run: seq<Action>): nat {
    if run == [] then 0 else (if run[0].ASchedule? then 1 else 0) + Schedules(run[1..])
  }

  /** Until the thread is picked, nothing of higher priority becomes runnable and its priority is not set. */
  ghost predicate CalmRun(y: Sys, run: seq<Action>, t: nat, p: nat)
    requires Inv(y) && EnabledRun(y, run)
    decreases |run|
  {
    run == [] ||
    (Calm(y, p) && !(run[0].ASetPriority? && run[0].t == t) &&
     (StepInv(y, run[0]); Step(y, run[0]).cur == t || CalmRun(Step(y, run[0]), run[1..], t, p)))
  }

  /** At some point of the run the thread becomes current. */
  ghost predicate Picked(y: Sys, run: seq<Action>, t: nat)
    requires Inv(y) && EnabledRun(y, run)
    decreases |run|
  {
    run != [] && (StepInv(y, run[0]); Step(y, run[0]).cur == t || Picked(Step(y, run[0]), run[1..], t))
  }

  /**
   The thread at position `k` of the best queue is picked within `k + 1` calls of
   `schedule`, whatever else happens in between, as long as nothing of higher
   priority becomes runnable.
   */
  lemma {:induction false} PickedInTurn(y: Sys, run: seq<Action>, t: nat, p: nat, k: nat)
    requires Inv(y) && EnabledRun(y, run) && Stands(y, t, p, k) && CalmRun(y, run, t, p) && Schedules(run) >= k + 1
    ensures Picked(y, run, t)
    decreases |run|
  {
    hide Inv, Step, Calm, Stands, Enabled, QueueOk;
    ShapeOf(y);
    var a := run[0];
    StepInv(y, a);
    var z := Step(y, a);
    if z.cur != t {
      ShapeOf(z);
      if a.ASchedule? {
        ScheduleAdvances(y, t, p, k);
        StepIsSchedule(y);
        PickedInTurn(z, run[1..], t, p, k - 1);
      } else {
        OthersKeepPlace(y, a, t, p, k);
        var j :| 0 <= j <= k && Stands(z, t, p, j);
        PickedInTurn(z, run[1..], t, p, j);
      }
    }
  }

  lemma ShapeOf(y: Sys)
    requires Inv(y)
    ensures Shape(y)
  {
  }

  lemma StepIsSchedule(y: Sys)
    requires Shape(y)
    ensures Enabled(y, ASchedule) && Step(y, ASchedule) == Schedule(y)
  {
  }
}
