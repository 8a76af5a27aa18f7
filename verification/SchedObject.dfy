/**
 The scheduler's state as the kernel keeps it (kernel/sched/core.c): arrays of
 queues and bitmap words changed in place, each routine proved against its step.
 */
module SchedObject {

  import opened Common
  import opened Sched
  import opened SchedRuns

  /** The set of linked list nodes agrees with the queues. */
  ghost predicate LinksOk(rq: Rq, linked: set<nat>) {
    forall t: nat :: t in linked <==> Linked(rq, t)
  }

  lemma EnqueueLinks(rq: Rq, linked: set<nat>, t: nat, prio: nat)
    requires RqShape(rq) && prio < MAX_PRIO && LinksOk(rq, linked)
    ensures LinksOk(Enqueue(rq, t, prio), linked + {t})
  {
    var r := Enqueue(rq, t, prio);
    if t !in linked {
      forall u: nat ensures u in linked + {t} <==> Linked(r, u) {
        assert t in r.queues[prio];
        if u in linked && u != t {
          var p :| 0 <= p < |rq.queues| && u in rq.queues[p];
          assert u in r.queues[p];
        }
        if Linked(r, u) && u != t {
          var p :| 0 <= p < |r.queues| && u in r.queues[p];
          assert u in rq.queues[p];
        }
      }
    } else {
      assert linked + {t} == linked;
    }
  }

  /** Unlinking a waiting thread takes its node out of the only queue it is in. */
  lemma UnlinkLinks(y: Sys, linked: set<nat>, t: nat)
    requires Inv(y) && t < |y.threads| && Waits(y, t) && LinksOk(y.rq, linked)
    ensures LinksOk(Unlink(y.rq, t, y.threads[t].prio), linked - {t})
  {
    hide Total;
    var p := y.threads[t].prio;
    assert QueueOk(y, p);
    DropSpec(y.rq.queues[p], t);
    var r := Unlink(y.rq, t, p);
    forall u: nat ensures u in linked - {t} <==> Linked(r, u) {
      if u in linked && u != t {
        var q :| 0 <= q < |y.rq.queues| && u in y.rq.queues[q];
        assert u in r.queues[q];
      }
      if Linked(r, u) {
        var q :| 0 <= q < |r.queues| && u in r.queues[q];
        assert u in y.rq.queues[q];
        assert QueueOk(y, q);
      }
    }
  }

  class Scheduler {
    const queues: array<seq<nat>>
    const bitmap: array<Word>
    var nrRunning: int
    var linked: set<nat>  // threads whose list node is in a queue
    var threads: seq<Thread>
    var current: nat
    const idle: nat

    ghost predicate Valid()
      reads this, queues, bitmap
    {
      && queues.Length == MAX_PRIO && bitmap.Length == WORDS
      && Inv(Value())
      && LinksOk(Value().rq, linked)
    }

    ghost function Value(): Sys
      reads this, queues, bitmap
    {
      Sys(threads, Rq(queues[..], bitmap[..], nrRunning), current, idle)
    }

    /** `sched_init`: empty queues, a clear bitmap and the idle thread. */
    constructor ()
      ensures Valid() && Value() == Boot() && fresh(queues) && fresh(bitmap)
    {
      queues := new seq<nat>[MAX_PRIO](_ => []);
      bitmap := new Word[WORDS](_ => seq(64, _ => false));
      nrRunning, linked, current, idle := 0, {}, 0, 0;
      threads := [Thread(MAX_PRIO - 1, Runnable, true)];
      new;
      assert bitmap[..] == Boot().rq.words && queues[..] == Boot().rq.queues;
      BootInv();
    }

    method BitmapSet(b: nat)
      requires bitmap.Length == WORDS && WordsOk(bitmap[..]) && b < MAX_PRIO
      modifies bitmap
      ensures bitmap[..] == PutBit(old(bitmap[..]), b, true)
    {
      bitmap[b / 64] := bitmap[b / 64][b % 64 := true];
    }

    method BitmapClear(b: nat)
      requires bitmap.Length == WORDS && WordsOk(bitmap[..]) && b < MAX_PRIO
      modifies bitmap
      ensures bitmap[..] == PutBit(old(bitmap[..]), b, false)
    {
      bitmap[b / 64] := bitmap[b / 64][b % 64 := false];
    }

    /** `bitmap_ffs`: the first non-zero word, then its lowest set bit. */
    method BitmapFfs() returns (r: Option<nat>)
      requires bitmap.Length == WORDS && WordsOk(bitmap[..])
      ensures r == Ffs(bitmap[..], 0)
    {
      var i := 0;
      while i < WORDS
        invariant 0 <= i <= WORDS && Ffs(bitmap[..], 0) == Ffs(bitmap[..], i)
      {
        var k := 0;
        while k < 64 && !bitmap[i][k]
          invariant 0 <= k <= 64 && Ctz(bitmap[..][i], 0) == Ctz(bitmap[..][i], k)
        {
          k := k + 1;
        }
        if k < 64 { return Some(i * 64 + k); }
        i := i + 1;
      }
      r := None;
    }

    /** `enqueue_thread_locked`. */
    method EnqueueLocked(t: nat, prio: nat)
      requires RqShape(Value().rq) && queues.Length == MAX_PRIO && bitmap.Length == WORDS && prio < MAX_PRIO
      requires LinksOk(Value().rq, linked)
      modifies this`nrRunning, this`linked, queues, bitmap
      ensures Value() == old(Value()).(rq := Enqueue(old(Value().rq), t, prio)) && LinksOk(Value().rq, linked)
    {
      EnqueueLinks(Value().rq, linked, t, prio);
      if t in linked {
        assert linked + {t} == linked;
        return;
      }
      queues[prio] := queues[prio] + [t];
      BitmapSet(prio);
      nrRunning := nrRunning + 1;
      linked := linked + {t};
    }

    method AddThread(t: nat)
      requires Valid() && t < |threads| && t !in linked
      modifies this, queues, bitmap
      ensures Value() == Add(old(Value()), t) && LinksOk(Value().rq, linked)
    {
      threads := threads[t := threads[t].(state := Runnable, started := true)];
      EnqueueLocked(t, threads[t].prio);
    }

    /** Take the node of a waiting thread out of its queue. */
    method UnlinkLocked(t: nat, ghost y: Sys)
      requires Inv(y) && y.rq == Value().rq && t < |y.threads| && Waits(y, t) && LinksOk(Value().rq, linked)
      requires queues.Length == MAX_PRIO && bitmap.Length == WORDS && t < |threads| && threads[t].prio == y.threads[t].prio
      modifies this`linked, queues, bitmap
      ensures Value() == old(Value()).(rq := Unlink(old(Value().rq), t, threads[t].prio)) && LinksOk(Value().rq, linked)
    {
      hide Inv;
      ShapeOf(y);
      UnlinkLinks(y, linked, t);
      var prio := threads[t].prio;
      var rest := Unlinked(queues[prio], t);
      queues[prio] := rest;
      if rest == [] { BitmapClear(prio); }
      linked := linked - {t};
    }

    /** `pick_next_thread`, for a system whose current thread is back in its queue. */
    method PickNext(ghost y: Sys) returns (t: nat)
      requires Inv(y) && y.rq == Value().rq && y.threads == threads && y.idle == idle && y.cur == idle
      requires LinksOk(Value().rq, linked) && queues.Length == MAX_PRIO && bitmap.Length == WORDS
      modifies this`nrRunning, this`linked, queues, bitmap
      ensures (Value().rq, t) == Pick(old(Value().rq), idle) && LinksOk(Value().rq, linked)
    {
      hide Total;
      FfsIsBest(y);
      var b := BitmapFfs();
      if b.None? { return idle; }
      t := queues[b.value][0];
      assert QueueOk(y, b.value) && t in y.rq.queues[b.value];
      UnlinkLocked(t, y);
      nrRunning := nrRunning - 1;
    }

    /** `schedule`. */
    method Reschedule()
      requires Valid()
      modifies this, queues, bitmap
      ensures Valid() && Value() == Schedule(old(Value()))
    {
      hide Inv, Enqueue, Pick;
      ghost var y := Value();
      ShapeOf(y);
      RequeueInv(y);
      ScheduleSpec(y);
      if threads[current].state == Runnable && current != idle {
        EnqueueLocked(current, threads[current].prio);
      }
      current := PickNext(Requeue(y));
    }

    /** `sched_wakeup`. */
    method WakeThread(t: nat)
      requires Valid() && t < |threads| && threads[t].started
      modifies this, queues, bitmap
      ensures Valid() && Value() == Wakeup(old(Value()), t)
    {
      hide Inv, Enqueue;
      ShapeOf(Value());
      StepInv(Value(), AWakeup(t));
      if threads[t].state == Runnable { return; }
      if t == current {
        threads := threads[t := threads[t].(state := Runnable)];
        return;
      }
      NotLinked(Value(), t);
      AddThread(t);
    }

    /** `thread_start`. */
    method StartThread(t: nat)
      requires Valid() && t < |threads| && !threads[t].started
      modifies this, queues, bitmap
      ensures Valid() && Value() == Add(old(Value()), t)
    {
      hide Inv, Enqueue;
      ShapeOf(Value());
      StepInv(Value(), AStart(t));
      NotLinked(Value(), t);
      AddThread(t);
    }

    /** `sched_set_priority`. */
    method ChangePriority(t: nat, p: int)
      requires Valid() && t < |threads|
      modifies this, queues, bitmap
      ensures Valid() && Value() == SetPriority(old(Value()), t, p)
    {
      hide Inv, Unlink;
      ghost var y := Value();
      ShapeOf(y);
      SetPriorityInv(y, t, p);
      LinkedIff(y, t);
      var q := Clamp(p);
      if t in linked {
        UnlinkLocked(t, y);
        ghost var rq := Value().rq;
        UnlinkGone(y, t);
        EnqueueLinks(rq, linked, t, q);
        threads := threads[t := threads[t].(prio := q)];
        queues[q] := queues[q] + [t];
        BitmapSet(q);
        linked := linked + {t};
        SameLinks(Enqueue(rq, t, q), Value().rq, linked);
      } else {
        threads := threads[t := threads[t].(prio := q)];
      }
    }
  }

  lemma NotLinked(y: Sys, t: nat)
    requires Inv(y) && t < |y.threads| && (!y.threads[t].started || y.threads[t].state != Runnable)
    ensures !Linked(y.rq, t)
  {
    LinkedIff(y, t);
  }

  lemma UnlinkGone(y: Sys, t: nat)
    requires Inv(y) && t < |y.threads| && Waits(y, t)
    ensures !Linked(Unlink(y.rq, t, y.threads[t].prio), t)
  {
    var linked := set u | 0 <= u < |y.threads| && Waits(y, u);
    forall u: nat ensures u in linked <==> Linked(y.rq, u) {
      if u < |y.threads| { LinkedIff(y, u); }
      if Linked(y.rq, u) {
        var p :| 0 <= p < |y.rq.queues| && u in y.rq.queues[p];
        assert QueueOk(y, p);
      }
    }
    UnlinkLinks(y, linked, t);
  }

  lemma SameLinks(a: Rq, b: Rq, linked: set<nat>)
    requires a.queues == b.queues && LinksOk(a, linked)
    ensures LinksOk(b, linked)
  {
    forall t: nat ensures t in linked <==> Linked(b, t) {
      assert Linked(a, t) <==> Linked(b, t);
    }
  }
}
