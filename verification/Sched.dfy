/**
 The run queue and `schedule` (kernel/sched/core.c): 140 FIFO queues indexed by a
 bitmap of three 64-bit words, a running count, the current and the idle thread.

 A word of the bitmap is the sequence of its 64 bits.  `schedule` is modelled up to
 the switch, without the `preempt_enable` at its end.
 */
module Sched {

  import opened Common

  const MAX_PRIO: nat := 140
  const WORDS: nat := 3

  type Word = seq<bool>

  datatype State = Runnable | Asleep | Ended

  datatype Thread = Thread(prio: nat, state: State, started: bool)

  datatype Rq = Rq(queues: seq<seq<nat>>, words: seq<Word>, nr: int)

  datatype Sys = Sys(threads: seq<Thread>, rq: Rq, cur: nat, idle: nat)

  // ----------------------------------------------------------------- bitmap

  predicate WordsOk(words: seq<Word>) {
    |words| == WORDS && forall i | 0 <= i < WORDS :: |words[i]| == 64
  }

  predicate Bit(words: seq<Word>, b: nat)
    requires WordsOk(words) && b < 192
  {
    words[b / 64][b % 64]
  }

  function PutBit(words: seq<Word>, b: nat, v: bool): (r: seq<Word>)
    requires WordsOk(words) && b < 192
    ensures WordsOk(r) && forall c | 0 <= c < 192 :: Bit(r, c) == if c == b then v else Bit(words, c)
  {
    words[b / 64 := words[b / 64][b % 64 := v]]
  }

  /** Count trailing zeros of a word, from bit `k` on; 64 when there is none. */
  function Ctz(w: Word, k: nat): (r: nat)
    requires |w| == 64 && k <= 64
    ensures k <= r <= 64 && (r < 64 ==> w[r]) && forall j | k <= j < r :: !w[j]
    decreases 64 - k
  {
    if k == 64 || w[k] then k else Ctz(w, k + 1)
  }

  /** `bitmap_ffs` from word `i` on: the first non-zero word gives the answer. */
  function Ffs(words: seq<Word>, i: nat): (r: Option<nat>)
    requires WordsOk(words) && i <= WORDS
    ensures r.Some? ==> i * 64 <= r.value < 192 && Bit(words, r.value) && forall b | i * 64 <= b < r.value :: !Bit(words, b)
    ensures r.None? ==> forall b | i * 64 <= b < 192 :: !Bit(words, b)
    decreases WORDS - i
  {
    if i == WORDS then None
    else
      var k := Ctz(words[i], 0);
      assert forall b | i * 64 <= b < (i + 1) * 64 :: b / 64 == i && b % 64 == b - i * 64;
      if k < 64 then Some(i * 64 + k) else Ffs(words, i + 1)
  }

  // ----------------------------------------------------------------- queues

  function Total(qs: seq<seq<nat>>): nat {
    if qs == [] then 0 else |qs[0]| + Total(qs[1..])
  }

  function Clamp(p: int): nat {
    if p < 0 then 0 else if p >= MAX_PRIO then MAX_PRIO - 1 else p
  }

  predicate RqShape(rq: Rq) {
    |rq.queues| == MAX_PRIO && WordsOk(rq.words)
  }

  /** The thread's list node is linked. */
  predicate Linked(rq: Rq, t: nat) {
    exists p :: 0 <= p < |rq.queues| && t in rq.queues[p]
  }

  /** `enqueue_thread_locked`. */
  ghost function Enqueue(rq: Rq, t: nat, prio: nat): (r: Rq)
    requires RqShape(rq) && prio < MAX_PRIO
    ensures RqShape(r)
  {
    if Linked(rq, t) then rq
    else rq.(queues := rq.queues[prio := rq.queues[prio] + [t]], words := PutBit(rq.words, prio, true), nr := rq.nr + 1)
  }

  /** Unlink a thread and clear its queue's bit when the queue is empty. */
  function Unlink(rq: Rq, t: nat, prio: nat): (r: Rq)
    requires RqShape(rq) && prio < MAX_PRIO
    ensures RqShape(r) && r.nr == rq.nr
  {
    var q := Drop(rq.queues[prio], t);
    rq.(queues := rq.queues[prio := q], words := if q == [] then PutBit(rq.words, prio, false) else rq.words)
  }

  /** `sched_remove`. */
  ghost function Remove(rq: Rq, t: nat, prio: nat): Rq
    requires RqShape(rq) && prio < MAX_PRIO
  {
    if Linked(rq, t) then Unlink(rq, t, prio).(nr := rq.nr - 1) else rq
  }

  /** `pick_next_thread`. */
  function Pick(rq: Rq, idle: nat): (Rq, nat)
    requires RqShape(rq)
  {
    var b := Ffs(rq.words, 0);
    if b.None? || b.value >= MAX_PRIO || rq.queues[b.value] == [] then (rq, idle)
    else
      var t := rq.queues[b.value][0];
      (Unlink(rq, t, b.value).(nr := rq.nr - 1), t)
  }

  // ------------------------------------------------------------------ steps

  predicate Shape(y: Sys) {
    && RqShape(y.rq) && y.cur < |y.threads| && y.idle < |y.threads|
    && forall t | 0 <= t < |y.threads| :: y.threads[t].prio < MAX_PRIO
  }

  /** `sched_add`. */
  ghost function Add(y: Sys, t: nat): Sys
    requires Shape(y) && t < |y.threads|
  {
    y.(threads := y.threads[t := y.threads[t].(state := Runnable, started := true)],
       rq := Enqueue(y.rq, t, y.threads[t].prio))
  }

  /** `sched_wakeup`. */
  ghost function Wakeup(y: Sys, t: nat): Sys
    requires Shape(y) && t < |y.threads|
  {
    if y.threads[t].state == Runnable then y
    else if t == y.cur then y.(threads := y.threads[t := y.threads[t].(state := Runnable)])
    else Add(y, t)
  }

  /** `schedule`. */
  ghost function Schedule(y: Sys): Sys
    requires Shape(y)
  {
    var rq := if y.threads[y.cur].state == Runnable && y.cur != y.idle
              then Enqueue(y.rq, y.cur, y.threads[y.cur].prio) else y.rq;
    var (rq', next) := Pick(rq, y.idle);
    y.(rq := rq', cur := next)
  }

  /** `sched_set_priority`. */
  ghost function SetPriority(y: Sys, t: nat, p: int): Sys
    requires Shape(y) && t < |y.threads|
  {
    var rq := y.rq;
    y.(threads := y.threads[t := y.threads[t].(prio := Clamp(p))],
       rq := if !Linked(rq, t) then rq
             else
               var u := Unlink(rq, t, y.threads[t].prio);
               u.(queues := u.queues[Clamp(p) := u.queues[Clamp(p)] + [t]], words := PutBit(u.words, Clamp(p), true)))
  }

  datatype Action =
    | ANew(prio: nat)
    | AStart(t: nat)
    | AWakeup(t: nat)
    | ASetPriority(t: nat, p: int)
    | AArm(state: State)
    | ASchedule

  /** New threads are started once; only the current thread puts itself to sleep or ends itself, and never the idle one. */
  predicate Enabled(y: Sys, a: Action)
    requires Shape(y)
  {
    match a
    case ANew(p) => p < MAX_PRIO
    case AStart(t) => t < |y.threads| && !y.threads[t].started
    case AWakeup(t) => t < |y.threads| && y.threads[t].started
    case ASetPriority(t, _) => t < |y.threads|
    case AArm(_) => y.cur != y.idle
    case ASchedule => true
  }

  ghost function Step(y: Sys, a: Action): Sys
    requires Shape(y) && Enabled(y, a)
  {
    match a
    case ANew(p) => y.(threads := y.threads + [Thread(p, Runnable, false)])
    case AStart(t) => Add(y, t)
    case AWakeup(t) => Wakeup(y, t)
    case ASetPriority(t, p) => SetPriority(y, t, p)
    case AArm(s) => y.(threads := y.threads[y.cur := y.threads[y.cur].(state := s)],
                       rq := Remove(y.rq, y.cur, y.threads[y.cur].prio))
    case ASchedule => Schedule(y)
  }

  // -------------------------------------------------------------- invariant

  /** The thread should be waiting in a queue. */
  predicate Waits(y: Sys, t: nat)
    requires t < |y.threads|
  {
    y.threads[t].started && y.threads[t].state == Runnable && t != y.cur && t != y.idle
  }

  /** Queue `p` holds exactly the waiting threads of priority `p`, each once. */
  ghost predicate QueueOk(y: Sys, p: nat)
    requires Shape(y) && p < MAX_PRIO
  {
    && NoDup(y.rq.queues[p])
    && (forall t :: t in y.rq.queues[p] <==> 0 <= t < |y.threads| && Waits(y, t) && y.threads[t].prio == p)
    && (Bit(y.rq.words, p) <==> y.rq.queues[p] != [])
  }

  ghost predicate Inv(y: Sys) {
    && Shape(y)
    && (forall p | 0 <= p < MAX_PRIO :: QueueOk(y, p))
    && (forall b | MAX_PRIO <= b < 192 :: !Bit(y.rq.words, b))
    && y.rq.nr == Total(y.rq.queues)
    && (y.threads[y.cur].started || y.cur == y.idle)
    && y.threads[y.idle].state == Runnable && y.threads[y.idle].started
  }

  // --------------------------------------------------------------- lemmas

  lemma {:induction false} TotalPut(qs: seq<seq<nat>>, p: nat, q: seq<nat>)
    requires p < |qs|
    ensures Total(qs[p := q]) == Total(qs) - |qs[p]| + |q|
  {
    if p == 0 {
      assert qs[0 := q][1..] == qs[1..];
    } else {
      assert qs[p := q][1..] == qs[1..][p - 1 := q];
      TotalPut(qs[1..], p - 1, q);
    }
  }

  lemma LinkedIff(y: Sys, t: nat)
    requires Inv(y) && t < |y.threads|
    ensures Linked(y.rq, t) <==> Waits(y, t)
    ensures Linked(y.rq, t) ==> t in y.rq.queues[y.threads[t].prio]
  {
    if Linked(y.rq, t) {
      var p :| 0 <= p < |y.rq.queues| && t in y.rq.queues[p];
      assert QueueOk(y, p);
    }
    if Waits(y, t) {
      assert QueueOk(y, y.threads[t].prio);
      assert t in y.rq.queues[y.threads[t].prio];
    }
  }

  /** A thread enters the tail of its queue: the queues are right for a system where it now waits. */
  lemma EnqueueInv(y: Sys, z: Sys, t: nat)
    requires Inv(y) && t < |y.threads| && !Waits(y, t)
    requires |z.threads| == |y.threads| && Shape(z) && z.rq == Enqueue(y.rq, t, y.threads[t].prio)
    requires Waits(z, t) && z.threads[t].prio == y.threads[t].prio && z.idle == y.idle
    requires forall u | 0 <= u < |y.threads| && u != t :: Waits(z, u) == Waits(y, u) && z.threads[u].prio == y.threads[u].prio
    requires z.threads[z.cur].started || z.cur == z.idle
    requires z.threads[z.idle].state == Runnable && z.threads[z.idle].started
    ensures Inv(z)
  {
    LinkedIff(y, t);
    var p := y.threads[t].prio;
    TotalPut(y.rq.queues, p, y.rq.queues[p] + [t]);
    forall r | 0 <= r < MAX_PRIO ensures QueueOk(z, r) {
      assert QueueOk(y, r);
    }
  }

  /** A thread leaves its queue: the queues are right for a system where it no longer waits. */
  lemma UnlinkInv(y: Sys, z: Sys, t: nat)
    requires Inv(y) && t < |y.threads| && Waits(y, t)
    requires |z.threads| == |y.threads| && Shape(z) && z.rq == Unlink(y.rq, t, y.threads[t].prio).(nr := y.rq.nr - 1)
    requires !Waits(z, t) && z.idle == y.idle
    requires forall u | 0 <= u < |y.threads| && u != t :: Waits(z, u) == Waits(y, u) && z.threads[u].prio == y.threads[u].prio
    requires z.threads[z.cur].started || z.cur == z.idle
    requires z.threads[z.idle].state == Runnable && z.threads[z.idle].started
    ensures Inv(z)
  {
    LinkedIff(y, t);
    var p := y.threads[t].prio;
    assert QueueOk(y, p);
    DropSpec(y.rq.queues[p], t);
    TotalPut(y.rq.queues, p, Drop(y.rq.queues[p], t));
    forall r | 0 <= r < MAX_PRIO ensures QueueOk(z, r) {
      assert QueueOk(y, r);
    }
  }

  /** Nothing enters or leaves a queue. */
  lemma QuietInv(y: Sys, z: Sys)
    requires Inv(y) && |z.threads| >= |y.threads| && Shape(z) && z.rq == y.rq && z.idle == y.idle
    requires forall u | 0 <= u < |y.threads| :: Waits(z, u) == Waits(y, u) && (Waits(y, u) ==> z.threads[u].prio == y.threads[u].prio)
    requires forall u | |y.threads| <= u < |z.threads| :: !Waits(z, u)
    requires z.threads[z.cur].started || z.cur == z.idle
    requires z.threads[z.idle].state == Runnable && z.threads[z.idle].started
    ensures Inv(z)
  {
    forall r | 0 <= r < MAX_PRIO ensures QueueOk(z, r) {
      assert QueueOk(y, r);
    }
  }
}
