/**
 The two lock-protected sleep loops, one lock section at a time: `ipc_call`'s
 wait for its reply (kernel/ipc/message.c) and `process_wait` against
 `thread_exit` (kernel/proc/process.c), over `sched_wakeup` and `schedule`
 (kernel/sched/core.c).

 One thread executes at a time and may be switched out between any two lock
 sections; which queued thread runs next is left open.  Blocking sends and receives
 are included because they do not hold their lock while going to sleep.  That is safe
 as long as nothing switches between the two, and on one CPU this kernel does not.
 */
module SleepWake {

  import opened Common

  datatype State = Running | Sleeping | Zombie | Dead

  datatype Pc =
    | User
    | SendQueued | SendWait            // blocking send: queued, marked asleep
    | RecvQueued | RecvWait            // blocking receive: queued, marked asleep
    | CallCheck | CallArmed            // ipc_call: before and after its lock section
    | WaitScan | WaitArmed | WaitClear // process_wait: before, after, and back from schedule
    | Exiting | ExitWake | Gone        // thread_exit

  datatype Chan = NoChan | ProcChan(p: nat) | ReplyChan | SendChan | RecvChan

  datatype Thread = Thread(pc: Pc, state: State, queued: bool, chan: Chan,
                           pending: bool, caller: Option<nat>, met: bool, proc: nat)

  datatype Proc = Proc(parent: Option<nat>, children: seq<nat>, main: nat, live: int)

  datatype Sys = Sys(threads: seq<Thread>, procs: seq<Proc>, cur: Option<nat>)

  predicate Shape(y: Sys) {
    && (forall t | 0 <= t < |y.threads| ::
          y.threads[t].proc < |y.procs| && (y.threads[t].caller.Some? ==> y.threads[t].caller.value < |y.threads|))
    && (forall p | 0 <= p < |y.procs| :: y.procs[p].main < |y.threads|)
    && (forall p, i | 0 <= p < |y.procs| && 0 <= i < |y.procs[p].children| :: y.procs[p].children[i] < |y.procs|)
    && (y.cur.Some? ==> y.cur.value < |y.threads|)
  }

  // ------------------------------------------------------------ scheduler

  /** `sched_wakeup`: the executing thread is left for `schedule` to enqueue. */
  function Wakeup(y: Sys, t: nat): Sys
    requires t < |y.threads|
  {
    if y.threads[t].state == Running then y
    else y.(threads := y.threads[t := y.threads[t].(state := Running, queued := y.cur != Some(t))])
  }

  /** `thread_wakeup`: every thread sleeping on the channel. */
  function WakeChannel(y: Sys, c: Chan): Sys {
    y.(threads := seq(|y.threads|, i requires 0 <= i < |y.threads| =>
      if y.threads[i].chan == c && y.threads[i].state == Sleeping
      then y.threads[i].(state := Running, queued := y.cur != Some(i)) else y.threads[i]))
  }

  /** Where a thread continues after its own call of `schedule`. */
  function After(pc: Pc): Pc {
    match pc
    case CallArmed => CallCheck
    case WaitArmed => WaitClear
    case _ => pc
  }

  /** First half of `schedule`: a thread that can still run goes back on the queue. */
  function Yield(y: Sys, own: bool): Sys
    requires y.cur.Some? ==> y.cur.value < |y.threads|
  {
    if y.cur.None? then y
    else
      var t := y.cur.value;
      var T := y.threads[t];
      y.(threads := y.threads[t := T.(queued := T.state == Running, pc := if own then After(T.pc) else T.pc)],
         cur := None)
  }

  // -------------------------------------------------------------- actions

  datatype Action =
    | ASwitch(own: bool, next: Option<nat>)
    | ASendEnqueue | ASendSleep | ASendDone
    | ARecvEnqueue | ARecvSleep | ARecvDone
    | AHandOver(sender: nat, call: bool)
    | ADeliver(receiver: nat, call: bool)
    | ACheck
    | AReply
    | AWaitBegin | AScan | AClear
    | AFork
    | AExitClean | AExitMark | AExitWake

  /** The first child whose main thread is a zombie. */
  function FirstZombie(y: Sys, q: seq<nat>): (r: Option<nat>)
    requires Shape(y) && forall i | 0 <= i < |q| :: q[i] < |y.procs|
    ensures r.Some? ==> r.value < |q| && y.threads[y.procs[q[r.value]].main].state == Zombie
    ensures r.None? ==> forall i | 0 <= i < |q| :: y.threads[y.procs[q[i]].main].state != Zombie
  {
    if q == [] then None
    else if y.threads[y.procs[q[0]].main].state == Zombie then Some(0)
    else
      assert q == [q[0]] + q[1..];
      var r := FirstZombie(y, q[1..]);
      if r.None? then None else Some(r.value + 1)
  }

  predicate Enabled(y: Sys, a: Action)
    requires Shape(y)
  {
    if a.ASwitch? then
      && (a.own ==> y.cur.Some?)
      && match a.next
         case Some(n) => n < |y.threads| && Yield(y, a.own).threads[n].queued
         case None => forall i | 0 <= i < |y.threads| :: !Yield(y, a.own).threads[i].queued
    else
      && y.cur.Some?
      && var T := y.threads[y.cur.value];
         match a
         case ASendEnqueue => T.pc == User
         case ASendSleep => T.pc == SendQueued
         case ASendDone => T.pc == SendWait && T.state == Running
         case AHandOver(c, _) => T.pc == User && c < |y.threads| && c != y.cur.value
                                 && y.threads[c].pc in {SendQueued, SendWait} && !y.threads[c].met
         case ARecvEnqueue => T.pc == User
         case ARecvSleep => T.pc == RecvQueued
         case ARecvDone => T.pc == RecvWait && T.state == Running
         case ADeliver(s, _) => T.pc == User && s < |y.threads| && s != y.cur.value
                                && y.threads[s].pc in {RecvQueued, RecvWait} && !y.threads[s].met
         case ACheck => T.pc == CallCheck
         case AReply => T.pc == User && T.caller.Some?
         case AWaitBegin => T.pc == User
         case AScan => T.pc == WaitScan
         case AClear => T.pc == WaitClear && T.state == Running
         case AFork => T.pc == User
         case AExitClean => T.pc == User
         case AExitMark => T.pc == Exiting
         case AExitWake => T.pc == ExitWake
         case ASwitch(_, _) => true
  }

  /** Clear the caller's pending flag and wake it, in one section under `ipc_cc_lock`. */
  function PostReply(y: Sys, c: nat): Sys
    requires c < |y.threads|
  {
    Wakeup(y.(threads := y.threads[c := y.threads[c].(pending := false)]), c)
  }

  function Set(y: Sys, t: nat, T: Thread): Sys
    requires t < |y.threads|
  {
    y.(threads := y.threads[t := T])
  }

  function SwitchTo(y: Sys, own: bool, next: Option<nat>): Sys
    requires Shape(y) && Enabled(y, ASwitch(own, next))
  {
    var y1 := Yield(y, own);
    if next.None? then y1
    else y1.(threads := y1.threads[next.value := y1.threads[next.value].(queued := false)], cur := next)
  }

  /** Take child number `k` off its parent's list. */
  function Reap(y: Sys, t: nat, k: nat): Sys
    requires Shape(y) && t < |y.threads| && k < |y.procs[y.threads[t].proc].children|
  {
    var p := y.threads[t].proc;
    var q := y.procs[p].children;
    Set(y, t, y.threads[t].(pc := User)).(procs := y.procs[p := y.procs[p].(children := q[..k] + q[k + 1..])])
  }

  /** The section of `process_wait` under the process lock. */
  function Scan(y: Sys, t: nat): Sys
    requires Shape(y) && t < |y.threads|
  {
    var T := y.threads[t];
    var q := y.procs[T.proc].children;
    if q == [] then Set(y, t, T.(pc := User))
    else
      var r := FirstZombie(y, q);
      if r.Some? then Reap(y, t, r.value)
      else Set(y, t, T.(chan := ProcChan(T.proc), state := Sleeping, pc := WaitArmed))
  }

  /** `process_fork`: the child's thread starts as a copy of its parent's. */
  function Fork(y: Sys, t: nat): Sys
    requires Shape(y) && t < |y.threads|
  {
    var T := y.threads[t];
    var c := |y.procs|;
    Sys(y.threads + [T.(proc := c, state := Running, queued := true, chan := NoChan, pc := User)],
        y.procs[T.proc := y.procs[T.proc].(children := y.procs[T.proc].children + [c])]
          + [Proc(Some(T.proc), [], |y.threads|, 1)],
        y.cur)
  }

  /** Leaving the process: the last thread becomes the zombie, before its parent is told. */
  function ExitMark(y: Sys, t: nat): Sys
    requires Shape(y) && t < |y.threads|
  {
    var T := y.threads[t];
    var n := y.procs[T.proc].live - 1;
    Set(y, t, if n == 0 then T.(state := Zombie, pc := ExitWake) else T.(state := Dead, pc := Gone))
      .(procs := y.procs[T.proc := y.procs[T.proc].(live := n)])
  }

  function ExitWakeup(y: Sys, t: nat): Sys
    requires Shape(y) && t < |y.threads|
  {
    var parent := y.procs[y.threads[t].proc].parent;
    var y1 := Set(y, t, y.threads[t].(pc := Gone));
    if parent.Some? then WakeChannel(y1, ProcChan(parent.value)) else y1
  }

  function Step(y: Sys, a: Action): Sys
    requires Shape(y) && Enabled(y, a)
  {
    if a.ASwitch? then SwitchTo(y, a.own, a.next)
    else
      var t := y.cur.value;
      var T := y.threads[t];
      match a
      case ASendEnqueue => Set(y, t, T.(pc := SendQueued, met := false))
      case ASendSleep => Set(y, t, T.(pc := SendWait, state := Sleeping, chan := SendChan))
      case ASendDone => Set(y, t, T.(pc := if T.pending then CallCheck else User, chan := NoChan))
      case AHandOver(c, call) =>
        var y1 := Set(y, c, y.threads[c].(met := true, pending := call));
        Wakeup(if call then Set(y1, t, T.(caller := Some(c))) else y1, c)
      case ARecvEnqueue => Set(y, t, T.(pc := RecvQueued, met := false))
      case ARecvSleep => Set(y, t, T.(pc := RecvWait, state := Sleeping, chan := RecvChan))
      case ARecvDone => Set(y, t, T.(pc := User, chan := NoChan))
      case ADeliver(s, call) =>
        var S := y.threads[s].(met := true);
        Wakeup(if call then Set(Set(y, s, S.(caller := Some(t))), t, T.(pending := true, pc := CallCheck)) else Set(y, s, S), s)
      case ACheck =>
        Set(y, t, if !T.pending then T.(state := Running, chan := NoChan, pc := User)
                  else T.(state := Sleeping, chan := ReplyChan, pc := CallArmed))
      case AReply => PostReply(Set(y, t, T.(caller := None)), T.caller.value)
      case AWaitBegin => Set(y, t, T.(pc := WaitScan))
      case AScan => Scan(y, t)
      case AClear => Set(y, t, T.(pc := WaitScan, chan := NoChan))
      case AFork => Fork(y, t)
      case AExitClean =>
        var y1 := if T.caller.Some? then PostReply(Set(y, t, T.(caller := None)), T.caller.value) else y;
        Set(y1, t, y1.threads[t].(pending := false, pc := Exiting))
      case AExitMark => ExitMark(y, t)
      case AExitWake => ExitWakeup(y, t)
      case ASwitch(_, _) => y
  }

  // ------------------------------------------------------------ invariant

  /** Asleep inside `process_wait`. */
  predicate Waiting(T: Thread) {
    T.state == Sleeping && (T.pc == WaitArmed || T.pc == WaitClear)
  }

  /** Asleep inside `ipc_call`'s wait for the reply. */
  predicate Calling(T: Thread) {
    T.state == Sleeping && (T.pc == CallCheck || T.pc == CallArmed)
  }

  /** A zombie that has finished waking its parent. */
  predicate Finished(T: Thread) {
    T.state == Zombie && T.pc == Gone
  }

  predicate NoneFinished(y: Sys, p: nat)
    requires Shape(y) && p < |y.procs|
  {
    forall i | 0 <= i < |y.procs[p].children| :: !Finished(y.threads[y.procs[y.procs[p].children[i]].main])
  }

  /** Runnable means executing or queued; asleep for a reply means none was posted. */
  predicate LocalOk(T: Thread, executing: bool) {
    && (T.queued <==> T.state == Running && !executing)
    && (T.state == Sleeping ==> T.pc == SendWait || T.pc == RecvWait || Calling(T) || Waiting(T))
    && (Calling(T) ==> T.pending)
    && (Waiting(T) ==> T.chan == ProcChan(T.proc))
  }

  predicate FamilyOk(y: Sys, p: nat)
    requires Shape(y) && p < |y.procs|
  {
    && y.threads[y.procs[p].main].proc == p
    && forall i | 0 <= i < |y.procs[p].children| :: y.procs[y.procs[p].children[i]].parent == Some(p)
  }

  ghost predicate Inv(y: Sys) {
    && Shape(y)
    && (forall t | 0 <= t < |y.threads| :: LocalOk(y.threads[t], y.cur == Some(t)))
    && (forall t | 0 <= t < |y.threads| && Waiting(y.threads[t]) :: NoneFinished(y, y.threads[t].proc))
    && (forall p | 0 <= p < |y.procs| :: FamilyOk(y, p))
  }

  // --------------------------------------------------------------- proofs

  /** A change to one thread that neither starts a wait nor finishes an exit. */
  predicate Tame(T: Thread, U: Thread) {
    && U.proc == T.proc
    && (Waiting(U) ==> Waiting(T))
    && (Finished(U) ==> Finished(T))
  }

  lemma ThreadsOnly(y: Sys, z: Sys)
    requires Inv(y) && Shape(z) && |z.threads| == |y.threads| && z.procs == y.procs
    requires forall t | 0 <= t < |y.threads| :: Tame(y.threads[t], z.threads[t]) && LocalOk(z.threads[t], z.cur == Some(t))
    ensures Inv(z)
  {
    hide LocalOk, Waiting, Finished;
    forall p | 0 <= p < |z.procs| ensures FamilyOk(z, p) { assert FamilyOk(y, p); }
    forall t | 0 <= t < |z.threads| && Waiting(z.threads[t]) ensures NoneFinished(z, z.threads[t].proc) {
      assert NoneFinished(y, y.threads[t].proc);
    }
  }

  /** The same family with possibly fewer children listed. */
  predicate Fewer(P: Proc, Q: Proc) {
    && Q.main == P.main && Q.parent == P.parent
    && forall i | 0 <= i < |Q.children| :: Q.children[i] in P.children
  }

  /** Like `ThreadsOnly`, but children may leave their parent's list. */
  lemma FewerChildren(y: Sys, z: Sys)
    requires Inv(y) && Shape(z) && |z.threads| == |y.threads| && |z.procs| == |y.procs|
    requires forall t | 0 <= t < |y.threads| :: Tame(y.threads[t], z.threads[t]) && LocalOk(z.threads[t], z.cur == Some(t))
    requires forall p | 0 <= p < |y.procs| :: Fewer(y.procs[p], z.procs[p])
    ensures Inv(z)
  {
    hide LocalOk, Waiting, Finished;
    forall p | 0 <= p < |z.procs| ensures FamilyOk(z, p) {
      assert FamilyOk(y, p) && Fewer(y.procs[p], z.procs[p]);
    }
    forall t | 0 <= t < |z.threads| && Waiting(z.threads[t]) ensures NoneFinished(z, z.threads[t].proc) {
      assert NoneFinished(y, y.threads[t].proc) && Fewer(y.procs[y.threads[t].proc], z.procs[y.threads[t].proc]);
    }
  }

  lemma ReapInv(y: Sys, t: nat, k: nat)
    requires Inv(y) && y.cur == Some(t) && y.threads[t].pc == WaitScan && k < |y.procs[y.threads[t].proc].children|
    ensures Inv(Reap(y, t, k))
  {
    var z := Reap(y, t, k);
    assert LocalOk(y.threads[t], true);
    forall p | 0 <= p < |y.procs| ensures Fewer(y.procs[p], z.procs[p]) {}
    forall u | 0 <= u < |y.threads| ensures Tame(y.threads[u], z.threads[u]) && LocalOk(z.threads[u], z.cur == Some(u)) {
      assert LocalOk(y.threads[u], y.cur == Some(u));
    }
    FewerChildren(y, z);
  }

  /** Arming the wait happens only when no child is a zombie. */
  lemma ArmInv(y: Sys, t: nat)
    requires Inv(y) && y.cur == Some(t) && y.threads[t].pc == WaitScan
    requires FirstZombie(y, y.procs[y.threads[t].proc].children).None?
    ensures Inv(Set(y, t, y.threads[t].(chan := ProcChan(y.threads[t].proc), state := Sleeping, pc := WaitArmed)))
  {
    var z := Set(y, t, y.threads[t].(chan := ProcChan(y.threads[t].proc), state := Sleeping, pc := WaitArmed));
    assert LocalOk(y.threads[t], true);
    forall p | 0 <= p < |z.procs| ensures FamilyOk(z, p) { assert FamilyOk(y, p); }
    forall u | 0 <= u < |z.threads| ensures LocalOk(z.threads[u], z.cur == Some(u)) {
      assert LocalOk(y.threads[u], y.cur == Some(u));
    }
    forall u | 0 <= u < |z.threads| && Waiting(z.threads[u]) ensures NoneFinished(z, z.threads[u].proc) {
      if u != t { assert NoneFinished(y, y.threads[u].proc); }
    }
  }

  lemma ScanInv(y: Sys, t: nat)
    requires Inv(y) && y.cur == Some(t) && y.threads[t].pc == WaitScan
    ensures Inv(Scan(y, t))
  {
    hide Reap, FirstZombie, FamilyOk;
    assert LocalOk(y.threads[t], true);
    var q := y.procs[y.threads[t].proc].children;
    if q == [] {
      SetInv(y, t, y.threads[t].(pc := User));
    } else if FirstZombie(y, q).Some? {
      ReapInv(y, t, FirstZombie(y, q).value);
    } else {
      ArmInv(y, t);
    }
  }

  /** The executing thread changes only itself, and stays off every wait. */
  lemma SetInv(y: Sys, t: nat, T: Thread)
    requires Inv(y) && y.cur == Some(t) && T.proc == y.threads[t].proc
    requires LocalOk(y.threads[t], true) ==> LocalOk(T, true) && !Waiting(T)
    requires T.caller.Some? ==> T.caller.value < |y.threads|
    requires Finished(T) ==> Finished(y.threads[t])
    ensures Inv(Set(y, t, T))
  {
    var z := Set(y, t, T);
    assert LocalOk(y.threads[t], true);
    forall u | 0 <= u < |y.threads| ensures Tame(y.threads[u], z.threads[u]) && LocalOk(z.threads[u], z.cur == Some(u)) {
      assert LocalOk(y.threads[u], y.cur == Some(u));
    }
    ThreadsOnly(y, z);
  }

  /** Waking a thread is always harmless. */
  lemma WakeupInv(y: Sys, t: nat)
    requires Inv(y) && t < |y.threads|
    ensures Inv(Wakeup(y, t))
  {
    var z := Wakeup(y, t);
    forall u | 0 <= u < |y.threads| ensures Tame(y.threads[u], z.threads[u]) && LocalOk(z.threads[u], z.cur == Some(u)) {
      assert LocalOk(y.threads[u], y.cur == Some(u));
    }
    ThreadsOnly(y, z);
  }

  /** Setting a thread's pointers or raising its pending flag is always harmless. */
  lemma FieldsInv(y: Sys, t: nat, T: Thread)
    requires Inv(y) && t < |y.threads|
    requires T == y.threads[t].(caller := T.caller, met := T.met, pending := T.pending)
    requires T.caller.Some? ==> T.caller.value < |y.threads|
    requires Calling(T) ==> T.pending
    ensures Inv(Set(y, t, T))
  {
    var z := Set(y, t, T);
    forall u | 0 <= u < |y.threads| ensures Tame(y.threads[u], z.threads[u]) && LocalOk(z.threads[u], z.cur == Some(u)) {
      assert LocalOk(y.threads[u], y.cur == Some(u));
    }
    ThreadsOnly(y, z);
  }

  /** Posting a reply clears the flag of a thread that is awake by the end of the section. */
  lemma PostInv(y: Sys, c: nat)
    requires Inv(y) && c < |y.threads|
    ensures Inv(PostReply(y, c))
  {
    var z := PostReply(y, c);
    forall u | 0 <= u < |y.threads| ensures Tame(y.threads[u], z.threads[u]) && LocalOk(z.threads[u], z.cur == Some(u)) {
      assert LocalOk(y.threads[u], y.cur == Some(u));
    }
    ThreadsOnly(y, z);
  }

  lemma ForkFamily(y: Sys, t: nat)
    requires Inv(y) && y.cur == Some(t)
    ensures Shape(Fork(y, t)) && forall p | 0 <= p < |Fork(y, t).procs| :: FamilyOk(Fork(y, t), p)
  {
    hide LocalOk;
    forall q | 0 <= q < |Fork(y, t).procs| ensures FamilyOk(Fork(y, t), q) {
      if q < |y.procs| { assert FamilyOk(y, q); }
    }
  }

  lemma ForkInv(y: Sys, t: nat)
    requires Inv(y) && y.cur == Some(t) && y.threads[t].pc == User
    ensures Inv(Fork(y, t))
  {
    hide NoneFinished, FamilyOk;
    var z := Fork(y, t);
    ForkFamily(y, t);
    assert LocalOk(y.threads[t], true);
    forall u | 0 <= u < |z.threads| ensures LocalOk(z.threads[u], z.cur == Some(u)) {
      if u < |y.threads| { assert LocalOk(y.threads[u], y.cur == Some(u)); }
    }
    forall u | 0 <= u < |z.threads| && Waiting(z.threads[u]) ensures NoneFinished(z, z.threads[u].proc) {
      ForkQuiet(y, t, u);
    }
  }

  lemma ForkQuiet(y: Sys, t: nat, u: nat)
    requires Inv(y) && y.cur == Some(t) && u < |Fork(y, t).threads| && Waiting(Fork(y, t).threads[u])
    ensures Shape(Fork(y, t)) && NoneFinished(Fork(y, t), Fork(y, t).threads[u].proc)
  {
    var z := Fork(y, t);
    var q := y.threads[u].proc;
    assert NoneFinished(y, q);
    forall i | 0 <= i < |z.procs[q].children| ensures !Finished(z.threads[z.procs[z.procs[q].children[i]].main]) {
      if i < |y.procs[q].children| { assert z.procs[q].children[i] == y.procs[q].children[i]; }
    }
  }

  lemma ExitMarkInv(y: Sys, t: nat)
    requires Inv(y) && y.cur == Some(t) && y.threads[t].pc == Exiting
    ensures Inv(ExitMark(y, t))
  {
    var z := ExitMark(y, t);
    var T := z.threads[t];
    assert LocalOk(y.threads[t], true);
    forall p | 0 <= p < |y.procs| ensures Fewer(y.procs[p], z.procs[p]) {}
    forall u | 0 <= u < |y.threads| ensures Tame(y.threads[u], z.threads[u]) && LocalOk(z.threads[u], z.cur == Some(u)) {
      assert LocalOk(y.threads[u], y.cur == Some(u));
    }
    FewerChildren(y, z);
  }

  lemma ExitFamily(y: Sys, t: nat)
    requires Inv(y) && y.cur == Some(t)
    ensures Shape(ExitWakeup(y, t)) && forall p | 0 <= p < |y.procs| :: FamilyOk(ExitWakeup(y, t), p)
  {
    hide LocalOk;
    forall p | 0 <= p < |y.procs| ensures FamilyOk(ExitWakeup(y, t), p) { assert FamilyOk(y, p); }
  }

  /** Telling the parent: its sleepers are woken, and no other process has this child. */
  lemma ExitWakeupInv(y: Sys, t: nat)
    requires Inv(y) && y.cur == Some(t) && y.threads[t].pc == ExitWake
    ensures Inv(ExitWakeup(y, t))
  {
    hide NoneFinished, FamilyOk;
    var z := ExitWakeup(y, t);
    ExitFamily(y, t);
    assert LocalOk(y.threads[t], true);
    forall u | 0 <= u < |z.threads| ensures LocalOk(z.threads[u], z.cur == Some(u)) {
      assert LocalOk(y.threads[u], y.cur == Some(u));
    }
    forall u | 0 <= u < |z.threads| && Waiting(z.threads[u]) ensures NoneFinished(z, z.threads[u].proc) {
      ExitQuiet(y, t, u);
    }
  }

  lemma ExitQuiet(y: Sys, t: nat, u: nat)
    requires Inv(y) && y.cur == Some(t) && y.threads[t].pc == ExitWake
    requires u < |y.threads| && Waiting(ExitWakeup(y, t).threads[u])
    ensures Shape(ExitWakeup(y, t)) && NoneFinished(ExitWakeup(y, t), y.threads[u].proc)
  {
    var z := ExitWakeup(y, t);
    var q := y.threads[u].proc;
    assert Waiting(y.threads[u]) && LocalOk(y.threads[u], y.cur == Some(u)) && NoneFinished(y, q);
    forall i | 0 <= i < |y.procs[q].children| ensures !Finished(z.threads[y.procs[y.procs[q].children[i]].main]) {
      assert FamilyOk(y, q) && FamilyOk(y, y.procs[q].children[i]);
    }
  }

  lemma SwitchInv(y: Sys, own: bool, next: Option<nat>)
    requires Inv(y) && Enabled(y, ASwitch(own, next))
    ensures Inv(SwitchTo(y, own, next))
  {
    var z := SwitchTo(y, own, next);
    forall t | 0 <= t < |y.threads| ensures Tame(y.threads[t], z.threads[t]) && LocalOk(z.threads[t], z.cur == Some(t)) {
      assert LocalOk(y.threads[t], y.cur == Some(t));
    }
    ThreadsOnly(y, z);
  }

  lemma HandOverInv(y: Sys, c: nat, call: bool)
    requires Inv(y) && Enabled(y, AHandOver(c, call))
    ensures Inv(Step(y, AHandOver(c, call)))
  {
    hide Inv, Waiting, Finished, Shape;
    Basics(y);
    var t := y.cur.value;
    Callers(y, t);
    Callers(y, c);
    FieldsInv(y, c, y.threads[c].(met := true, pending := call));
    var y1 := Set(y, c, y.threads[c].(met := true, pending := call));
    if call {
      FieldsInv(y1, t, y1.threads[t].(caller := Some(c)));
      WakeupInv(Set(y1, t, y.threads[t].(caller := Some(c))), c);
    } else {
      WakeupInv(y1, c);
    }
  }

  lemma DeliverInv(y: Sys, s: nat, call: bool)
    requires Inv(y) && Enabled(y, ADeliver(s, call))
    ensures Inv(Step(y, ADeliver(s, call)))
  {
    hide Inv, Shape;
    Basics(y);
    var t := y.cur.value;
    Callers(y, s);
    var S := y.threads[s].(met := true);
    if call {
      FieldsInv(y, s, S.(caller := Some(t)));
      var y1 := Set(y, s, S.(caller := Some(t)));
      Callers(y1, t);
      SetInv(y1, t, y.threads[t].(pending := true, pc := CallCheck));
      WakeupInv(Set(y1, t, y.threads[t].(pending := true, pc := CallCheck)), s);
    } else {
      FieldsInv(y, s, S);
      WakeupInv(Set(y, s, S), s);
    }
  }

  lemma Basics(y: Sys)
    requires Inv(y)
    ensures Shape(y) && (y.cur.Some? ==> y.cur.value < |y.threads|)
  {
  }

  lemma Callers(y: Sys, t: nat)
    requires Inv(y) && t < |y.threads|
    ensures LocalOk(y.threads[t], y.cur == Some(t))
    ensures y.threads[t].caller.Some? ==> y.threads[t].caller.value < |y.threads|
  {
  }

  lemma ReplyInv(y: Sys, a: Action)
    requires Inv(y) && Enabled(y, a) && (a.AReply? || a.AExitClean?)
    ensures Inv(Step(y, a))
  {
    hide Inv, Shape;
    Basics(y);
    var t := y.cur.value;
    var c := y.threads[t].caller;
    Callers(y, t);
    var y1 := y;
    if c.Some? {
      FieldsInv(y, t, y.threads[t].(caller := None));
      PostInv(Set(y, t, y.threads[t].(caller := None)), c.value);
      y1 := PostReply(Set(y, t, y.threads[t].(caller := None)), c.value);
    }
    if a.AExitClean? {
      Callers(y1, t);
      SetInv(y1, t, y1.threads[t].(pending := false, pc := Exiting));
    }
  }

  lemma OwnInv(y: Sys, a: Action)
    requires Inv(y) && Enabled(y, a)
    requires a.ASendEnqueue? || a.ASendSleep? || a.ASendDone? || a.ARecvEnqueue? || a.ARecvSleep? || a.ARecvDone? || a.ACheck? || a.AWaitBegin? || a.AClear?
    ensures Inv(Step(y, a))
  {
    hide Inv, Shape;
    Basics(y);
    Callers(y, y.cur.value);
    SetInv(y, y.cur.value, Step(y, a).threads[y.cur.value]);
  }

  /** Every lock section keeps the invariant. */
  lemma StepInv(y: Sys, a: Action)
    requires Inv(y) && Enabled(y, a)
    ensures Inv(Step(y, a))
  {
    hide Inv, LocalOk, Waiting, Finished, Tame, Scan, Fork, ExitMark, ExitWakeup, SwitchTo;
    match a
    case ASwitch(own, next) => SwitchInv(y, own, next);
    case AScan => ScanInv(y, y.cur.value);
    case AFork => ForkInv(y, y.cur.value);
    case AExitMark => ExitMarkInv(y, y.cur.value);
    case AExitWake => ExitWakeupInv(y, y.cur.value);
    case AHandOver(c, call) => HandOverInv(y, c, call);
    case ADeliver(s, call) => DeliverInv(y, s, call);
    case AReply => ReplyInv(y, a);
    case AExitClean => ReplyInv(y, a);
    case _ => OwnInv(y, a);
  }

  // ----------------------------------------------------------------- runs

  function Boot(): Sys {
    Sys([Thread(User, Running, false, NoChan, false, None, false, 0)], [Proc(None, [], 0, 1)], Some(0))
  }

  lemma BootInv()
    ensures Inv(Boot()) && Tidy(Boot())
  {
    assert LocalOk(Boot().threads[0], true);
  }

  ghost predicate EnabledRun(y: Sys, run: seq<Action>)
    requires Inv(y)
    decreases |run|
  {
    run == [] || (Enabled(y, run[0]) && (StepInv(y, run[0]); EnabledRun(Step(y, run[0]), run[1..])))
  }

  ghost function Run(y: Sys, run: seq<Action>): Sys
    requires Inv(y) && EnabledRun(y, run)
    decreases |run|
  {
    if run == [] then y else StepInv(y, run[0]); Run(Step(y, run[0]), run[1..])
  }

  lemma {:induction false} RunInv(y: Sys, run: seq<Action>)
    requires Inv(y) && EnabledRun(y, run)
    ensures Inv(Run(y, run))
    decreases |run|
  {
    hide Inv, Step, Enabled;
    if run != [] {
      Basics(y);
      StepInv(y, run[0]);
      RunInv(Step(y, run[0]), run[1..]);
    }
  }

  /**
   No lost wakeup in `ipc_call`: after any interleaving a thread asleep in the
   reply wait has no reply posted, and one whose reply is posted can run.
   */
  lemma NoLostReply(y: Sys, run: seq<Action>, t: nat)
    requires Inv(y) && EnabledRun(y, run) && t < |Run(y, run).threads|
    ensures var z := Run(y, run); var T := z.threads[t];
      T.pc == CallCheck || T.pc == CallArmed ==>
        && (T.state == Sleeping ==> T.pending)
        && (!T.pending && T.state != Zombie && T.state != Dead ==> T.queued || z.cur == Some(t))
  {
    RunInv(y, run);
    Callers(Run(y, run), t);
  }

  /**
   No lost wakeup in `process_wait`: after any interleaving a thread asleep there
   has no child that is a zombie and has finished its exit wakeup.
   */
  lemma NoLostExit(y: Sys, run: seq<Action>, t: nat, c: nat)
    requires Inv(y) && EnabledRun(y, run)
    ensures var z := Run(y, run);
      && Shape(z)
      && (t < |z.threads| && Waiting(z.threads[t]) && c in z.procs[z.threads[t].proc].children ==>
            c < |z.procs| && !Finished(z.threads[z.procs[c].main]))
  {
    RunInv(y, run);
    var z := Run(y, run);
    if t < |z.threads| && Waiting(z.threads[t]) {
      assert NoneFinished(z, z.threads[t].proc);
    }
  }

  /** Whoever can run is executing or queued: the queue forgets nobody. */
  lemma RunnableIsQueued(y: Sys, run: seq<Action>, t: nat)
    requires Inv(y) && EnabledRun(y, run) && t < |Run(y, run).threads|
    ensures Run(y, run).threads[t].state == Running <==>
            Run(y, run).threads[t].queued || (Run(y, run).cur == Some(t) && Run(y, run).threads[t].state == Running)
    ensures !(Run(y, run).threads[t].queued && Run(y, run).cur == Some(t))
  {
    RunInv(y, run);
    Callers(Run(y, run), t);
  }

  // ------------------------------------------- blocking sends and receives

  /** Asleep although the partner has come and gone: nobody will wake it. */
  predicate Lost(T: Thread) {
    (T.pc == SendWait || T.pc == RecvWait) && T.state == Sleeping && T.met
  }

  /** On a queue, with the lock released, but not yet marked asleep. */
  predicate Between(T: Thread) {
    T.pc == SendQueued || T.pc == RecvQueued
  }

  lemma SwitchStrands(y: Sys, own: bool, next: Option<nat>, t: nat)
    requires Shape(y) && Enabled(y, ASwitch(own, next)) && t < |y.threads| && !Lost(y.threads[t])
    ensures |SwitchTo(y, own, next).threads| == |y.threads| && !Lost(SwitchTo(y, own, next).threads[t])
    ensures Between(SwitchTo(y, own, next).threads[t]) ==> Between(y.threads[t])
  {
  }

  lemma PartnerStrands(y: Sys, a: Action, t: nat)
    requires Shape(y) && Enabled(y, a) && t < |y.threads| && !Lost(y.threads[t])
    requires a.AHandOver? || a.ADeliver? || a.AReply? || a.AExitClean?
    ensures t < |Step(y, a).threads| && !Lost(Step(y, a).threads[t]) && (Between(Step(y, a).threads[t]) ==> Between(y.threads[t]))
  {
  }

  lemma OwnStrands(y: Sys, a: Action, t: nat)
    requires Inv(y) && Enabled(y, a) && t < |y.threads| && !Lost(y.threads[t])
    requires a.ASendEnqueue? || a.ASendSleep? || a.ASendDone? || a.ARecvEnqueue? || a.ARecvSleep? || a.ARecvDone? || a.ACheck? || a.AWaitBegin? || a.AClear?
    ensures t < |Step(y, a).threads|
    ensures Lost(Step(y, a).threads[t]) <==> (a.ASendSleep? || a.ARecvSleep?) && y.cur == Some(t) && y.threads[t].met
    ensures Between(Step(y, a).threads[t]) ==>
              || (y.cur == Some(t) && Step(y, a).cur == Some(t) && !Step(y, a).threads[t].met)
              || (y.cur != Some(t) && Between(y.threads[t]))
  {
    hide Inv, Shape;
    Basics(y);
  }

  /**
   A blocking send or receive releases its lock before it marks itself asleep.  At this
   granularity a step strands a thread exactly when it is that thread going to sleep
   after its partner has already been there.
   */
  lemma SleepLostIff(y: Sys, a: Action, t: nat)
    requires Inv(y) && Enabled(y, a) && t < |y.threads| && !Lost(y.threads[t])
    ensures t < |Step(y, a).threads|
    ensures Lost(Step(y, a).threads[t]) <==> (a.ASendSleep? || a.ARecvSleep?) && y.cur == Some(t) && y.threads[t].met
  {
    hide Inv, Shape, Lost, Scan, Fork, ExitMark, ExitWakeup, SwitchTo, Set, Wakeup, PostReply;
    Basics(y);
    match a
    case ASwitch(own, next) => SwitchStrands(y, own, next, t);
    case AScan => QuietSteps(y, y.cur.value, t);
    case AFork => QuietSteps(y, y.cur.value, t);
    case AExitMark => QuietSteps(y, y.cur.value, t);
    case AExitWake => QuietSteps(y, y.cur.value, t);
    case AHandOver(_, _) => PartnerStrands(y, a, t);
    case ADeliver(_, _) => PartnerStrands(y, a, t);
    case AReply => PartnerStrands(y, a, t);
    case AExitClean => PartnerStrands(y, a, t);
    case _ => OwnStrands(y, a, t);
  }

  /** Process steps strand nobody and put nobody on a queue. */
  lemma QuietSteps(y: Sys, c: nat, t: nat)
    requires Inv(y) && c < |y.threads| && t < |y.threads| && !Lost(y.threads[t])
    ensures y.threads[c].pc == WaitScan ==>
              |Scan(y, c).threads| == |y.threads| && !Lost(Scan(y, c).threads[t]) && (Between(Scan(y, c).threads[t]) ==> Between(y.threads[t]))
    ensures |Fork(y, c).threads| == |y.threads| + 1 && Fork(y, c).threads[t] == y.threads[t] && Fork(y, c).threads[|y.threads|].pc == User
    ensures |ExitMark(y, c).threads| == |y.threads| && !Lost(ExitMark(y, c).threads[t]) && (Between(ExitMark(y, c).threads[t]) ==> Between(y.threads[t]))
    ensures |ExitWakeup(y, c).threads| == |y.threads| && !Lost(ExitWakeup(y, c).threads[t]) && (Between(ExitWakeup(y, c).threads[t]) ==> Between(y.threads[t]))
  {
    hide FirstZombie;
  }

  /** Nobody is switched out between queueing itself and marking itself asleep. */
  predicate Unbroken(y: Sys, a: Action)
    requires Shape(y)
  {
    a.ASwitch? && y.cur.Some? ==> !Between(y.threads[y.cur.value])
  }

  /** Only the executing thread can be between the two, its partner has not come, and nobody is stranded. */
  predicate Tidy(y: Sys) {
    forall t | 0 <= t < |y.threads| ::
      !Lost(y.threads[t]) && (Between(y.threads[t]) ==> y.cur == Some(t) && !y.threads[t].met)
  }

  lemma StepTidy(y: Sys, a: Action)
    requires Inv(y) && Tidy(y) && Enabled(y, a) && Unbroken(y, a)
    ensures Tidy(Step(y, a))
  {
    hide Inv, Shape, Lost, Between, Step, Enabled, Unbroken;
    Basics(y);
    var z := Step(y, a);
    forall t | 0 <= t < |z.threads|
      ensures !Lost(z.threads[t]) && (Between(z.threads[t]) ==> z.cur == Some(t) && !z.threads[t].met)
    {
      if t < |y.threads| { StaysTidy(y, a, t); } else { NewTidy(y, a, t); }
    }
  }

  lemma NewTidy(y: Sys, a: Action, t: nat)
    requires Inv(y) && Enabled(y, a) && |y.threads| <= t < |Step(y, a).threads|
    ensures !Lost(Step(y, a).threads[t]) && !Between(Step(y, a).threads[t])
  {
    hide Inv, Shape, FirstZombie;
    Basics(y);
  }

  lemma StaysTidy(y: Sys, a: Action, t: nat)
    requires Inv(y) && Tidy(y) && Enabled(y, a) && Unbroken(y, a) && t < |y.threads|
    ensures t < |Step(y, a).threads| && !Lost(Step(y, a).threads[t])
    ensures Between(Step(y, a).threads[t]) ==> Step(y, a).cur == Some(t) && !Step(y, a).threads[t].met
  {
    hide Inv, Shape, Lost, Scan, Fork, ExitMark, ExitWakeup, SwitchTo, Set, Wakeup, PostReply;
    Basics(y);
    SleepLostIff(y, a, t);
    assert Between(y.threads[t]) ==> y.cur == Some(t) && !y.threads[t].met;
    match a
    case ASwitch(own, next) => SwitchStrands(y, own, next, t);
    case AScan => QuietSteps(y, y.cur.value, t);
    case AFork => QuietSteps(y, y.cur.value, t);
    case AExitMark => QuietSteps(y, y.cur.value, t);
    case AExitWake => QuietSteps(y, y.cur.value, t);
    case AHandOver(_, _) => PartnerStrands(y, a, t);
    case ADeliver(_, _) => PartnerStrands(y, a, t);
    case AReply => PartnerStrands(y, a, t);
    case AExitClean => PartnerStrands(y, a, t);
    case _ => OwnStrands(y, a, t);
  }

  ghost predicate UnbrokenRun(y: Sys, run: seq<Action>)
    requires Inv(y) && EnabledRun(y, run)
    decreases |run|
  {
    run == [] || (Unbroken(y, run[0]) && (StepInv(y, run[0]); UnbrokenRun(Step(y, run[0]), run[1..])))
  }

  /**
   On one CPU that never switches between a thread's queueing and its falling asleep,
   no blocking send or receive is ever left asleep after its partner has come.
   */
  lemma {:induction false} NoLostPartner(y: Sys, run: seq<Action>)
    requires Inv(y) && Tidy(y) && EnabledRun(y, run) && UnbrokenRun(y, run)
    ensures Tidy(Run(y, run))
    decreases |run|
  {
    hide Inv, Step, Enabled, Tidy, Unbroken;
    if run != [] {
      Basics(y);
      StepInv(y, run[0]);
      StepTidy(y, run[0]);
      NoLostPartner(Step(y, run[0]), run[1..]);
    }
  }

  // ---------------------------------------------------- with a switch between

  /** A thread that will block, sending or receiving, and its partner, in separate processes. */
  function Pair(pc: Pc, met: bool, cur: nat): Sys {
    Sys([Thread(pc, Running, cur != 0, NoChan, false, None, met, 0),
         Thread(User, Running, cur != 1, NoChan, false, None, false, 1)],
        [Proc(None, [1], 0, 1), Proc(Some(0), [], 1, 1)], Some(cur))
  }

  function Queued(recv: bool): Pc {
    if recv then RecvQueued else SendQueued
  }

  lemma PairInv()
    ensures Inv(Pair(User, false, 0))
  {
    var y0 := Pair(User, false, 0);
    assert LocalOk(y0.threads[0], true) && LocalOk(y0.threads[1], false);
  }

  /** It queues itself, releases the lock and is switched out. */
  lemma PreemptedBetween(recv: bool)
    ensures Inv(Pair(User, false, 0)) && Enabled(Pair(User, false, 0), if recv then ARecvEnqueue else ASendEnqueue)
    ensures var y := Step(Pair(User, false, 0), if recv then ARecvEnqueue else ASendEnqueue);
      && Shape(y) && Enabled(y, ASwitch(false, Some(1))) && !Unbroken(y, ASwitch(false, Some(1)))
      && Step(y, ASwitch(false, Some(1))) == Pair(Queued(recv), false, 1)
  {
    hide Inv;
    PairInv();
    var y0 := Pair(User, false, 0);
    assert Step(y0, if recv then ARecvEnqueue else ASendEnqueue) == Pair(Queued(recv), false, 0);
  }

  /** Its partner comes and goes; the wakeup ignores a thread still marked running. */
  lemma PartnerComes(recv: bool)
    ensures var y := Pair(Queued(recv), false, 1); var a := if recv then ADeliver(0, false) else AHandOver(0, false);
      Shape(y) && Enabled(y, a) && Step(y, a) == Pair(Queued(recv), true, 1)
  {
  }

  /** Such a run ends with the thread asleep for good. */
  lemma SleepCanBeLost(recv: bool)
    ensures Shape(Pair(Queued(recv), true, 1)) && Enabled(Pair(Queued(recv), true, 1), ASwitch(false, Some(0)))
    ensures Step(Pair(Queued(recv), true, 1), ASwitch(false, Some(0))) == Pair(Queued(recv), true, 0)
    ensures var a := if recv then ARecvSleep else ASendSleep;
      Shape(Pair(Queued(recv), true, 0)) && Enabled(Pair(Queued(recv), true, 0), a) && Lost(Step(Pair(Queued(recv), true, 0), a).threads[0])
  {
    assert Step(Pair(Queued(recv), true, 1), ASwitch(false, Some(0))).threads == Pair(Queued(recv), true, 0).threads;
  }
}
