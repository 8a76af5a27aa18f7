/**
 Synchronous message passing (kernel/ipc/message.c and the endpoint teardown of
 kernel/ipc/endpoint.c) as a transition system.  One transition is what a thread
 does between entering the kernel (or being resumed) and returning or going to
 sleep: on one CPU nothing else runs in between.

 Threads and endpoints are named by their position in a table.  The wait record a
 blocked thread allocates is kept in its own table entry.
 */
module Ipc {

  import opened Common

  const OK := 0
  const ERR_INVALID := 1
  const ERR_DEAD := 2
  const ERR_OVERFLOW := 5
  const ERR_NOPARTNER := 6
  const ERR_BUSY := 7

  const WINDOW_SIZE: nat := 4096

  /** A 64-bit tag and eight 64-bit registers. */
  datatype Msg = Msg(tag: nat, regs: seq<nat>)

  datatype OpKind = SEND | CALL | RECV

  /** Where a thread stands: outside the kernel, or asleep (or just woken) in one of the three waits. */
  datatype Place = User | SendWait | RecvWait | ReplyWait

  datatype Thread = Thread(
    alive: bool, asleep: bool, at: Place, proc: Option<nat>,
    ep: nat, buf: Msg, op: OpKind, result: int,
    caller: Option<nat>, server: Option<nat>,
    pending: bool, replyResult: int, replyTag: nat, replyRegs: seq<nat>)

  datatype Endpoint = Endpoint(dead: bool, sendQ: seq<nat>, recvQ: seq<nat>, sent: nat, received: nat)

  /** `windows` maps a process to its IPC window page, if one is set up. */
  datatype Kernel = Kernel(
    threads: seq<Thread>, eps: seq<Endpoint>, windows: map<nat, seq<nat>>, total: nat, fastPath: nat)

  /** Asleep, or returned with a result; only a received or reply message is worth reading. */
  datatype Ret = Blocked | Done(res: int, msg: Msg)

  const NoMsg := Msg(0, [])

  function Fail(err: int): Ret {
    Done(err, NoMsg)
  }

  // ------------------------------------------------------- window slices

  predicate NonBlock(tag: nat) {
    (tag / 0x2000_0000) % 2 == 1
  }

  predicate HasSlice(tag: nat) {
    (tag / 0x4000_0000) % 2 == 1
  }

  function SliceOff(m: Msg): nat {
    if m.regs == [] then 0 else m.regs[0] / 0x1_0000_0000
  }

  function SliceLen(m: Msg): nat {
    if m.regs == [] then 0 else m.regs[0] % 0x1_0000_0000
  }

  /** The error of copying the message's slice from one window to another, OK if there is none. */
  function SliceError(w: map<nat, seq<nat>>, src: Option<nat>, dst: Option<nat>, m: Msg): int {
    if !HasSlice(m.tag) then OK
    else if src.None? || dst.None? then ERR_INVALID
    else if SliceLen(m) == 0 then OK
    else if SliceOff(m) + SliceLen(m) > WINDOW_SIZE then ERR_OVERFLOW
    else if src.value !in w || dst.value !in w then ERR_INVALID
    else OK
  }

  /** The windows after a slice copy that met no error. */
  function CopySlice(w: map<nat, seq<nat>>, src: Option<nat>, dst: Option<nat>, m: Msg): map<nat, seq<nat>> {
    if src.None? || dst.None? || !HasSlice(m.tag) || SliceLen(m) == 0 || SliceOff(m) + SliceLen(m) > WINDOW_SIZE
       || src.value !in w || dst.value !in w
       || |w[src.value]| != WINDOW_SIZE || |w[dst.value]| != WINDOW_SIZE then w
    else
      var lo, hi := SliceOff(m), SliceOff(m) + SliceLen(m);
      w[dst.value := w[dst.value][..lo] + w[src.value][lo..hi] + w[dst.value][hi..]]
  }

  // ----------------------------------------------------------- transitions

  predicate Valid(k: Kernel, t: nat) {
    t < |k.threads| && k.threads[t].alive
  }

  /** A thread that is executing outside the kernel and may issue a request. */
  predicate Ready(k: Kernel, t: nat) {
    Valid(k, t) && k.threads[t].at == User && !k.threads[t].asleep
  }

  function Wake(k: Kernel, t: nat): Kernel
    requires t < |k.threads|
  {
    k.(threads := k.threads[t := k.threads[t].(asleep := false)])
  }

  /** `link_call`: overwrites whatever caller the server had. */
  function Link(k: Kernel, c: nat, s: nat): Kernel
    requires c < |k.threads| && s < |k.threads|
  {
    var k1 := k.(threads := k.threads[c := k.threads[c].(pending := true, replyResult := ERR_DEAD, server := Some(s))]);
    k1.(threads := k1.threads[s := k1.threads[s].(caller := Some(c))])
  }

  /** Hand the message to the first waiting receiver. */
  function DirectTransfer(k: Kernel, t: nat, e: nat, m: Msg, op: OpKind): Kernel
    requires t < |k.threads| && e < |k.eps| && k.eps[e].recvQ != [] && k.eps[e].recvQ[0] < |k.threads|
  {
    var E := k.eps[e];
    var r := E.recvQ[0];
    var w := CopySlice(k.windows, k.threads[t].proc, k.threads[r].proc, m);
    var k1 := k.(eps := k.eps[e := E.(recvQ := E.recvQ[1..], sent := E.sent + 1)],
                 threads := k.threads[r := k.threads[r].(buf := m, op := op, result := OK)],
                 windows := w, total := k.total + 1, fastPath := k.fastPath + 1);
    var k2 := if op == CALL then Link(k1, t, r) else k1;
    Wake(k2, r)
  }

  function EnqueueSender(k: Kernel, t: nat, e: nat, m: Msg, op: OpKind): Kernel
    requires t < |k.threads| && e < |k.eps|
  {
    k.(threads := k.threads[t := k.threads[t].(at := SendWait, ep := e, buf := m, op := op,
                                               result := ERR_NOPARTNER, asleep := true)],
       eps := k.eps[e := k.eps[e].(sendQ := k.eps[e].sendQ + [t])])
  }

  /** `ipc_send_op` up to its return or its sleep; `mem` says whether the wait record can be allocated. */
  function SendOp(k: Kernel, t: nat, e: nat, m: Msg, op: OpKind, mem: bool): (Kernel, Ret)
    requires t < |k.threads| && e < |k.eps| && (k.eps[e].recvQ != [] ==> k.eps[e].recvQ[0] < |k.threads|)
  {
    var E := k.eps[e];
    if E.dead then (k, Fail(ERR_DEAD))
    else if E.recvQ != [] then
      var err := SliceError(k.windows, k.threads[t].proc, k.threads[E.recvQ[0]].proc, m);
      if err != OK then (k, Fail(err)) else (DirectTransfer(k, t, e, m, op), Done(OK, NoMsg))
    else if NonBlock(m.tag) then (k, Fail(ERR_NOPARTNER))
    else if !mem then (k, Fail(ERR_BUSY))
    else (EnqueueSender(k, t, e, m, op), Blocked)
  }

  function TakeSender(k: Kernel, t: nat, e: nat): Kernel
    requires t < |k.threads| && e < |k.eps| && k.eps[e].sendQ != [] && k.eps[e].sendQ[0] < |k.threads|
  {
    var E := k.eps[e];
    var s := E.sendQ[0];
    var w := CopySlice(k.windows, k.threads[s].proc, k.threads[t].proc, k.threads[s].buf);
    var k1 := k.(eps := k.eps[e := E.(sendQ := E.sendQ[1..], received := E.received + 1)],
                 threads := k.threads[s := k.threads[s].(result := OK)],
                 windows := w, total := k.total + 1);
    var k2 := if k.threads[s].op == CALL then Link(k1, s, t) else k1;
    Wake(k2, s)
  }

  function RefuseSender(k: Kernel, e: nat, err: int): Kernel
    requires e < |k.eps| && k.eps[e].sendQ != [] && k.eps[e].sendQ[0] < |k.threads|
  {
    var s := k.eps[e].sendQ[0];
    k.(eps := k.eps[e := k.eps[e].(sendQ := k.eps[e].sendQ[1..])],
       threads := k.threads[s := k.threads[s].(result := err, asleep := false)])
  }

  function EnqueueReceiver(k: Kernel, t: nat, e: nat, m: Msg): Kernel
    requires t < |k.threads| && e < |k.eps|
  {
    k.(threads := k.threads[t := k.threads[t].(at := RecvWait, ep := e, buf := m, op := RECV,
                                               result := ERR_NOPARTNER, asleep := true)],
       eps := k.eps[e := k.eps[e].(recvQ := k.eps[e].recvQ + [t])])
  }

  /** `ipc_recv` up to its return or its sleep. */
  function Recv(k: Kernel, t: nat, e: nat, m: Msg, mem: bool): (Kernel, Ret)
    requires t < |k.threads| && e < |k.eps| && (k.eps[e].sendQ != [] ==> k.eps[e].sendQ[0] < |k.threads|)
  {
    var E := k.eps[e];
    if E.dead then (k, Fail(ERR_DEAD))
    else if E.sendQ != [] then
      var S := k.threads[E.sendQ[0]];
      var err := SliceError(k.windows, S.proc, k.threads[t].proc, S.buf);
      if err != OK then (RefuseSender(k, e, err), Fail(err)) else (TakeSender(k, t, e), Done(OK, S.buf))
    else if NonBlock(m.tag) then (k, Fail(ERR_NOPARTNER))
    else if !mem then (k, Fail(ERR_BUSY))
    else (EnqueueReceiver(k, t, e, m), Blocked)
  }

  /** The wait loop of `ipc_call`: sleep while the reply is pending, otherwise collect it. */
  function AwaitReply(k: Kernel, t: nat): (Kernel, Ret)
    requires t < |k.threads|
  {
    var T := k.threads[t];
    if T.pending then
      (k.(threads := k.threads[t := T.(at := ReplyWait, asleep := true)]), Blocked)
    else
      (k.(threads := k.threads[t := T.(at := User, asleep := false, server := None)]),
       if T.replyResult == OK then Done(OK, Msg(T.replyTag, T.replyRegs)) else Fail(T.replyResult))
  }

  /** The second half of `ipc_call`, once its send half has returned `r`. */
  function CallTail(k: Kernel, t: nat, r: int): (Kernel, Ret)
    requires t < |k.threads|
  {
    if r != OK then
      (k.(threads := k.threads[t := k.threads[t].(at := User, pending := false, server := None)]), Fail(r))
    else AwaitReply(k, t)
  }

  function Call(k: Kernel, t: nat, e: nat, m: Msg, mem: bool): (Kernel, Ret)
    requires t < |k.threads| && e < |k.eps| && (k.eps[e].recvQ != [] ==> k.eps[e].recvQ[0] < |k.threads|)
  {
    var (k1, ret) := SendOp(k, t, e, m, CALL, mem);
    if ret.Blocked? then (k1, ret) else CallTail(k1, t, ret.res)
  }

  /** A woken thread continues where it slept. */
  function Resume(k: Kernel, t: nat): (Kernel, Ret)
    requires t < |k.threads| && k.threads[t].at != User
    requires k.threads[t].at != ReplyWait ==> k.threads[t].ep < |k.eps|
  {
    var T := k.threads[t];
    match T.at
    case SendWait =>
      var E := k.eps[T.ep];
      var k1 := k.(eps := k.eps[T.ep := E.(sendQ := Drop(E.sendQ, t))]);
      if T.op == CALL then CallTail(k1, t, T.result)
      else (k1.(threads := k1.threads[t := T.(at := User)]), Fail(T.result))
    case RecvWait =>
      var E := k.eps[T.ep];
      (k.(eps := k.eps[T.ep := E.(recvQ := Drop(E.recvQ, t))], threads := k.threads[t := T.(at := User)]),
       if T.result == OK then Done(OK, T.buf) else Fail(T.result))
    case ReplyWait => AwaitReply(k, t)
  }

  /** `ipc_reply`. */
  function Reply(k: Kernel, t: nat, m: Msg): (Kernel, Ret)
    requires t < |k.threads| && (k.threads[t].caller.Some? ==> k.threads[t].caller.value < |k.threads|)
  {
    var T := k.threads[t];
    if T.caller.None? then (k, Fail(ERR_INVALID))
    else
      var c := T.caller.value;
      var err := SliceError(k.windows, T.proc, k.threads[c].proc, m);
      var k1 := k.(threads := k.threads[t := T.(caller := None)],
                   windows := CopySlice(k.windows, T.proc, k.threads[c].proc, m));
      var C := k1.threads[c];
      var C1 := if err != OK then C.(replyResult := err)
                else C.(replyResult := OK, replyTag := m.tag, replyRegs := m.regs);
      (k1.(threads := k1.threads[c := C1.(pending := false, asleep := false)]), Done(OK, NoMsg))
  }

  /** First half of `ipc_thread_cleanup`: fail the caller this thread owes a reply. */
  function FailCaller(k: Kernel, t: nat): Kernel
    requires t < |k.threads| && (k.threads[t].caller.Some? ==> k.threads[t].caller.value < |k.threads|)
  {
    if k.threads[t].caller.None? then k
    else
      var c := k.threads[t].caller.value;
      var k1 := k.(threads := k.threads[t := k.threads[t].(caller := None)]);
      var C := k1.threads[c];
      k1.(threads := k1.threads[c := C.(server := if C.server == Some(t) then None else C.server,
                                        replyResult := ERR_DEAD, pending := false, asleep := false)])
  }

  /** Second half: make the server this thread waits on forget it. */
  function LeaveServer(k: Kernel, t: nat): Kernel
    requires t < |k.threads| && (k.threads[t].server.Some? ==> k.threads[t].server.value < |k.threads|)
  {
    var T := k.threads[t];
    if T.server.None? then k.(threads := k.threads[t := T.(pending := false)])
    else
      var s := T.server.value;
      var k1 := k.(threads := k.threads[t := T.(server := None, pending := false)]);
      if k1.threads[s].caller == Some(t) then k1.(threads := k1.threads[s := k1.threads[s].(caller := None)]) else k1
  }

  /** `thread_exit`, as far as messages are concerned. */
  function Exit(k: Kernel, t: nat): Kernel
    requires t < |k.threads| && (k.threads[t].caller.Some? ==> k.threads[t].caller.value < |k.threads|)
    requires k.threads[t].server.Some? ==> k.threads[t].server.value < |k.threads|
  {
    var k1 := LeaveServer(FailCaller(k, t), t);
    k1.(threads := k1.threads[t := k1.threads[t].(alive := false)])
  }

  /** Wake every thread of a queue with ERR_DEAD. */
  function FailAll(ts: seq<Thread>, q: seq<nat>): (r: seq<Thread>)
    requires forall i | 0 <= i < |q| :: q[i] < |ts|
    ensures |r| == |ts|
    decreases |q|
  {
    if q == [] then ts
    else FailAll(ts[q[0] := ts[q[0]].(result := ERR_DEAD, asleep := false)], q[1..])
  }

  /** `endpoint_destroy`, as far as messages are concerned. */
  function Destroy(k: Kernel, e: nat): Kernel
    requires e < |k.eps|
    requires forall i | 0 <= i < |k.eps[e].sendQ| :: k.eps[e].sendQ[i] < |k.threads|
    requires forall i | 0 <= i < |k.eps[e].recvQ| :: k.eps[e].recvQ[i] < |k.threads|
  {
    var E := k.eps[e];
    if E.dead then k
    else k.(threads := FailAll(FailAll(k.threads, E.sendQ), E.recvQ),
            eps := k.eps[e := E.(dead := true, sendQ := [], recvQ := [])])
  }

  /** `process_fork`: the child's thread is a copy, reply state included. */
  function Fork(k: Kernel, t: nat, proc: Option<nat>): Kernel
    requires t < |k.threads|
  {
    k.(threads := k.threads + [k.threads[t].(proc := proc)])
  }
}
