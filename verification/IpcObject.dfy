/**
 The message passing code as it runs: tables updated field by field, endpoint
 queues drained in loops.  Every method computes the transition of module `Ipc`
 that carries its name.
 */
module IpcObject {

  import opened Common
  import opened Ipc
  import opened IpcInv

  class MessageKernel {
    var threads: seq<Thread>
    var eps: seq<Endpoint>
    var windows: map<nat, seq<nat>>
    var total: nat
    var fastPath: nat

    ghost function Value(): Kernel
      reads this
    {
      Kernel(threads, eps, windows, total, fastPath)
    }

    constructor ()
      ensures Value() == Kernel([], [], map[], 0, 0)
    {
      threads, eps, windows, total, fastPath := [], [], map[], 0, 0;
    }

    method Wakeup(t: nat)
      requires t < |threads|
      modifies this`threads
      ensures Value() == Wake(old(Value()), t)
    {
      threads := threads[t := threads[t].(asleep := false)];
    }

    method LinkCall(caller: nat, server: nat)
      requires caller < |threads| && server < |threads|
      modifies this`threads
      ensures Value() == Link(old(Value()), caller, server)
    {
      threads := threads[caller := threads[caller].(pending := true)];
      threads := threads[caller := threads[caller].(replyResult := ERR_DEAD)];
      threads := threads[caller := threads[caller].(server := Some(server))];
      threads := threads[server := threads[server].(caller := Some(caller))];
    }

    /** `maybe_copy_window` for two threads. */
    method CopyWindow(src: nat, dst: nat, m: Msg) returns (err: int)
      requires src < |threads| && dst < |threads|
      modifies this`windows
      ensures err == SliceError(old(windows), threads[src].proc, threads[dst].proc, m)
      ensures windows == CopySlice(old(windows), threads[src].proc, threads[dst].proc, m)
    {
      err := OK;
      if HasSlice(m.tag) {
        if threads[src].proc.None? || threads[dst].proc.None? {
          return ERR_INVALID;
        }
        if SliceLen(m) == 0 {
          return OK;
        }
        if SliceOff(m) + SliceLen(m) > WINDOW_SIZE {
          return ERR_OVERFLOW;
        }
        var a, b := threads[src].proc.value, threads[dst].proc.value;
        if a !in windows || b !in windows {
          return ERR_INVALID;
        }
        if |windows[a]| == WINDOW_SIZE && |windows[b]| == WINDOW_SIZE {
          var lo, hi := SliceOff(m), SliceOff(m) + SliceLen(m);
          windows := windows[b := windows[b][..lo] + windows[a][lo..hi] + windows[b][hi..]];
        }
      }
    }

    /** A slice that cannot be copied leaves the windows alone. */
    static lemma ErrorCopiesNothing(w: map<nat, seq<nat>>, a: Option<nat>, b: Option<nat>, m: Msg)
      ensures SliceError(w, a, b, m) != OK ==> CopySlice(w, a, b, m) == w
    {
    }

    /** The transfer to the first waiting receiver, once any window slice is copied. */
    method HandOver(self: nat, e: nat, m: Msg, op: OpKind)
      requires self < |threads| && e < |eps| && eps[e].recvQ != [] && eps[e].recvQ[0] < |threads|
      modifies this`threads, this`eps, this`total, this`fastPath
      ensures Value() == DirectTransfer(old(Value()), self, e, m, op).(windows := windows)
    {
      hide CopySlice;
      var r := eps[e].recvQ[0];
      eps := eps[e := eps[e].(recvQ := eps[e].recvQ[1..])];
      threads := threads[r := threads[r].(buf := m, op := op, result := OK)];
      eps := eps[e := eps[e].(sent := eps[e].sent + 1)];
      total := total + 1;
      fastPath := fastPath + 1;
      if op == CALL {
        LinkCall(self, r);
      }
      Wakeup(r);
      assert threads == DirectTransfer(old(Value()), self, e, m, op).threads;
      assert eps == DirectTransfer(old(Value()), self, e, m, op).eps;
    }

    method SendOp(self: nat, e: nat, m: Msg, op: OpKind, mem: bool) returns (ret: Ret)
      requires QInv(Value()) && self < |threads| && threads[self].alive && e < |eps|
      modifies this
      ensures old(eps[e].recvQ) != [] ==> old(eps[e].recvQ[0]) < |old(threads)|
      ensures (Value(), ret) == Ipc.SendOp(old(Value()), self, e, m, op, mem)
    {
      hide QInv, CopySlice, SliceError;
      HeadQueued(Value(), e);
      if eps[e].dead {
        return Fail(ERR_DEAD);
      }
      if eps[e].recvQ != [] {
        var r := eps[e].recvQ[0];
        ErrorCopiesNothing(windows, threads[self].proc, threads[r].proc, m);
        var err := CopyWindow(self, r, m);
        if err != OK {
          return Fail(err);
        }
        HandOver(self, e, m, op);
        ret := Done(OK, NoMsg);
      } else if NonBlock(m.tag) {
        ret := Fail(ERR_NOPARTNER);
      } else if !mem {
        ret := Fail(ERR_BUSY);
      } else {
        threads := threads[self := threads[self].(ep := e, buf := m, op := op, result := ERR_NOPARTNER)];
        eps := eps[e := eps[e].(sendQ := eps[e].sendQ + [self])];
        threads := threads[self := threads[self].(at := SendWait, asleep := true)];
        ret := Blocked;
        assert threads == EnqueueSender(old(Value()), self, e, m, op).threads;
      }
    }

    method Recv(self: nat, e: nat, m: Msg, mem: bool) returns (ret: Ret)
      requires QInv(Value()) && self < |threads| && threads[self].alive && e < |eps|
      modifies this
      ensures old(eps[e].sendQ) != [] ==> old(eps[e].sendQ[0]) < |old(threads)|
      ensures (Value(), ret) == Ipc.Recv(old(Value()), self, e, m, mem)
    {
      hide QInv, CopySlice, SliceError;
      HeadQueued(Value(), e);
      if eps[e].dead {
        return Fail(ERR_DEAD);
      }
      if eps[e].sendQ != [] {
        var s := eps[e].sendQ[0];
        var msg := threads[s].buf;
        ErrorCopiesNothing(windows, threads[s].proc, threads[self].proc, msg);
        var err := CopyWindow(s, self, msg);
        if err != OK {
          threads := threads[s := threads[s].(result := err)];
          eps := eps[e := eps[e].(sendQ := eps[e].sendQ[1..])];
          Wakeup(s);
          assert threads == RefuseSender(old(Value()), e, err).threads;
          return Fail(err);
        }
        eps := eps[e := eps[e].(sendQ := eps[e].sendQ[1..])];
        threads := threads[s := threads[s].(result := OK)];
        eps := eps[e := eps[e].(received := eps[e].received + 1)];
        total := total + 1;
        if threads[s].op == CALL {
          LinkCall(s, self);
        }
        Wakeup(s);
        ret := Done(OK, msg);
        assert threads == TakeSender(old(Value()), self, e).threads;
        assert eps == TakeSender(old(Value()), self, e).eps;
      } else if NonBlock(m.tag) {
        ret := Fail(ERR_NOPARTNER);
      } else if !mem {
        ret := Fail(ERR_BUSY);
      } else {
        threads := threads[self := threads[self].(ep := e, buf := m, op := RECV, result := ERR_NOPARTNER)];
        eps := eps[e := eps[e].(recvQ := eps[e].recvQ + [self])];
        threads := threads[self := threads[self].(at := RecvWait, asleep := true)];
        ret := Blocked;
        assert threads == EnqueueReceiver(old(Value()), self, e, m).threads;
      }
    }

    /** One round of the wait loop of `ipc_call`. */
    method AwaitReply(self: nat) returns (ret: Ret)
      requires self < |threads|
      modifies this`threads
      ensures (Value(), ret) == Ipc.AwaitReply(old(Value()), self)
    {
      if threads[self].pending {
        threads := threads[self := threads[self].(at := ReplyWait, asleep := true)];
        return Blocked;
      }
      threads := threads[self := threads[self].(at := User, asleep := false)];
      ret := if threads[self].replyResult == OK
             then Done(OK, Msg(threads[self].replyTag, threads[self].replyRegs))
             else Fail(threads[self].replyResult);
      threads := threads[self := threads[self].(server := None)];
      assert threads == Ipc.AwaitReply(old(Value()), self).0.threads;
    }

    method FinishCall(self: nat, r: int) returns (ret: Ret)
      requires self < |threads|
      modifies this`threads
      ensures (Value(), ret) == CallTail(old(Value()), self, r)
    {
      if r != OK {
        threads := threads[self := threads[self].(at := User, pending := false)];
        threads := threads[self := threads[self].(server := None)];
        assert threads == CallTail(old(Value()), self, r).0.threads;
        return Fail(r);
      }
      ret := AwaitReply(self);
    }

    method Call(self: nat, e: nat, m: Msg, mem: bool) returns (ret: Ret)
      requires QInv(Value()) && self < |threads| && threads[self].alive && e < |eps|
      modifies this
      ensures old(eps[e].recvQ) != [] ==> old(eps[e].recvQ[0]) < |old(threads)|
      ensures (Value(), ret) == Ipc.Call(old(Value()), self, e, m, mem)
    {
      hide QInv, CopySlice, SliceError;
      ret := SendOp(self, e, m, CALL, mem);
      if ret.Done? {
        ret := FinishCall(self, ret.res);
      }
    }

    method Reply(self: nat, m: Msg) returns (ret: Ret)
      requires self < |threads| && (threads[self].caller.Some? ==> threads[self].caller.value < |threads|)
      modifies this
      ensures (Value(), ret) == Ipc.Reply(old(Value()), self, m)
    {
      hide CopySlice, SliceError;
      if threads[self].caller.None? {
        return Fail(ERR_INVALID);
      }
      var caller := threads[self].caller.value;
      threads := threads[self := threads[self].(caller := None)];
      var err := CopyWindow(self, caller, m);
      if err != OK {
        threads := threads[caller := threads[caller].(replyResult := err)];
      } else {
        threads := threads[caller := threads[caller].(replyResult := OK)];
        threads := threads[caller := threads[caller].(replyTag := m.tag)];
        threads := threads[caller := threads[caller].(replyRegs := m.regs)];
      }
      threads := threads[caller := threads[caller].(pending := false)];
      Wakeup(caller);
      ret := Done(OK, NoMsg);
      assert threads == Ipc.Reply(old(Value()), self, m).0.threads;
    }

    /** Fail the caller this thread owes a reply. */
    method ReleaseCaller(t: nat)
      requires t < |threads| && (threads[t].caller.Some? ==> threads[t].caller.value < |threads|)
      modifies this`threads
      ensures Value() == FailCaller(old(Value()), t)
    {
      if threads[t].caller.Some? {
        var caller := threads[t].caller.value;
        threads := threads[t := threads[t].(caller := None)];
        var C := threads[caller];
        if C.server == Some(t) {
          C := C.(server := None);
        }
        threads := threads[caller := C.(replyResult := ERR_DEAD, pending := false)];
        Wakeup(caller);
      }
    }

    /** Make the server this thread waits on forget it. */
    method ForgetServer(t: nat)
      requires t < |threads| && (threads[t].server.Some? ==> threads[t].server.value < |threads|)
      modifies this`threads
      ensures Value() == LeaveServer(old(Value()), t)
    {
      if threads[t].server.Some? {
        var server := threads[t].server.value;
        threads := threads[t := threads[t].(server := None)];
        if threads[server].caller == Some(t) {
          threads := threads[server := threads[server].(caller := None)];
        }
      }
      threads := threads[t := threads[t].(pending := false)];
    }

    /** `ipc_thread_cleanup`. */
    method ThreadCleanup(t: nat)
      requires t < |threads| && (threads[t].caller.Some? ==> threads[t].caller.value < |threads|)
      requires threads[t].server.Some? ==> threads[t].server.value < |threads|
      modifies this`threads
      ensures Value() == LeaveServer(FailCaller(old(Value()), t), t)
    {
      ReleaseCaller(t);
      ForgetServer(t);
    }

    /** The drains of `endpoint_destroy`. */
    method Destroy(e: nat)
      requires QInv(Value()) && e < |eps|
      modifies this`threads, this`eps
      ensures forall i | 0 <= i < |old(eps[e].sendQ)| :: old(eps[e].sendQ)[i] < |old(threads)|
      ensures forall i | 0 <= i < |old(eps[e].recvQ)| :: old(eps[e].recvQ)[i] < |old(threads)|
      ensures Value() == Ipc.Destroy(old(Value()), e)
    {
      hide QInv;
      HeadQueued(Value(), e);
      if eps[e].dead {
        return;
      }
      ghost var was := Value();
      eps := eps[e := eps[e].(dead := true)];
      while eps[e].sendQ != []
        invariant |threads| == |was.threads| && |eps| == |was.eps|
        invariant forall i | 0 <= i < |eps[e].sendQ| :: eps[e].sendQ[i] < |threads|
        invariant FailAll(threads, eps[e].sendQ) == FailAll(was.threads, was.eps[e].sendQ)
        invariant eps == was.eps[e := was.eps[e].(dead := true, sendQ := eps[e].sendQ)]
        decreases |eps[e].sendQ|
      {
        var t := eps[e].sendQ[0];
        eps := eps[e := eps[e].(sendQ := eps[e].sendQ[1..])];
        threads := threads[t := threads[t].(result := ERR_DEAD, asleep := false)];
      }
      ghost var mid := threads;
      while eps[e].recvQ != []
        invariant |threads| == |was.threads| && |eps| == |was.eps|
        invariant forall i | 0 <= i < |eps[e].recvQ| :: eps[e].recvQ[i] < |threads|
        invariant FailAll(threads, eps[e].recvQ) == FailAll(mid, was.eps[e].recvQ)
        invariant eps == was.eps[e := was.eps[e].(dead := true, sendQ := [], recvQ := eps[e].recvQ)]
        decreases |eps[e].recvQ|
      {
        var t := eps[e].recvQ[0];
        eps := eps[e := eps[e].(recvQ := eps[e].recvQ[1..])];
        threads := threads[t := threads[t].(result := ERR_DEAD, asleep := false)];
      }
    }

    /** What a thread does after its sleep. */
    method Resume(self: nat) returns (ret: Ret)
      requires self < |threads| && threads[self].at != User
      requires threads[self].at != ReplyWait ==> threads[self].ep < |eps|
      modifies this`threads, this`eps
      ensures (Value(), ret) == Ipc.Resume(old(Value()), self)
    {
      if threads[self].at == ReplyWait {
        ret := AwaitReply(self);
        return;
      }
      var e := threads[self].ep;
      if threads[self].at == SendWait {
        eps := eps[e := eps[e].(sendQ := Drop(eps[e].sendQ, self))];
        if threads[self].op == CALL {
          ret := FinishCall(self, threads[self].result);
          return;
        }
        ret := Fail(threads[self].result);
      } else {
        eps := eps[e := eps[e].(recvQ := Drop(eps[e].recvQ, self))];
        ret := if threads[self].result == OK then Done(OK, threads[self].buf) else Fail(threads[self].result);
      }
      threads := threads[self := threads[self].(at := User)];
    }
  }
}
