/**
 Every transition leaves each thread with reply state that fits the place it
 stands at, whatever its server has done with its call.
 */
module IpcPlaces {

  import opened Common
  import opened Ipc
  import opened IpcInv

  /** Calling puts the caller in the middle of its transition; everybody else stands well. */
  lemma DirectTransferP(k: Kernel, t: nat, e: nat, m: Msg, op: OpKind)
    requires PInv(k) && Ready(k, t) && e < |k.eps| && k.eps[e].recvQ != []
    requires QueuedAt(k, k.eps[e].recvQ[0], e, RecvWait)
    ensures var k' := DirectTransfer(k, t, e, m, op);
            && |k'.threads| == |k.threads| && Places(k', t) && CallersExist(k')
            && k'.threads[t] == if op == CALL
                                then k.threads[t].(pending := true, replyResult := ERR_DEAD, server := Some(k.eps[e].recvQ[0]))
                                else k.threads[t]
  {
    hide CopySlice;
    var k' := DirectTransfer(k, t, e, m, op);
    forall u | 0 <= u < |k'.threads| && u != t ensures PlaceOk(k'.threads[u]) {
      assert PlaceOk(k.threads[u]);
    }
  }

  lemma AwaitReplyP(k: Kernel, t: nat)
    requires Places(k, t) && CallersExist(k) && Valid(k, t)
    ensures PInv(AwaitReply(k, t).0)
  {
  }

  lemma CallTailP(k: Kernel, t: nat, r: int)
    requires Places(k, t) && CallersExist(k) && Valid(k, t) && !k.threads[t].asleep
    ensures PInv(CallTail(k, t, r).0)
  {
  }

  lemma EnqueueP(k: Kernel, t: nat, e: nat, m: Msg, op: OpKind)
    requires PInv(k) && Ready(k, t) && e < |k.eps|
    ensures op != RECV ==> PInv(EnqueueSender(k, t, e, m, op))
    ensures PInv(EnqueueReceiver(k, t, e, m))
  {
  }

  lemma SendP(k: Kernel, t: nat, e: nat, m: Msg, op: OpKind, mem: bool)
    requires QInv(k) && PInv(k) && Ready(k, t) && e < |k.eps| && op != RECV
    ensures k.eps[e].recvQ != [] ==> k.eps[e].recvQ[0] < |k.threads|
    ensures PInv(if op == CALL then Call(k, t, e, m, mem).0 else SendOp(k, t, e, m, op, mem).0)
  {
    hide QInv, SliceError, CopySlice, DirectTransfer;
    HeadQueued(k, e);
    EnqueueP(k, t, e, m, op);
    var (k1, ret) := SendOp(k, t, e, m, op, mem);
    if k.eps[e].recvQ != [] { DirectTransferP(k, t, e, m, op); }
    if op == CALL && ret.Done? { CallTailP(k1, t, ret.res); }
  }

  lemma RecvP(k: Kernel, t: nat, e: nat, m: Msg, mem: bool)
    requires QInv(k) && PInv(k) && Ready(k, t) && e < |k.eps|
    ensures k.eps[e].sendQ != [] ==> k.eps[e].sendQ[0] < |k.threads|
    ensures PInv(Recv(k, t, e, m, mem).0)
  {
    hide QInv, SliceError, CopySlice;
    HeadQueued(k, e);
    EnqueueP(k, t, e, m, RECV);
    var k' := Recv(k, t, e, m, mem).0;
    if k.eps[e].sendQ != [] {
      assert PlaceOk(k.threads[k.eps[e].sendQ[0]]);
      forall u | 0 <= u < |k'.threads| ensures PlaceOk(k'.threads[u]) {
        assert PlaceOk(k.threads[u]);
      }
    }
  }

  lemma ResumeP(k: Kernel, t: nat)
    requires PInv(k) && Valid(k, t) && k.threads[t].at != User && !k.threads[t].asleep
    requires k.threads[t].at != ReplyWait ==> k.threads[t].ep < |k.eps|
    ensures PInv(Resume(k, t).0)
  {
    var T := k.threads[t];
    assert PlaceOk(T);
    if T.at == ReplyWait {
      AwaitReplyP(k, t);
    } else if T.at == SendWait && T.op == CALL {
      CallTailP(k.(eps := k.eps[T.ep := k.eps[T.ep].(sendQ := Drop(k.eps[T.ep].sendQ, t))]), t, T.result);
    }
  }

  lemma ReplyP(k: Kernel, t: nat, m: Msg)
    requires PInv(k) && Ready(k, t)
    ensures k.threads[t].caller.Some? ==> k.threads[t].caller.value < |k.threads|
    ensures PInv(Reply(k, t, m).0)
  {
    hide CopySlice, SliceError;
    var k' := Reply(k, t, m).0;
    forall u | 0 <= u < |k'.threads| ensures PlaceOk(k'.threads[u]) {
      assert PlaceOk(k.threads[u]);
    }
  }

  lemma ExitP(k: Kernel, t: nat)
    requires PInv(k) && Ready(k, t)
    ensures k.threads[t].caller.Some? ==> k.threads[t].caller.value < |k.threads|
    ensures k.threads[t].server.None? && PInv(Exit(k, t))
  {
    assert PlaceOk(k.threads[t]);
    var k' := Exit(k, t);
    forall u | 0 <= u < |k'.threads| ensures PlaceOk(k'.threads[u]) {
      assert PlaceOk(k.threads[u]);
    }
  }

  lemma DestroyP(k: Kernel, e: nat)
    requires QInv(k) && PInv(k) && e < |k.eps|
    ensures forall i | 0 <= i < |k.eps[e].sendQ| :: k.eps[e].sendQ[i] < |k.threads|
    ensures forall i | 0 <= i < |k.eps[e].recvQ| :: k.eps[e].recvQ[i] < |k.threads|
    ensures PInv(Destroy(k, e))
  {
    assert EndpointOk(k, e);
    HeadQueued(k, e);
    FailAllSpec(k.threads, k.eps[e].sendQ);
    FailAllSpec(FailAll(k.threads, k.eps[e].sendQ), k.eps[e].recvQ);
    var k' := Destroy(k, e);
    forall u | 0 <= u < |k'.threads| ensures PlaceOk(k'.threads[u]) && k'.threads[u].caller == k.threads[u].caller {
      assert PlaceOk(k.threads[u]);
    }
  }

  lemma AppendP(k: Kernel, T: Thread)
    requires PInv(k) && PlaceOk(T) && (T.caller.Some? ==> T.caller.value < |k.threads|)
    ensures PInv(k.(threads := k.threads + [T]))
  {
  }

  lemma WakeP(k: Kernel, t: nat)
    requires PInv(k) && t < |k.threads|
    ensures PInv(Wake(k, t))
  {
    assert PlaceOk(k.threads[t]);
  }
}
