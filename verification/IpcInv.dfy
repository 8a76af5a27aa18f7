/**
 The invariants of message passing: the queues hold exactly the threads that still
 wait in them, a thread's reply state fits the place it stands at, and caller and
 server point at each other for exactly as long as a reply is owed.  The first two
 hold in every run, the third while servers and forks are disciplined.
 */
module IpcInv {

  import opened Common
  import opened Ipc

  // ---------------------------------------------------------------- queues

  predicate QueuedAt(k: Kernel, t: nat, e: nat, at: Place) {
    && t < |k.threads|
    && k.threads[t].alive && k.threads[t].at == at && k.threads[t].ep == e
    && k.threads[t].result == ERR_NOPARTNER
  }

  predicate QueueOk(k: Kernel, q: seq<nat>, e: nat, at: Place) {
    NoDup(q) && forall i | 0 <= i < |q| :: QueuedAt(k, q[i], e, at)
  }

  predicate EndpointOk(k: Kernel, e: nat)
    requires e < |k.eps|
  {
    && QueueOk(k, k.eps[e].sendQ, e, SendWait)
    && QueueOk(k, k.eps[e].recvQ, e, RecvWait)
    && (k.eps[e].sendQ == [] || k.eps[e].recvQ == [])
    && (k.eps[e].dead ==> k.eps[e].sendQ == [] && k.eps[e].recvQ == [])
  }

  /** A thread asleep in a send or a receive is on the queue it waits for. */
  predicate SleeperOk(k: Kernel, t: nat)
    requires t < |k.threads|
  {
    var T := k.threads[t];
    && (T.alive && T.at == SendWait ==> T.ep < |k.eps| && (T.asleep ==> t in k.eps[T.ep].sendQ))
    && (T.alive && T.at == RecvWait ==> T.ep < |k.eps| && (T.asleep ==> t in k.eps[T.ep].recvQ))
  }

  ghost predicate QInv(k: Kernel) {
    && (forall e | 0 <= e < |k.eps| :: EndpointOk(k, e))
    && (forall t | 0 <= t < |k.threads| :: SleeperOk(k, t))
  }

  // ----------------------------------------------------------------- links

  /** A server's caller points back at it and is waiting for its reply. */
  predicate CallerOk(k: Kernel, s: nat)
    requires s < |k.threads|
  {
    k.threads[s].caller.Some? ==>
      var c := k.threads[s].caller.value;
      && c < |k.threads| && c != s && k.threads[s].alive && k.threads[c].alive
      && k.threads[c].pending && k.threads[c].server == Some(s)
  }

  /** A pending caller's server points back at it. */
  predicate PendingOk(k: Kernel, c: nat)
    requires c < |k.threads|
  {
    k.threads[c].pending ==>
      && k.threads[c].alive && k.threads[c].server.Some?
      && k.threads[c].server.value < |k.threads|
      && k.threads[k.threads[c].server.value].caller == Some(c)
  }

  /** Every debt is owed to a caller that waits for it. */
  ghost predicate Debts(k: Kernel) {
    forall t | 0 <= t < |k.threads| :: CallerOk(k, t)
  }

  /** Moreover every waiting caller is owed one. */
  ghost predicate Links(k: Kernel) {
    forall t | 0 <= t < |k.threads| :: CallerOk(k, t) && PendingOk(k, t)
  }

  // ---------------------------------------------------------------- places

  /** What a thread's reply state looks like at each place it can stand. */
  predicate PlaceOk(T: Thread) {
    && (!T.alive ==> !T.pending && T.caller.None?)
    && (T.alive && (T.at == User || T.at == RecvWait) ==> !T.pending && T.server.None?)
    && (T.alive && T.at == User ==> !T.asleep)
    && (T.alive && T.at == SendWait ==> T.op != RECV && (T.result == OK ==> !T.asleep))
    && (T.alive && T.at == SendWait && (T.op != CALL || T.result != OK) ==> !T.pending && T.server.None?)
    && (T.alive && T.at == ReplyWait && T.asleep ==> T.pending)
  }

  /** `busy` is a thread in the middle of a transition, exempt from `PlaceOk`. */
  ghost predicate Places(k: Kernel, busy: int) {
    forall t | 0 <= t < |k.threads| && t != busy :: PlaceOk(k.threads[t])
  }

  ghost predicate CallersExist(k: Kernel) {
    forall t | 0 <= t < |k.threads| :: k.threads[t].caller.Some? ==> k.threads[t].caller.value < |k.threads|
  }

  ghost predicate PInv(k: Kernel) {
    Places(k, -1) && CallersExist(k)
  }

  // ------------------------------------------------- queues: transitions

  /** The fields of a thread that the queues depend on; a thread may be awake that was asleep. */
  predicate SameInQueue(T: Thread, T': Thread) {
    && T'.alive == T.alive && T'.at == T.at && T'.ep == T.ep && T'.result == T.result
    && (T'.asleep ==> T.asleep)
  }

  predicate SameQueues(E: Endpoint, E': Endpoint) {
    E'.dead == E.dead && E'.sendQ == E.sendQ && E'.recvQ == E.recvQ
  }

  lemma QFrame(k: Kernel, k': Kernel)
    requires QInv(k) && |k'.eps| == |k.eps| && |k'.threads| == |k.threads|
    requires forall e | 0 <= e < |k.eps| :: SameQueues(k.eps[e], k'.eps[e])
    requires forall u | 0 <= u < |k.threads| :: SameInQueue(k.threads[u], k'.threads[u])
    ensures QInv(k')
  {
    forall f | 0 <= f < |k'.eps| ensures EndpointOk(k', f) {
      assert EndpointOk(k, f);
      forall i | 0 <= i < |k'.eps[f].sendQ| ensures QueuedAt(k', k'.eps[f].sendQ[i], f, SendWait) {
        assert QueuedAt(k, k.eps[f].sendQ[i], f, SendWait);
      }
      forall i | 0 <= i < |k'.eps[f].recvQ| ensures QueuedAt(k', k'.eps[f].recvQ[i], f, RecvWait) {
        assert QueuedAt(k, k.eps[f].recvQ[i], f, RecvWait);
      }
    }
    forall u | 0 <= u < |k'.threads| ensures SleeperOk(k', u) {
      assert SleeperOk(k, u);
    }
  }

  /** A thread that is on no queue may change arbitrarily, as long as it does not fall asleep in one. */
  lemma QFrameOne(k: Kernel, t: nat, T': Thread)
    requires QInv(k) && t < |k.threads|
    requires forall e | 0 <= e < |k.eps| :: t !in k.eps[e].sendQ && t !in k.eps[e].recvQ
    requires T'.at == User || T'.at == ReplyWait || !T'.alive
    ensures QInv(k.(threads := k.threads[t := T']))
  {
    var k' := k.(threads := k.threads[t := T']);
    forall f | 0 <= f < |k'.eps| ensures EndpointOk(k', f) {
      assert EndpointOk(k, f);
      forall i | 0 <= i < |k'.eps[f].sendQ| ensures QueuedAt(k', k'.eps[f].sendQ[i], f, SendWait) {
        assert k.eps[f].sendQ[i] in k.eps[f].sendQ;
        assert QueuedAt(k, k.eps[f].sendQ[i], f, SendWait);
      }
      forall i | 0 <= i < |k'.eps[f].recvQ| ensures QueuedAt(k', k'.eps[f].recvQ[i], f, RecvWait) {
        assert k.eps[f].recvQ[i] in k.eps[f].recvQ;
        assert QueuedAt(k, k.eps[f].recvQ[i], f, RecvWait);
      }
    }
    forall u | 0 <= u < |k'.threads| ensures SleeperOk(k', u) {
      assert SleeperOk(k, u);
    }
  }

  lemma NotQueued(k: Kernel, t: nat)
    requires QInv(k) && t < |k.threads|
    requires k.threads[t].at == User || k.threads[t].at == ReplyWait || !k.threads[t].alive || k.threads[t].result != ERR_NOPARTNER
    ensures forall e | 0 <= e < |k.eps| :: t !in k.eps[e].sendQ && t !in k.eps[e].recvQ
  {
    forall e | 0 <= e < |k.eps| ensures t !in k.eps[e].sendQ && t !in k.eps[e].recvQ {
      assert EndpointOk(k, e);
    }
  }

  /** Take a thread off its queue; from then on it counts as awake and resolved. */
  function Unqueue(k: Kernel, t: nat, e: nat, res: int): Kernel
    requires t < |k.threads| && e < |k.eps|
  {
    k.(threads := k.threads[t := k.threads[t].(result := res, asleep := false)],
       eps := k.eps[e := k.eps[e].(sendQ := Drop(k.eps[e].sendQ, t), recvQ := Drop(k.eps[e].recvQ, t))])
  }

  lemma {:induction false} DropAbsent(q: seq<nat>, t: nat)
    requires t !in q
    ensures Drop(q, t) == q
  {
    if q != [] {
      assert q[0] in q;
      DropAbsent(q[1..], t);
      assert q == [q[0]] + q[1..];
    }
  }

  lemma UnqueueEndpoint(k: Kernel, t: nat, e: nat, res: int, f: nat)
    requires QInv(k) && t < |k.threads| && e < |k.eps| && f < |k.eps|
    requires k.threads[t].ep == e && (k.threads[t].at == SendWait || k.threads[t].at == RecvWait)
    ensures var k' := Unqueue(k, t, e, res); EndpointOk(k', f) && t !in k'.eps[f].sendQ && t !in k'.eps[f].recvQ
  {
    var k' := Unqueue(k, t, e, res);
    assert EndpointOk(k, f);
    DropSpec(k.eps[f].sendQ, t);
    DropSpec(k.eps[f].recvQ, t);
    forall i | 0 <= i < |k'.eps[f].sendQ| ensures QueuedAt(k', k'.eps[f].sendQ[i], f, SendWait) && k'.eps[f].sendQ[i] != t {
      var j :| 0 <= j < |k.eps[f].sendQ| && k.eps[f].sendQ[j] == k'.eps[f].sendQ[i];
      assert QueuedAt(k, k.eps[f].sendQ[j], f, SendWait);
    }
    forall i | 0 <= i < |k'.eps[f].recvQ| ensures QueuedAt(k', k'.eps[f].recvQ[i], f, RecvWait) && k'.eps[f].recvQ[i] != t {
      var j :| 0 <= j < |k.eps[f].recvQ| && k.eps[f].recvQ[j] == k'.eps[f].recvQ[i];
      assert QueuedAt(k, k.eps[f].recvQ[j], f, RecvWait);
    }
  }

  lemma UnqueueQ(k: Kernel, t: nat, e: nat, res: int)
    requires QInv(k) && t < |k.threads| && e < |k.eps|
    requires k.threads[t].ep == e && (k.threads[t].at == SendWait || k.threads[t].at == RecvWait)
    ensures QInv(Unqueue(k, t, e, res))
    ensures var k' := Unqueue(k, t, e, res); forall f | 0 <= f < |k'.eps| :: t !in k'.eps[f].sendQ && t !in k'.eps[f].recvQ
  {
    var k' := Unqueue(k, t, e, res);
    forall f | 0 <= f < |k'.eps|
      ensures EndpointOk(k', f) && t !in k'.eps[f].sendQ && t !in k'.eps[f].recvQ
    {
      UnqueueEndpoint(k, t, e, res, f);
    }
    forall u | 0 <= u < |k'.threads| ensures SleeperOk(k', u) {
      assert SleeperOk(k, u);
      assert EndpointOk(k, e);
      DropSpec(k.eps[e].sendQ, t);
      DropSpec(k.eps[e].recvQ, t);
    }
  }

  lemma OtherQueue(k: Kernel, t: nat, e: nat)
    requires QInv(k) && t < |k.threads| && e < |k.eps|
    ensures k.threads[t].at != RecvWait ==> Drop(k.eps[e].recvQ, t) == k.eps[e].recvQ
    ensures k.threads[t].at != SendWait ==> Drop(k.eps[e].sendQ, t) == k.eps[e].sendQ
  {
    assert EndpointOk(k, e);
    if t !in k.eps[e].recvQ { DropAbsent(k.eps[e].recvQ, t); }
    if t !in k.eps[e].sendQ { DropAbsent(k.eps[e].sendQ, t); }
  }

  // ------------------------------------------------- queues: transitions

  lemma HeadQueued(k: Kernel, e: nat)
    requires QInv(k) && e < |k.eps|
    ensures k.eps[e].sendQ != [] ==> QueuedAt(k, k.eps[e].sendQ[0], e, SendWait) && k.eps[e].recvQ == []
    ensures k.eps[e].recvQ != [] ==> QueuedAt(k, k.eps[e].recvQ[0], e, RecvWait) && k.eps[e].sendQ == []
    ensures forall i | 0 <= i < |k.eps[e].sendQ| :: k.eps[e].sendQ[i] < |k.threads|
    ensures forall i | 0 <= i < |k.eps[e].recvQ| :: k.eps[e].recvQ[i] < |k.threads|
  {
    assert EndpointOk(k, e);
    forall i | 0 <= i < |k.eps[e].sendQ| ensures k.eps[e].sendQ[i] < |k.threads| {
      assert QueuedAt(k, k.eps[e].sendQ[i], e, SendWait);
    }
    forall i | 0 <= i < |k.eps[e].recvQ| ensures k.eps[e].recvQ[i] < |k.threads| {
      assert QueuedAt(k, k.eps[e].recvQ[i], e, RecvWait);
    }
  }

  lemma DirectTransferQ(k: Kernel, t: nat, e: nat, m: Msg, op: OpKind)
    requires QInv(k) && Ready(k, t) && e < |k.eps| && k.eps[e].recvQ != []
    ensures k.eps[e].recvQ[0] < |k.threads|
    ensures QInv(DirectTransfer(k, t, e, m, op))
  {
    hide QInv, SleeperOk, EndpointOk, CopySlice;
    HeadQueued(k, e);
    var r := k.eps[e].recvQ[0];
    UnqueueQ(k, r, e, OK);
    OtherQueue(k, r, e);
    QFrame(Unqueue(k, r, e, OK), DirectTransfer(k, t, e, m, op));
  }

  lemma TakeSenderQ(k: Kernel, t: nat, e: nat)
    requires QInv(k) && Ready(k, t) && e < |k.eps| && k.eps[e].sendQ != []
    ensures k.eps[e].sendQ[0] < |k.threads|
    ensures QInv(TakeSender(k, t, e))
  {
    hide QInv, SleeperOk, EndpointOk, CopySlice;
    HeadQueued(k, e);
    var s := k.eps[e].sendQ[0];
    UnqueueQ(k, s, e, OK);
    OtherQueue(k, s, e);
    QFrame(Unqueue(k, s, e, OK), TakeSender(k, t, e));
  }

  lemma RefuseSenderQ(k: Kernel, e: nat, err: int)
    requires QInv(k) && e < |k.eps| && k.eps[e].sendQ != []
    ensures k.eps[e].sendQ[0] < |k.threads|
    ensures QInv(RefuseSender(k, e, err))
  {
    hide QInv, SleeperOk, EndpointOk;
    HeadQueued(k, e);
    var s := k.eps[e].sendQ[0];
    UnqueueQ(k, s, e, err);
    OtherQueue(k, s, e);
    QFrame(Unqueue(k, s, e, err), RefuseSender(k, e, err));
  }

  lemma EnqueueQ(k: Kernel, t: nat, e: nat, m: Msg, op: OpKind)
    requires QInv(k) && Ready(k, t) && e < |k.eps| && !k.eps[e].dead
    ensures k.eps[e].recvQ == [] ==> QInv(EnqueueSender(k, t, e, m, op))
    ensures k.eps[e].sendQ == [] ==> QInv(EnqueueReceiver(k, t, e, m))
  {
    NotQueued(k, t);
    if k.eps[e].recvQ == [] {
      EnqueueOneQ(k, EnqueueSender(k, t, e, m, op), t, e, EnqueueSender(k, t, e, m, op).threads[t]);
    }
    if k.eps[e].sendQ == [] {
      EnqueueOneQ(k, EnqueueReceiver(k, t, e, m), t, e, EnqueueReceiver(k, t, e, m).threads[t]);
    }
  }

  lemma EnqueueOneQ(k: Kernel, k': Kernel, t: nat, e: nat, T': Thread)
    requires QInv(k) && t < |k.threads| && e < |k.eps| && !k.eps[e].dead && k.threads[t].alive
    requires forall f | 0 <= f < |k.eps| :: t !in k.eps[f].sendQ && t !in k.eps[f].recvQ
    requires k'.threads == k.threads[t := T']
    requires k'.threads[t].alive && k'.threads[t].ep == e && k'.threads[t].result == ERR_NOPARTNER
    requires || (k'.threads[t].at == SendWait && k.eps[e].recvQ == []
                 && k'.eps == k.eps[e := k.eps[e].(sendQ := k.eps[e].sendQ + [t])])
             || (k'.threads[t].at == RecvWait && k.eps[e].sendQ == []
                 && k'.eps == k.eps[e := k.eps[e].(recvQ := k.eps[e].recvQ + [t])])
    ensures QInv(k')
  {
    forall f | 0 <= f < |k'.eps| ensures EndpointOk(k', f) {
      assert EndpointOk(k, f);
      forall i | 0 <= i < |k'.eps[f].sendQ| ensures QueuedAt(k', k'.eps[f].sendQ[i], f, SendWait) {
        if i < |k.eps[f].sendQ| { assert QueuedAt(k, k.eps[f].sendQ[i], f, SendWait) && k.eps[f].sendQ[i] in k.eps[f].sendQ; }
      }
      forall i | 0 <= i < |k'.eps[f].recvQ| ensures QueuedAt(k', k'.eps[f].recvQ[i], f, RecvWait) {
        if i < |k.eps[f].recvQ| { assert QueuedAt(k, k.eps[f].recvQ[i], f, RecvWait) && k.eps[f].recvQ[i] in k.eps[f].recvQ; }
      }
    }
    forall u | 0 <= u < |k'.threads| ensures SleeperOk(k', u) {
      assert SleeperOk(k, u);
    }
  }

  lemma AwaitReplyQ(k: Kernel, t: nat)
    requires QInv(k) && t < |k.threads|
    requires forall e | 0 <= e < |k.eps| :: t !in k.eps[e].sendQ && t !in k.eps[e].recvQ
    ensures QInv(AwaitReply(k, t).0)
    ensures forall r :: QInv(CallTail(k, t, r).0)
  {
    hide QInv;
    QFrameOne(k, t, AwaitReply(k, t).0.threads[t]);
    forall r ensures QInv(CallTail(k, t, r).0) {
      if r != OK {
        QFrameOne(k, t, CallTail(k, t, r).0.threads[t]);
      }
    }
  }

  lemma ResumeQ(k: Kernel, t: nat)
    requires QInv(k) && Valid(k, t) && k.threads[t].at != User && !k.threads[t].asleep
    ensures k.threads[t].at != ReplyWait ==> k.threads[t].ep < |k.eps|
    ensures QInv(Resume(k, t).0)
  {
    hide EndpointOk;
    assert SleeperOk(k, t);
    var T := k.threads[t];
    if T.at == ReplyWait {
      NotQueued(k, t);
      AwaitReplyQ(k, t);
    } else {
      UnqueueQ(k, t, T.ep, T.result);
      OtherQueue(k, t, T.ep);
      var k1 := Unqueue(k, t, T.ep, T.result);
      assert k1.threads == k.threads;
      if T.at == SendWait && T.op == CALL {
        AwaitReplyQ(k1, t);
        assert Resume(k, t) == CallTail(k1, t, T.result);
      } else {
        QFrameOne(k1, t, T.(at := User));
        assert k1.(threads := k1.threads[t := T.(at := User)]) == Resume(k, t).0;
      }
    }
  }

  lemma AppendQ(k: Kernel, T: Thread)
    requires QInv(k) && T.at == User
    ensures QInv(k.(threads := k.threads + [T]))
  {
    var k' := k.(threads := k.threads + [T]);
    forall f | 0 <= f < |k'.eps| ensures EndpointOk(k', f) {
      assert EndpointOk(k, f);
      forall i | 0 <= i < |k'.eps[f].sendQ| ensures QueuedAt(k', k'.eps[f].sendQ[i], f, SendWait) {
        assert QueuedAt(k, k.eps[f].sendQ[i], f, SendWait);
      }
      forall i | 0 <= i < |k'.eps[f].recvQ| ensures QueuedAt(k', k'.eps[f].recvQ[i], f, RecvWait) {
        assert QueuedAt(k, k.eps[f].recvQ[i], f, RecvWait);
      }
    }
    forall u | 0 <= u < |k'.threads| ensures SleeperOk(k', u) {
      if u < |k.threads| { assert SleeperOk(k, u); }
    }
  }

  lemma {:induction false} FailAllSpec(ts: seq<Thread>, q: seq<nat>)
    requires forall i | 0 <= i < |q| :: q[i] < |ts|
    ensures forall u: nat | u < |ts| ::
              FailAll(ts, q)[u] == if u in q then ts[u].(result := ERR_DEAD, asleep := false) else ts[u]
    decreases |q|
  {
    if q != [] {
      FailAllSpec(ts[q[0] := ts[q[0]].(result := ERR_DEAD, asleep := false)], q[1..]);
      assert forall u :: u in q <==> u == q[0] || u in q[1..];
    }
  }

  lemma DestroyQ(k: Kernel, e: nat)
    requires QInv(k) && e < |k.eps|
    ensures forall i | 0 <= i < |k.eps[e].sendQ| :: k.eps[e].sendQ[i] < |k.threads|
    ensures forall i | 0 <= i < |k.eps[e].recvQ| :: k.eps[e].recvQ[i] < |k.threads|
    ensures QInv(Destroy(k, e))
  {
    hide QInv;
    HeadQueued(k, e);
    QInvParts(k);
    var E := k.eps[e];
    FailAllSpec(k.threads, E.sendQ);
    FailAllSpec(FailAll(k.threads, E.sendQ), E.recvQ);
    var k' := Destroy(k, e);
    if !E.dead {
      forall f | 0 <= f < |k'.eps| ensures EndpointOk(k', f) {
        assert EndpointOk(k, f) && EndpointOk(k, e);
        forall i | 0 <= i < |k'.eps[f].sendQ| ensures QueuedAt(k', k'.eps[f].sendQ[i], f, SendWait) {
          assert QueuedAt(k, k.eps[f].sendQ[i], f, SendWait);
        }
        forall i | 0 <= i < |k'.eps[f].recvQ| ensures QueuedAt(k', k'.eps[f].recvQ[i], f, RecvWait) {
          assert QueuedAt(k, k.eps[f].recvQ[i], f, RecvWait);
        }
      }
      forall u | 0 <= u < |k'.threads| ensures SleeperOk(k', u) {
        assert SleeperOk(k, u);
      }
      QInvFrom(k');
    }
  }

  lemma QInvParts(k: Kernel)
    requires QInv(k)
    ensures forall e | 0 <= e < |k.eps| :: EndpointOk(k, e)
    ensures forall t | 0 <= t < |k.threads| :: SleeperOk(k, t)
  {
  }

  lemma QInvFrom(k: Kernel)
    requires forall e | 0 <= e < |k.eps| :: EndpointOk(k, e)
    requires forall t | 0 <= t < |k.threads| :: SleeperOk(k, t)
    ensures QInv(k)
  {
  }
}
