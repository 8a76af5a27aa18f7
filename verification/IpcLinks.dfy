/**
 Call and reply.  Every transition but the fork of a thread that owes a reply keeps
 each debt owed to a caller that waits for it; and every waiting caller keeps a
 server unless a call reaches a server that still owes a reply.  Both provisos are
 shown to be exact.
 */
module IpcLinks {

  import opened Common
  import opened Ipc
  import opened IpcInv

  predicate SameLinks(T: Thread, T': Thread) {
    T'.alive == T.alive && T'.caller == T.caller && T'.server == T.server && T'.pending == T.pending
  }

  lemma LinksFrame(k: Kernel, k': Kernel)
    requires |k'.threads| == |k.threads|
    requires forall u | 0 <= u < |k.threads| :: SameLinks(k.threads[u], k'.threads[u])
    ensures Debts(k') <==> Debts(k)
    ensures Links(k') <==> Links(k)
  {
    forall u | 0 <= u < |k'.threads| ensures (CallerOk(k', u) <==> CallerOk(k, u)) && (PendingOk(k', u) <==> PendingOk(k, u)) {
      assert SameLinks(k.threads[u], k'.threads[u]);
    }
  }

  /** Linking a fresh caller leaves nobody unserved exactly when the server owes nobody a reply. */
  lemma LinkIffFree(k: Kernel, c: nat, s: nat)
    requires Debts(k) && c < |k.threads| && s < |k.threads| && c != s
    requires k.threads[c].alive && k.threads[s].alive && !k.threads[c].pending
    ensures Debts(Link(k, c, s))
    ensures Links(k) ==> (Links(Link(k, c, s)) <==> k.threads[s].caller.None?)
  {
    var k' := Link(k, c, s);
    assert CallerOk(k, s);
    forall u | 0 <= u < |k'.threads| ensures CallerOk(k', u) {
      assert CallerOk(k, u);
    }
    if k.threads[s].caller.Some? {
      var c0 := k.threads[s].caller.value;
      assert k'.threads[c0].pending && k'.threads[c0].server == Some(s) && k'.threads[s].caller == Some(c);
      assert !PendingOk(k', c0);
    } else if Links(k) {
      forall u | 0 <= u < |k'.threads| ensures PendingOk(k', u) {
        assert CallerOk(k, u) && PendingOk(k, u);
      }
    }
  }

  lemma DirectTransferL(k: Kernel, t: nat, e: nat, m: Msg, op: OpKind)
    requires Debts(k) && PInv(k) && Ready(k, t) && e < |k.eps| && k.eps[e].recvQ != []
    requires QueuedAt(k, k.eps[e].recvQ[0], e, RecvWait)
    ensures var k' := DirectTransfer(k, t, e, m, op);
            Debts(k') && (Links(k) ==> (Links(k') <==> (op == CALL ==> k.threads[k.eps[e].recvQ[0]].caller.None?)))
  {
    hide Links, Debts, CopySlice;
    var r := k.eps[e].recvQ[0];
    assert PlaceOk(k.threads[t]);
    if op == CALL {
      LinkIffFree(k, t, r);
      LinksFrame(Link(k, t, r), DirectTransfer(k, t, e, m, op));
    } else {
      LinksFrame(k, DirectTransfer(k, t, e, m, op));
    }
  }

  lemma TakeSenderL(k: Kernel, t: nat, e: nat)
    requires Debts(k) && PInv(k) && Ready(k, t) && e < |k.eps| && k.eps[e].sendQ != []
    requires QueuedAt(k, k.eps[e].sendQ[0], e, SendWait)
    ensures var k' := TakeSender(k, t, e);
            Debts(k') && (Links(k) ==> (Links(k') <==> (k.threads[k.eps[e].sendQ[0]].op == CALL ==> k.threads[t].caller.None?)))
  {
    hide Links, Debts, CopySlice;
    var s := k.eps[e].sendQ[0];
    assert PlaceOk(k.threads[s]);
    if k.threads[s].op == CALL {
      LinkIffFree(k, s, t);
      LinksFrame(Link(k, s, t), TakeSender(k, t, e));
    } else {
      LinksFrame(k, TakeSender(k, t, e));
    }
  }

  /** Collecting a reply, or sleeping on for it, completes the transition of thread `t`. */
  lemma AwaitReplyL(k: Kernel, t: nat)
    requires Debts(k) && Valid(k, t)
    ensures var k' := AwaitReply(k, t).0; Debts(k') && (Links(k') <==> Links(k))
  {
    var k' := AwaitReply(k, t).0;
    forall u | 0 <= u < |k'.threads| ensures CallerOk(k', u) && (PendingOk(k', u) <==> PendingOk(k, u)) {
      assert CallerOk(k, u);
    }
  }

  lemma CallTailL(k: Kernel, t: nat, r: int)
    requires Debts(k) && Valid(k, t) && (r != OK ==> !k.threads[t].pending)
    ensures var k' := CallTail(k, t, r).0; Debts(k') && (Links(k') <==> Links(k))
  {
    if r == OK {
      AwaitReplyL(k, t);
    } else {
      var k' := CallTail(k, t, r).0;
      forall u | 0 <= u < |k'.threads| ensures CallerOk(k', u) && (PendingOk(k', u) <==> PendingOk(k, u)) {
        assert CallerOk(k, u);
      }
    }
  }

  lemma ResumeL(k: Kernel, t: nat)
    requires Debts(k) && PInv(k) && Valid(k, t) && k.threads[t].at != User && !k.threads[t].asleep
    requires k.threads[t].at != ReplyWait ==> k.threads[t].ep < |k.eps|
    ensures var k' := Resume(k, t).0; Debts(k') && (Links(k') <==> Links(k))
  {
    hide Links, Debts;
    var T := k.threads[t];
    assert PlaceOk(T);
    if T.at == ReplyWait {
      AwaitReplyL(k, t);
    } else if T.at == SendWait && T.op == CALL {
      var k1 := k.(eps := k.eps[T.ep := k.eps[T.ep].(sendQ := Drop(k.eps[T.ep].sendQ, t))]);
      LinksFrame(k, k1);
      CallTailL(k1, t, T.result);
    } else {
      LinksFrame(k, Resume(k, t).0);
    }
  }

  lemma ReplyL(k: Kernel, t: nat, m: Msg)
    requires Debts(k) && PInv(k) && Ready(k, t)
    ensures k.threads[t].caller.Some? ==> k.threads[t].caller.value < |k.threads|
    ensures var k' := Reply(k, t, m).0; Debts(k') && (Links(k) ==> Links(k'))
  {
    hide CopySlice, SliceError;
    assert CallerOk(k, t);
    var k' := Reply(k, t, m).0;
    forall u | 0 <= u < |k'.threads| ensures CallerOk(k', u) && (Links(k) ==> PendingOk(k', u)) {
      assert CallerOk(k, u) && (Links(k) ==> PendingOk(k, u)) && PlaceOk(k.threads[u]);
    }
  }

  /** A thread that exits is never waiting for a reply itself, so only its own caller has to be told. */
  lemma ExitL(k: Kernel, t: nat)
    requires Debts(k) && PInv(k) && Ready(k, t)
    ensures k.threads[t].caller.Some? ==> k.threads[t].caller.value < |k.threads|
    ensures k.threads[t].server.None?
    ensures var k' := Exit(k, t); Debts(k') && (Links(k) ==> Links(k'))
  {
    assert CallerOk(k, t) && PlaceOk(k.threads[t]);
    var k' := Exit(k, t);
    forall u | 0 <= u < |k'.threads| ensures CallerOk(k', u) && (Links(k) ==> PendingOk(k', u)) {
      assert CallerOk(k, u) && (Links(k) ==> PendingOk(k, u)) && PlaceOk(k.threads[u]);
    }
  }

  lemma DestroyL(k: Kernel, e: nat)
    requires QInv(k) && e < |k.eps|
    ensures forall i | 0 <= i < |k.eps[e].sendQ| :: k.eps[e].sendQ[i] < |k.threads|
    ensures forall i | 0 <= i < |k.eps[e].recvQ| :: k.eps[e].recvQ[i] < |k.threads|
    ensures var k' := Destroy(k, e); (Debts(k') <==> Debts(k)) && (Links(k') <==> Links(k))
  {
    hide Links, Debts, QInv;
    HeadQueued(k, e);
    FailAllSpec(k.threads, k.eps[e].sendQ);
    FailAllSpec(FailAll(k.threads, k.eps[e].sendQ), k.eps[e].recvQ);
    LinksFrame(k, Destroy(k, e));
  }

  /** Forking keeps debts owed to waiting callers, and callers served, exactly when the parent owes nobody a reply. */
  lemma ForkIffFree(k: Kernel, t: nat, proc: Option<nat>)
    requires Debts(k) && PInv(k) && Ready(k, t)
    ensures var k' := Fork(k, t, proc);
            && (Debts(k') <==> k.threads[t].caller.None?)
            && (Links(k) ==> (Links(k') <==> k.threads[t].caller.None?))
  {
    var k' := Fork(k, t, proc);
    var n := |k.threads|;
    assert CallerOk(k, t) && PlaceOk(k.threads[t]);
    if k.threads[t].caller.None? {
      forall u | 0 <= u < |k'.threads| ensures CallerOk(k', u) && (Links(k) ==> PendingOk(k', u)) {
        if u < n { assert CallerOk(k, u) && (Links(k) ==> PendingOk(k, u)); }
      }
    } else {
      assert k'.threads[n].caller == k.threads[t].caller;
      assert !CallerOk(k', n);
    }
  }

  lemma WakeL(k: Kernel, t: nat)
    requires t < |k.threads|
    ensures (Debts(Wake(k, t)) <==> Debts(k)) && (Links(Wake(k, t)) <==> Links(k))
  {
    hide Links, Debts;
    LinksFrame(k, Wake(k, t));
  }

  lemma NewThreadL(k: Kernel, T: Thread)
    requires Debts(k) && T.caller.None? && !T.pending
    ensures var k' := k.(threads := k.threads + [T]); Debts(k') && (Links(k) ==> Links(k'))
  {
    var k' := k.(threads := k.threads + [T]);
    forall u | 0 <= u < |k'.threads| ensures CallerOk(k', u) && (Links(k) ==> PendingOk(k', u)) {
      if u < |k.threads| { assert CallerOk(k, u) && (Links(k) ==> PendingOk(k, u)); }
    }
  }
}
