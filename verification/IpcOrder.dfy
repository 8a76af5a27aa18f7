/**
 First come, first served: on every endpoint earlier sends are matched with earlier
 receives, nobody overtakes a thread that is still queued, and the endpoint's two
 counters together count the matches.
 */
module IpcOrder {

  import opened Common
  import opened Ipc
  import opened IpcInv
  import opened IpcHistory
  import opened IpcBook

  /** No operation became matched or changed partner. */
  ghost predicate SameMatches(h: History, h': History) {
    && |h'.ops| >= |h.ops|
    && (forall i: nat, e: nat, b: bool :: MatchedOn(h', i, e, b) <==> MatchedOn(h, i, e, b))
    && (forall i: nat | i < |h.ops| :: h'.ops[i].peer == h.ops[i].peer)
  }

  /** Dropping removes at most one position. */
  lemma {:induction false} DropShape(q: seq<nat>, t: nat) returns (n: nat, d: seq<nat>)
    ensures d == Drop(q, t) && n <= |q| && |d| == (if n < |q| then |q| - 1 else |q|)
    ensures forall i | 0 <= i < |d| :: d[i] == q[Skip(i, n)]
  {
    n, d := 0, Drop(q, t);
    if q != [] && q[0] != t {
      var n', d' := DropShape(q[1..], t);
      n := n' + 1;
      assert d == [q[0]] + d';
    }
  }

  /** Position `i` after dropping position `n`. */
  function Skip(i: nat, n: nat): nat {
    if i < n then i else i + 1
  }

  lemma DropOrder(h: History, q: seq<nat>, t: nat, e: nat, recv: bool)
    requires QueueOrder(h, q, e, recv)
    ensures QueueOrder(h, Drop(q, t), e, recv)
  {
    var n, d := DropShape(q, t);
    DroppedOrder(h, q, d, n, e, recv);
  }

  lemma DroppedOrder(h: History, q: seq<nat>, d: seq<nat>, n: nat, e: nat, recv: bool)
    requires QueueOrder(h, q, e, recv) && n <= |q| && |d| == (if n < |q| then |q| - 1 else |q|)
    requires forall i | 0 <= i < |d| :: d[i] == q[Skip(i, n)]
    ensures QueueOrder(h, d, e, recv)
  {
  }

  lemma AppendOrder(h: History, q: seq<nat>, t: nat, e: nat, recv: bool)
    requires QueueOrder(h, q, e, recv) && t < |h.cur|
    requires forall i | 0 <= i < |q| :: h.cur[q[i]] < h.cur[t]
    requires forall i: nat :: MatchedOn(h, i, e, recv) ==> i < h.cur[t]
    ensures QueueOrder(h, q + [t], e, recv)
  {
  }

  /** Nothing matched, nothing queued: order and counts are as before. */
  lemma OrderFrame(y: Sys, y': Sys)
    requires Order(y) && Counts(y) && SameMatches(y.h, y'.h) && |y'.k.eps| == |y.k.eps|
    requires forall i: nat | i < |y'.h.ops| :: y'.h.ops[i].ep < |y'.k.eps|
    requires forall e | 0 <= e < |y.k.eps| ::
               && QueueOrder(y'.h, y'.k.eps[e].sendQ, e, false) && QueueOrder(y'.h, y'.k.eps[e].recvQ, e, true)
               && y'.k.eps[e].sent == y.k.eps[e].sent && y'.k.eps[e].received == y.k.eps[e].received
    ensures Order(y') && Counts(y')
  {
    forall e: nat | e < |y'.k.eps| ensures |MatchedSends(y'.h, e)| == y'.k.eps[e].sent + y'.k.eps[e].received {
      assert MatchedSends(y'.h, e) == MatchedSends(y.h, e);
    }
    assert Monotone(y'.h) by {
      forall i: nat, j: nat, e: nat | MatchedOn(y'.h, i, e, false) && MatchedOn(y'.h, j, e, false) && i < j
        ensures y'.h.ops[i].peer.value < y'.h.ops[j].peer.value
      {
        assert MatchedOn(y.h, i, e, false) && MatchedOn(y.h, j, e, false);
      }
    }
  }

  lemma QueueFrame(h: History, h': History, q: seq<nat>, e: nat, recv: bool)
    requires QueueOrder(h, q, e, recv) && SameMatches(h, h') && |h'.cur| >= |h.cur|
    requires forall i | 0 <= i < |q| :: h'.cur[q[i]] == h.cur[q[i]]
    ensures QueueOrder(h', q, e, recv)
  {
  }

  /** The history gained exactly one match, of send `s` with receive `r` on endpoint `e`. */
  ghost predicate OneMatch(h: History, h': History, e: nat, s: nat, r: nat) {
    && |h.ops| <= |h'.ops| && s < |h'.ops| && h'.ops[s].peer == Some(r)
    && (forall i: nat, f: nat, b: bool ::
          MatchedOn(h', i, f, b) <==> MatchedOn(h, i, f, b) || (f == e && i == if b then r else s))
    && (forall i: nat, f: nat :: MatchedOn(h, i, f, false) ==> h'.ops[i].peer == h.ops[i].peer)
    && !MatchedOn(h, s, e, false)
  }

  lemma MatchCounts(y: Sys, y': Sys, e: nat, s: nat, r: nat)
    requires Counts(y) && OneMatch(y.h, y'.h, e, s, r) && |y'.k.eps| == |y.k.eps| && e < |y.k.eps|
    requires forall i: nat | i < |y'.h.ops| :: y'.h.ops[i].ep < |y'.k.eps|
    requires forall f: nat | f < |y.k.eps| && f != e :: y'.k.eps[f] == y.k.eps[f]
    requires y'.k.eps[e].sent + y'.k.eps[e].received == y.k.eps[e].sent + y.k.eps[e].received + 1
    ensures Counts(y')
  {
    forall f: nat | f < |y'.k.eps| ensures |MatchedSends(y'.h, f)| == y'.k.eps[f].sent + y'.k.eps[f].received {
      if f == e {
        assert MatchedSends(y'.h, e) == MatchedSends(y.h, e) + {s};
        assert s !in MatchedSends(y.h, e);
      } else {
        assert MatchedSends(y'.h, f) == MatchedSends(y.h, f);
      }
    }
  }

  /** A queue whose threads all started after the operation just matched. */
  lemma MatchQueue(h: History, h': History, e: nat, s: nat, r: nat, q: seq<nat>, f: nat, recv: bool)
    requires OneMatch(h, h', e, s, r) && QueueOrder(h, q, f, recv) && |h'.cur| == |h.cur|
    requires forall j | 0 <= j < |q| :: h'.cur[q[j]] == h.cur[q[j]]
    requires f == e ==> forall j | 0 <= j < |q| :: (if recv then r else s) < h.cur[q[j]]
    ensures QueueOrder(h', q, f, recv)
  {
    forall i: nat, j | MatchedOn(h', i, f, recv) && 0 <= j < |q| ensures i < h'.cur[q[j]] {
      if MatchedOn(h, i, f, recv) { }
    }
  }

  lemma MatchMonotone(y: Sys, h': History, e: nat, s: nat, r: nat)
    requires Monotone(y.h) && Book(y) && OneMatch(y.h, h', e, s, r)
    requires forall i: nat :: MatchedOn(y.h, i, e, false) ==> i < s
    requires forall i: nat :: MatchedOn(y.h, i, e, true) ==> i < r
    ensures Monotone(h')
  {
    forall i: nat, j: nat, f: nat | MatchedOn(h', i, f, false) && MatchedOn(h', j, f, false) && i < j
      ensures h'.ops[i].peer.value < h'.ops[j].peer.value
    {
      if f == e && j == s && i != s {
        assert MatchedOn(y.h, i, e, false) && PeerOk(y.h, i);
        assert MatchedOn(y.h, y.h.ops[i].peer.value, e, true);
      } else if !(f == e && i == s) {
        assert MatchedOn(y.h, i, f, false) && MatchedOn(y.h, j, f, false);
      }
    }
  }

  // ------------------------------------------------------------- the steps

  /** A thread on a queue has started its operation, and it is not one that runs. */
  lemma QueuedCur(y: Sys, e: nat, t: nat)
    requires QInv(y.k) && Book(y) && e < |y.k.eps| && t < |y.k.threads| && y.k.threads[t].at == User
    ensures forall j | 0 <= j < |y.k.eps[e].sendQ| ::
              y.k.eps[e].sendQ[j] < |y.h.cur| && y.k.eps[e].sendQ[j] != t && y.h.cur[y.k.eps[e].sendQ[j]] < |y.h.ops|
    ensures forall j | 0 <= j < |y.k.eps[e].recvQ| ::
              y.k.eps[e].recvQ[j] < |y.h.cur| && y.k.eps[e].recvQ[j] != t && y.h.cur[y.k.eps[e].recvQ[j]] < |y.h.ops|
  {
    assert EndpointOk(y.k, e);
    forall j | 0 <= j < |y.k.eps[e].sendQ|
      ensures y.k.eps[e].sendQ[j] < |y.h.cur| && y.k.eps[e].sendQ[j] != t && y.h.cur[y.k.eps[e].sendQ[j]] < |y.h.ops|
    {
      assert QueuedAt(y.k, y.k.eps[e].sendQ[j], e, SendWait) && ThreadRec(y.k, y.h, y.k.eps[e].sendQ[j]);
    }
    forall j | 0 <= j < |y.k.eps[e].recvQ|
      ensures y.k.eps[e].recvQ[j] < |y.h.cur| && y.k.eps[e].recvQ[j] != t && y.h.cur[y.k.eps[e].recvQ[j]] < |y.h.ops|
    {
      assert QueuedAt(y.k, y.k.eps[e].recvQ[j], e, RecvWait) && ThreadRec(y.k, y.h, y.k.eps[e].recvQ[j]);
    }
  }

  /** Starting an operation that fails at once, or refusing the sender at the head. */
  lemma FailOrder(y: Sys, k: Kernel, t: nat, e: nat, m: Msg, op: OpKind, err: int)
    requires QInv(y.k) && Book(y) && Order(y) && Counts(y) && Ready(y.k, t) && e < |y.k.eps|
    requires |k.eps| == |y.k.eps| && |y.h.cur| == |y.k.threads|
    requires forall f | 0 <= f < |k.eps| ::
               && (k.eps[f].sendQ == y.k.eps[f].sendQ || (y.k.eps[f].sendQ != [] && k.eps[f].sendQ == y.k.eps[f].sendQ[1..]))
               && k.eps[f].recvQ == y.k.eps[f].recvQ && k.eps[f].sent == y.k.eps[f].sent && k.eps[f].received == y.k.eps[f].received
    ensures var id := |y.h.ops|;
            var h := SetDone(Start(y.h, t, Fresh(op, t, e, m)), id, err);
            var y' := Sys(k, if op == CALL then SetFinished(h, id, Fail(err)) else h);
            Order(y') && Counts(y')
  {
    hide QInv, Book;
    var id := |y.h.ops|;
    var h1 := SetDone(Start(y.h, t, Fresh(op, t, e, m)), id, err);
    var h := if op == CALL then SetFinished(h1, id, Fail(err)) else h1;
    BookSizes(y);
    assert SameMatches(y.h, h);
    forall f | 0 <= f < |k.eps| ensures QueueOrder(h, k.eps[f].sendQ, f, false) && QueueOrder(h, k.eps[f].recvQ, f, true) {
      QueuedCur(y, f, t);
      assert QueueOrder(y.h, k.eps[f].sendQ, f, false);
      QueueFrame(y.h, h, k.eps[f].sendQ, f, false);
      QueueFrame(y.h, h, k.eps[f].recvQ, f, true);
    }
    OrderFrame(y, Sys(k, h));
  }

  lemma BookSizes(y: Sys)
    requires Book(y)
    ensures |y.h.cur| == |y.k.threads|
  {
  }

  lemma BlockOrder(y: Sys, t: nat, e: nat, m: Msg, op: OpKind)
    requires QInv(y.k) && Book(y) && Order(y) && Counts(y) && Ready(y.k, t) && e < |y.k.eps|
    ensures |y.h.cur| == |y.k.threads|
    ensures var y' := Sys(EnqueueSender(y.k, t, e, m, op), Start(y.h, t, Fresh(op, t, e, m)));
            op != RECV ==> Order(y') && Counts(y')
    ensures var y' := Sys(EnqueueReceiver(y.k, t, e, m), Start(y.h, t, Fresh(RECV, t, e, m)));
            Order(y') && Counts(y')
  {
    hide QInv, Book;
    BookSizes(y);
    if op != RECV {
      StartOrder(y, EnqueueSender(y.k, t, e, m, op), t, e, m, op);
    }
    StartOrder(y, EnqueueReceiver(y.k, t, e, m), t, e, m, RECV);
  }

  lemma StartSame(h: History, t: nat, r: OpRec)
    requires t < |h.cur| && r.peer.None?
    ensures SameMatches(h, Start(h, t, r))
  {
  }

  lemma StartOrder(y: Sys, k: Kernel, t: nat, e: nat, m: Msg, op: OpKind)
    requires QInv(y.k) && Book(y) && Order(y) && Counts(y) && Ready(y.k, t) && e < |y.k.eps|
    requires |y.h.cur| == |y.k.threads|
    requires var E := y.k.eps[e];
             k.eps == y.k.eps[e := if op == RECV then E.(recvQ := E.recvQ + [t]) else E.(sendQ := E.sendQ + [t])]
    ensures var y' := Sys(k, Start(y.h, t, Fresh(op, t, e, m))); Order(y') && Counts(y')
  {
    hide QInv, Book, QueueOrder, SameMatches, MatchedSends;
    var h := Start(y.h, t, Fresh(op, t, e, m));
    StartSame(y.h, t, Fresh(op, t, e, m));
    forall f | 0 <= f < |k.eps| ensures QueueOrder(h, k.eps[f].sendQ, f, false) && QueueOrder(h, k.eps[f].recvQ, f, true) {
      QueuedCur(y, f, t);
      QueueFrame(y.h, h, y.k.eps[f].sendQ, f, false);
      QueueFrame(y.h, h, y.k.eps[f].recvQ, f, true);
      if f == e && op == RECV { AppendOrder(h, y.k.eps[f].recvQ, t, e, true); }
      if f == e && op != RECV { AppendOrder(h, y.k.eps[f].sendQ, t, e, false); }
    }
    OrderFrame(y, Sys(k, h));
  }

  /** The history of a direct transfer gains one match. */
  lemma DirectOneMatch(h: History, t: nat, r: nat, e: nat, m: Msg, op: OpKind)
    requires t < |h.cur| && r < |h.cur| && h.cur[r] < |h.ops| && op != RECV
    requires h.ops[h.cur[r]].kind == RECV && h.ops[h.cur[r]].ep == e && h.ops[h.cur[r]].peer.None?
    ensures OneMatch(h, DirectHist(h, t, r, e, m, op), e, |h.ops|, h.cur[r])
  {
  }

  lemma TakeOneMatch(h: History, t: nat, s: nat, e: nat, m: Msg)
    requires t < |h.cur| && s < |h.cur| && h.cur[s] < |h.ops|
    requires h.ops[h.cur[s]].kind != RECV && h.ops[h.cur[s]].ep == e && h.ops[h.cur[s]].peer.None?
    ensures OneMatch(h, TakeHist(h, t, s, e, m), e, h.cur[s], |h.ops|)
  {
  }

  /** What matching the head of a queue needs to know about that queue. */
  lemma HeadFirst(y: Sys, e: nat)
    requires QInv(y.k) && Book(y) && Order(y) && e < |y.k.eps|
    ensures y.k.eps[e].recvQ != [] ==>
              var r := y.k.eps[e].recvQ[0];
              && y.k.eps[e].sendQ == [] && r < |y.k.threads| == |y.h.cur| && y.h.cur[r] < |y.h.ops|
              && y.h.ops[y.h.cur[r]].kind == RECV && y.h.ops[y.h.cur[r]].ep == e && y.h.ops[y.h.cur[r]].peer.None?
              && (forall i: nat :: MatchedOn(y.h, i, e, true) ==> i < y.h.cur[r])
              && QueueOrder(y.h, y.k.eps[e].recvQ[1..], e, true)
              && (forall j | 0 <= j < |y.k.eps[e].recvQ[1..]| :: y.h.cur[r] < y.h.cur[y.k.eps[e].recvQ[1..][j]])
    ensures y.k.eps[e].sendQ != [] ==>
              var s := y.k.eps[e].sendQ[0];
              && y.k.eps[e].recvQ == [] && s < |y.k.threads| == |y.h.cur| && y.h.cur[s] < |y.h.ops|
              && y.h.ops[y.h.cur[s]].kind != RECV && y.h.ops[y.h.cur[s]].ep == e && y.h.ops[y.h.cur[s]].peer.None?
              && (forall i: nat :: MatchedOn(y.h, i, e, false) ==> i < y.h.cur[s])
              && QueueOrder(y.h, y.k.eps[e].sendQ[1..], e, false)
              && (forall j | 0 <= j < |y.k.eps[e].sendQ[1..]| :: y.h.cur[s] < y.h.cur[y.k.eps[e].sendQ[1..][j]])
  {
    hide QInv;
    HeadQueued(y.k, e);
    HeadRec(y, e);
    assert QueueOrder(y.h, y.k.eps[e].sendQ, e, false) && QueueOrder(y.h, y.k.eps[e].recvQ, e, true);
    if y.k.eps[e].recvQ != [] {
      assert ThreadRec(y.k, y.h, y.k.eps[e].recvQ[0]);
    }
    if y.k.eps[e].sendQ != [] {
      assert ThreadRec(y.k, y.h, y.k.eps[e].sendQ[0]);
    }
  }

  /** Any step that matches the heads of the two sides keeps order and counts. */
  lemma HeadsMatched(y: Sys, y': Sys, t: nat, e: nat, s: nat, r: nat)
    requires QInv(y.k) && Book(y) && Order(y) && Counts(y) && Ready(y.k, t) && e < |y.k.eps|
    requires |y'.k.eps| == |y.k.eps| && |y'.h.cur| == |y.h.cur| == |y.k.threads|
    requires forall u | 0 <= u < |y.h.cur| && u != t :: y'.h.cur[u] == y.h.cur[u]
    requires OneMatch(y.h, y'.h, e, s, r)
    requires forall i: nat | i < |y'.h.ops| :: y'.h.ops[i].ep < |y'.k.eps|
    requires forall i: nat :: MatchedOn(y.h, i, e, false) ==> i < s
    requires forall i: nat :: MatchedOn(y.h, i, e, true) ==> i < r
    requires forall f: nat | f < |y.k.eps| && f != e :: y'.k.eps[f] == y.k.eps[f]
    requires y'.k.eps[e].sent + y'.k.eps[e].received == y.k.eps[e].sent + y.k.eps[e].received + 1
    requires QueueOrder(y.h, y'.k.eps[e].sendQ, e, false) && QueueOrder(y.h, y'.k.eps[e].recvQ, e, true)
    requires t !in y'.k.eps[e].sendQ && t !in y'.k.eps[e].recvQ
    requires forall j | 0 <= j < |y'.k.eps[e].sendQ| :: s < y.h.cur[y'.k.eps[e].sendQ[j]]
    requires forall j | 0 <= j < |y'.k.eps[e].recvQ| :: r < y.h.cur[y'.k.eps[e].recvQ[j]]
    ensures Order(y') && Counts(y')
  {
    hide QInv, Book, QueueOrder, OneMatch, Counts, Monotone;
    MatchMonotone(y, y'.h, e, s, r);
    MatchCounts(y, y', e, s, r);
    forall f | 0 <= f < |y'.k.eps| ensures QueueOrder(y'.h, y'.k.eps[f].sendQ, f, false) && QueueOrder(y'.h, y'.k.eps[f].recvQ, f, true) {
      QueuedCur(y, f, t);
      QueueBounds(y.h, y'.k.eps[f].sendQ, f, false);
      QueueBounds(y.h, y'.k.eps[f].recvQ, f, true);
      MatchQueue(y.h, y'.h, e, s, r, y'.k.eps[f].sendQ, f, false);
      MatchQueue(y.h, y'.h, e, s, r, y'.k.eps[f].recvQ, f, true);
    }
  }

  lemma QueueBounds(h: History, q: seq<nat>, e: nat, recv: bool)
    requires QueueOrder(h, q, e, recv)
    ensures forall i | 0 <= i < |q| :: q[i] < |h.cur|
  {
  }

  lemma CountBounds(y: Sys)
    requires Counts(y)
    ensures forall i: nat | i < |y.h.ops| :: y.h.ops[i].ep < |y.k.eps|
  {
  }

  lemma DirectOrder(y: Sys, k: Kernel, t: nat, e: nat, m: Msg, op: OpKind)
    requires QInv(y.k) && Book(y) && Order(y) && Counts(y) && Ready(y.k, t) && e < |y.k.eps| && op != RECV
    requires y.k.eps[e].recvQ != [] && |y.h.cur| == |y.k.threads|
    requires y.k.eps[e].recvQ[0] < |y.h.cur| && y.h.cur[y.k.eps[e].recvQ[0]] < |y.h.ops|
    requires k.eps == y.k.eps[e := y.k.eps[e].(recvQ := y.k.eps[e].recvQ[1..], sent := y.k.eps[e].sent + 1)]
    ensures var y' := Sys(k, DirectHist(y.h, t, y.k.eps[e].recvQ[0], e, m, op)); Order(y') && Counts(y')
  {
    hide QInv, Book, QueueOrder, OneMatch, Counts, Order, SameMatches;
    HeadFirst(y, e);
    QueuedCur(y, e, t);
    CountBounds(y);
    var r := y.k.eps[e].recvQ[0];
    DirectOneMatch(y.h, t, r, e, m, op);
    EmptyOrder(y.h, e, false);
    HeadsMatched(y, Sys(k, DirectHist(y.h, t, r, e, m, op)), t, e, |y.h.ops|, y.h.cur[r]);
  }

  lemma TakeOrder(y: Sys, k: Kernel, t: nat, e: nat, m: Msg)
    requires QInv(y.k) && Book(y) && Order(y) && Counts(y) && Ready(y.k, t) && e < |y.k.eps|
    requires y.k.eps[e].sendQ != [] && |y.h.cur| == |y.k.threads|
    requires y.k.eps[e].sendQ[0] < |y.h.cur| && y.h.cur[y.k.eps[e].sendQ[0]] < |y.h.ops|
    requires k.eps == y.k.eps[e := y.k.eps[e].(sendQ := y.k.eps[e].sendQ[1..], received := y.k.eps[e].received + 1)]
    ensures var y' := Sys(k, TakeHist(y.h, t, y.k.eps[e].sendQ[0], e, m)); Order(y') && Counts(y')
  {
    hide QInv, Book, QueueOrder, OneMatch, Counts, Order, SameMatches;
    HeadFirst(y, e);
    QueuedCur(y, e, t);
    CountBounds(y);
    var s := y.k.eps[e].sendQ[0];
    TakeOneMatch(y.h, t, s, e, m);
    EmptyOrder(y.h, e, true);
    HeadsMatched(y, Sys(k, TakeHist(y.h, t, s, e, m)), t, e, y.h.cur[s], |y.h.ops|);
  }

  lemma EmptyOrder(h: History, e: nat, recv: bool)
    ensures QueueOrder(h, [], e, recv)
    ensures forall i: nat, b: bool :: MatchedOn(h, i, e, b) ==> i < |h.ops|
  {
  }

  /** Steps that match nothing and at most remove threads from queues. */
  lemma QuietOrder(y: Sys, y': Sys, t: nat)
    requires QInv(y.k) && Book(y) && Order(y) && Counts(y) && SameMatches(y.h, y'.h) && |y'.h.ops| == |y.h.ops|
    requires |y'.k.eps| == |y.k.eps| && |y'.h.cur| >= |y.h.cur|
    requires forall i: nat | i < |y.h.ops| :: y'.h.ops[i].ep == y.h.ops[i].ep
    requires forall u | 0 <= u < |y.h.cur| :: y'.h.cur[u] == y.h.cur[u]
    requires forall e | 0 <= e < |y.k.eps| ::
               && (y'.k.eps[e].sendQ == Drop(y.k.eps[e].sendQ, t) || y'.k.eps[e].sendQ == y.k.eps[e].sendQ || y'.k.eps[e].sendQ == [])
               && (y'.k.eps[e].recvQ == Drop(y.k.eps[e].recvQ, t) || y'.k.eps[e].recvQ == y.k.eps[e].recvQ || y'.k.eps[e].recvQ == [])
               && y'.k.eps[e].sent == y.k.eps[e].sent && y'.k.eps[e].received == y.k.eps[e].received
    ensures Order(y') && Counts(y')
  {
    hide QInv, Book, SameMatches, QueueOrder;
    CountBounds(y);
    forall e | 0 <= e < |y.k.eps| ensures QueueOrder(y'.h, y'.k.eps[e].sendQ, e, false) && QueueOrder(y'.h, y'.k.eps[e].recvQ, e, true) {
      DropOrder(y.h, y.k.eps[e].sendQ, t, e, false);
      DropOrder(y.h, y.k.eps[e].recvQ, t, e, true);
      EmptyOrder(y.h, e, false);
      EmptyOrder(y.h, e, true);
      QueueBounds(y.h, y'.k.eps[e].sendQ, e, false);
      QueueBounds(y.h, y'.k.eps[e].recvQ, e, true);
      QueueFrame(y.h, y'.h, y'.k.eps[e].sendQ, e, false);
      QueueFrame(y.h, y'.h, y'.k.eps[e].recvQ, e, true);
    }
    OrderFrame(y, y');
  }

  lemma SendOrder(y: Sys, t: nat, e: nat, m: Msg, op: OpKind, mem: bool)
    requires Sound(y) && Ready(y.k, t) && e < |y.k.eps| && op != RECV
    ensures y.k.eps[e].recvQ != [] ==> y.k.eps[e].recvQ[0] < |y.k.threads|
    ensures var k := if op == CALL then Call(y.k, t, e, m, mem).0 else SendOp(y.k, t, e, m, op, mem).0;
            var y' := Sys(k, RecordSend(y, t, e, m, op, mem)); Order(y') && Counts(y')
  {
    hide QInv, PInv, Book, Order, Counts, SliceError, CopySlice;
    HeadRec(y, e);
    BookSizes(y);
    var E := y.k.eps[e];
    var (k1, ret) := SendOp(y.k, t, e, m, op, mem);
    var k := if op == CALL then Call(y.k, t, e, m, mem).0 else k1;
    if ret.Blocked? {
      BlockOrder(y, t, e, m, op);
    } else if ret.res == OK {
      DirectOrder(y, k, t, e, m, op);
    } else {
      FailOrder(y, k, t, e, m, op, ret.res);
    }
  }

  lemma RecvOrder(y: Sys, t: nat, e: nat, m: Msg, mem: bool)
    requires Sound(y) && Enabled(y, ARecv(t, e, m, mem))
    ensures Order(Step(y, ARecv(t, e, m, mem))) && Counts(Step(y, ARecv(t, e, m, mem)))
  {
    hide QInv, PInv, Book, Order, Counts, SliceError, CopySlice;
    HeadRec(y, e);
    BookSizes(y);
    var E := y.k.eps[e];
    var (k, ret) := Recv(y.k, t, e, m, mem);
    if ret.Blocked? {
      BlockOrder(y, t, e, m, RECV);
    } else if E.sendQ != [] && ret.res == OK {
      TakeOrder(y, k, t, e, m);
    } else {
      FailOrder(y, k, t, e, m, RECV, ret.res);
    }
  }

  lemma ResumeOrder(y: Sys, t: nat)
    requires Sound(y) && Enabled(y, AResume(t))
    ensures Order(Step(y, AResume(t))) && Counts(Step(y, AResume(t)))
  {
    hide QInv, PInv, Book, Order, Counts;
    ResumeRec(y, t);
    BookSizes(y);
    assert SameMatches(y.h, RecordResume(y, t));
    QuietOrder(y, Step(y, AResume(t)), t);
  }

  lemma StepOrder(y: Sys, a: Action)
    requires Sound(y) && Enabled(y, a)
    ensures Order(Step(y, a)) && Counts(Step(y, a))
  {
    hide QInv, PInv, Book, Order, Counts, SendOp, Call, Recv, Resume;
    BookSizes(y);
    match a
    case ASend(t, e, m, mem) => SendOrder(y, t, e, m, SEND, mem);
    case ACall(t, e, m, mem) => SendOrder(y, t, e, m, CALL, mem);
    case ARecv(t, e, m, mem) => RecvOrder(y, t, e, m, mem);
    case AResume(t) => ResumeOrder(y, t);
    case ANewEndpoint => NewEndpointOrder(y);
    case AReply(t, m) => ReplyOrder(y, t, m);
    case AExit(t) => ExitOrder(y, t);
    case _ => OtherOrder(y, a);
  }

  lemma AnsweredSame(h: History, c: nat, a: Answer)
    ensures SameMatches(h, Answered(h, c, a)) && Answered(h, c, a).cur == h.cur
    ensures |Answered(h, c, a).ops| == |h.ops| && forall i | 0 <= i < |h.ops| :: Answered(h, c, a).ops[i].ep == h.ops[i].ep
  {
  }

  lemma SameMatchesCur(h: History, cur: seq<nat>)
    ensures SameMatches(h, h.(cur := cur))
  {
    assert forall i: nat, e: nat, b: bool :: MatchedOn(h.(cur := cur), i, e, b) <==> MatchedOn(h, i, e, b);
  }

  lemma ReplyOrder(y: Sys, t: nat, m: Msg)
    requires Sound(y) && Enabled(y, AReply(t, m))
    ensures Order(Step(y, AReply(t, m))) && Counts(Step(y, AReply(t, m)))
  {
    hide QInv, Book, Order, Counts, SameMatches, SliceError, CopySlice, Answered;
    SameMatchesCur(y.h, y.h.cur);
    if y.k.threads[t].caller.Some? {
      var c := y.k.threads[t].caller.value;
      AnsweredSame(y.h, c, Answer(t, SliceError(y.k.windows, y.k.threads[t].proc, y.k.threads[c].proc, m), Msg(m.tag, m.regs)));
    }
    QuietOrder(y, Step(y, AReply(t, m)), t);
  }

  lemma ExitOrder(y: Sys, t: nat)
    requires Sound(y) && Enabled(y, AExit(t))
    ensures Order(Step(y, AExit(t))) && Counts(Step(y, AExit(t)))
  {
    hide QInv, Book, Order, Counts, SameMatches, Answered;
    SameMatchesCur(y.h, y.h.cur);
    if y.k.threads[t].caller.Some? {
      AnsweredSame(y.h, y.k.threads[t].caller.value, Answer(t, ERR_DEAD, NoMsg));
    }
    QuietOrder(y, Step(y, AExit(t)), t);
  }

  lemma OtherOrder(y: Sys, a: Action)
    requires Sound(y) && Enabled(y, a)
    requires a.ADestroy? || a.AFork? || a.AWake? || a.ANewThread?
    ensures Order(Step(y, a)) && Counts(Step(y, a))
  {
    hide QInv, PInv, Book, Order, Counts, SameMatches, FailAll;
    SameMatchesCur(y.h, Record(y, a).cur);
    QuietOrder(y, Step(y, a), 0);
  }

  lemma NewEndpointOrder(y: Sys)
    requires Sound(y)
    ensures var y' := Sys(y.k.(eps := y.k.eps + [Endpoint(false, [], [], 0, 0)]), y.h); Order(y') && Counts(y')
  {
    hide QInv, PInv, Book, QueueOrder, Monotone;
    var n := |y.k.eps|;
    var y' := Sys(y.k.(eps := y.k.eps + [Endpoint(false, [], [], 0, 0)]), y.h);
    EmptyOrder(y.h, n, false);
    EmptyOrder(y.h, n, true);
    assert MatchedSends(y.h, n) == {};
  }
}
