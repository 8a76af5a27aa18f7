/**
 Endpoint lifetime over whole runs: the reference counts are exact, an endpoint
 is freed once, after which nothing reaches it, and ids are distinct until the
 32-bit counter comes round.
 */
module EndpointRuns {

  import opened Common
  import opened EndpointLife

  // --------------------------------------------- ipc_destroy_owned_by_process

  /** One turn of the loop: pin the first owned endpoint, destroy it, let it go. */
  function DestroyFirst(y: Sys, o: nat): Sys
    requires o < |y.t.owned| && y.t.owned[o] != [] && y.t.owned[o][0] < |y.t.eps| == |y.refs| == |y.waiting|
  {
    var p := y.t.owned[o][0];
    SysPut(SysDestroy(SysPin(y, o), p), p)
  }

  /** One turn keeps the books; the pin keeps the endpoint allocated until the turn's own release. */
  lemma DestroyFirstInv(y: Sys, o: nat)
    requires Inv(y) && o < |y.t.owned| && y.t.owned[o] != []
    ensures y.t.owned[o][0] < |y.t.eps| && Inv(DestroyFirst(y, o))
    ensures !SysDestroy(SysPin(y, o), y.t.owned[o][0]).t.eps[y.t.owned[o][0]].freed
    ensures |DestroyFirst(y, o).t.owned| == |y.t.owned|
    ensures DestroyFirst(y, o).t.owned[o] == y.t.owned[o][1..]
    ensures forall u | 0 <= u < |y.t.owned| && u != o :: DestroyFirst(y, o).t.owned[u] == y.t.owned[u]
  {
    hide Drop;
    var p := y.t.owned[o][0];
    PinInv(y, o);
    var y1 := SysPin(y, o);
    DestroyInv(y1, p);
    DestroyLists(y1, p);
    var y2 := SysDestroy(y1, p);
    assert CountOk(y1, p) && CountOk(y2, p) && CountOk(y, p);
    RefInv(y2, p, -1);
    forall u | 0 <= u < |y.t.owned|
      ensures DestroyFirst(y, o).t.owned[u] == if u == o then y.t.owned[o][1..] else y.t.owned[u]
    {
      DropSpec(y1.t.owned[u], p);
      if u == o {
        assert p !in y.t.owned[o][1..];
      } else {
        OneOwner(y, p, o, u);
      }
    }
  }

  /** `ipc_destroy_owned_by_process`. */
  ghost function DestroyOwned(y: Sys, o: nat): (z: Sys)
    requires Inv(y) && o < |y.t.owned|
    decreases |y.t.owned[o]|
  {
    if y.t.owned[o] == [] then y
    else
      DestroyFirstInv(y, o);
      DestroyOwned(DestroyFirst(y, o), o)
  }

  /** What one turn does to each endpoint. */
  lemma DestroyFirstEps(y: Sys, o: nat)
    requires Inv(y) && o < |y.t.owned| && y.t.owned[o] != []
    ensures y.t.owned[o][0] < |y.t.eps|
    ensures |DestroyFirst(y, o).t.eps| == |y.t.eps| && DestroyFirst(y, o).refs == y.refs
    ensures forall q | 0 <= q < |y.t.eps| && q != y.t.owned[o][0] ::
      DestroyFirst(y, o).t.eps[q] == y.t.eps[q] && DestroyFirst(y, o).waiting[q] == y.waiting[q]
    ensures DestroyFirst(y, o).t.eps[y.t.owned[o][0]].dead && !y.t.eps[y.t.owned[o][0]].freed
    ensures DestroyFirst(y, o).t.next == y.t.next
    ensures DestroyFirst(y, o).t.eps[y.t.owned[o][0]].id == y.t.eps[y.t.owned[o][0]].id
  {
    hide Drop;
    assert CountOk(y, y.t.owned[o][0]);
    PinInv(y, o);
  }

  /**
   Process teardown destroys exactly the endpoints the process owned, changes no
   other endpoint and no reference, and leaves its list empty.
   */
  lemma {:induction false} DestroyOwnedSpec(y: Sys, o: nat)
    requires Inv(y) && o < |y.t.owned|
    ensures Inv(DestroyOwned(y, o))
    ensures |DestroyOwned(y, o).t.owned| == |y.t.owned| && DestroyOwned(y, o).t.owned[o] == []
    ensures |DestroyOwned(y, o).t.eps| == |y.t.eps| && DestroyOwned(y, o).refs == y.refs
    ensures DestroyOwned(y, o).t.next == y.t.next
    ensures forall p | 0 <= p < |y.t.eps| :: DestroyOwned(y, o).t.eps[p].id == y.t.eps[p].id
    ensures forall p | p in y.t.owned[o] :: p < |y.t.eps| && DestroyOwned(y, o).t.eps[p].dead
    ensures forall p | 0 <= p < |y.t.eps| && p !in y.t.owned[o] ::
      DestroyOwned(y, o).t.eps[p] == y.t.eps[p] && DestroyOwned(y, o).waiting[p] == y.waiting[p]
    decreases |y.t.owned[o]|
  {
    hide DestroyFirst, Inv;
    if y.t.owned[o] != [] {
      Shape(y);
      DestroyFirstInv(y, o);
      DestroyFirstEps(y, o);
      var z := DestroyFirst(y, o);
      DestroyOwnedSpec(z, o);
      assert y.t.owned[o] == [y.t.owned[o][0]] + z.t.owned[o];
      HeadOnce(y, o);
    }
  }

  lemma OneOwner(y: Sys, p: nat, o: nat, u: nat)
    requires Inv(y) && o < |y.t.owned| && u < |y.t.owned| && u != o && p in y.t.owned[o]
    ensures p !in y.t.owned[u]
  {
    OwnedOnce(y, p, o);
    assert forall i | 0 <= i < |y.t.owned[u]| :: y.t.owned[u][i] != p;
  }

  lemma Shape(y: Sys)
    requires Inv(y)
    ensures |y.t.eps| == |y.refs| == |y.waiting|
  {
  }

  lemma HeadOnce(y: Sys, o: nat)
    requires Inv(y) && o < |y.t.owned| && y.t.owned[o] != []
    ensures y.t.owned[o][0] !in y.t.owned[o][1..]
    ensures forall p | p in y.t.owned[o] :: p < |y.t.eps|
  {
  }

  // ---------------------------------------------------------------- steps

  ghost function Step(y: Sys, a: Action): Sys
    requires Inv(y) && Enabled(y, a)
  {
    match a
    case ACreate(owner, dead, mem) => SysCreate(y, owner, dead, mem)
    case AClaim(owner, id, dead, mem) => SysClaim(y, owner, id, dead, mem)
    case AGet(id) => SysGet(y, id)
    case APut(p) => SysPut(y, p)
    case AWait(p) => y.(waiting := y.waiting[p := y.waiting[p] + 1])
    case ALeave(p) => y.(waiting := y.waiting[p := y.waiting[p] - 1])
    case ADestroy(p) => SysDestroy(y, p)
    case ADestroyOwned(o) => DestroyOwned(y, o)
  }

  lemma ListedAlive(y: Sys, p: nat)
    requires Inv(y) && p < |y.t.eps|
    ensures p in y.t.list ==> !y.t.eps[p].freed && !y.t.eps[p].dead
    ensures y.refs[p] > 0 ==> !y.t.eps[p].freed
    ensures y.t.eps[p].freed <==> y.t.eps[p].dead && y.refs[p] == 0
    ensures y.t.eps[p].dead <==> p !in y.t.list
  {
    assert CountOk(y, p);
  }

  /** Every step keeps every count exact. */
  lemma StepInv(y: Sys, a: Action)
    requires Inv(y) && Enabled(y, a)
    ensures Inv(Step(y, a))
  {
    hide Drop, DestroyOwned, Destroy, Find;
    match a
    case ACreate(owner, dead, mem) =>
      var (id, next) := AllocId(y.t.next);
      if mem { PublishInv(y, owner, id, next, dead); } else { NextIrrelevant(y, next); }
    case AClaim(owner, id, dead, mem) =>
      PublishInv(y, owner, id, y.t.next, dead);
      assert y.t.(next := y.t.next) == y.t;
    case AGet(id) =>
      var r := Find(y.t.eps, y.t.list, id);
      if r.Some? { ListedAlive(y, r.value); RefInv(y, r.value, 1); }
    case APut(p) => RefInv(y, p, -1);
    case AWait(p) => WaitInv(y, p, y.waiting[p] + 1);
    case ALeave(p) => DeadQuiet(y, p); WaitInv(y, p, y.waiting[p] - 1);
    case ADestroy(p) => DestroyInv(y, p);
    case ADestroyOwned(o) => DestroyOwnedSpec(y, o);
  }

  lemma DeadQuiet(y: Sys, p: nat)
    requires Inv(y) && p < |y.t.eps|
    ensures y.t.eps[p].dead ==> y.waiting[p] == 0
    ensures y.waiting[p] <= y.refs[p]
  {
    assert CountOk(y, p);
  }

  lemma NextIrrelevant(y: Sys, next: nat)
    requires Inv(y)
    ensures Inv(y.(t := y.t.(next := next)))
  {
    var z := y.(t := y.t.(next := next));
    forall p | 0 <= p < |z.t.eps| ensures CountOk(z, p) && (z.t.eps[p].listed <==> p in z.t.list) {
      assert CountOk(y, p);
    }
  }

  /** The endpoints a step reads or writes through a pointer, other than by walking a list. */
  predicate Named(a: Action, p: nat) {
    match a
    case APut(q) => p == q
    case AWait(q) => p == q
    case ALeave(q) => p == q
    case ADestroy(q) => p == q
    case _ => false
  }

  /**
   Freed means gone: no list reaches the endpoint, no enabled step names it, and
   every step leaves its record as it was.
   */
  lemma FreedIsUnreachable(y: Sys, a: Action, p: nat)
    requires Inv(y) && Enabled(y, a) && p < |y.t.eps| && y.t.eps[p].freed
    ensures p !in y.t.list && (forall o | 0 <= o < |y.t.owned| :: p !in y.t.owned[o])
    ensures !Named(a, p)
    ensures p < |Step(y, a).t.eps| && Step(y, a).t.eps[p] == y.t.eps[p]
  {
    hide Drop, DestroyOwned;
    ListedAlive(y, p);
    DeadQuiet(y, p);
    forall o | 0 <= o < |y.t.owned| ensures p !in y.t.owned[o] {
      if p in y.t.owned[o] { OwnedOnce(y, p, o); ListedAlive(y, p); }
    }
    if a.ADestroyOwned? { DestroyOwnedSpec(y, a.proc); }
    if a.AGet? {
      var r := Find(y.t.eps, y.t.list, a.id);
      if r.Some? { ListedAlive(y, r.value); }
    }
  }

  /**
   `endpoint_destroy` reads the id after dropping the list's reference: the
   endpoint is still allocated then exactly when somebody else holds one.
   */
  lemma DestroyReadIsSafeIff(y: Sys, p: nat)
    requires Inv(y) && p < |y.t.eps| && p in y.t.list
    ensures Destroy(y.t, p).eps[p].freed <==> y.refs[p] == 0
  {
    assert CountOk(y, p);
  }

  /** The self-test's destroy without a reference of its own. */
  lemma SelfTestReadsFreed()
    ensures var y := SysClaim(Boot(0), None, 15, false, true);
            Inv(y) && y.t.list == [0] && y.refs[0] == 0 && Destroy(y.t, 0).eps[0].freed
  {
    BootInv(0);
    PublishInv(Boot(0), None, 15, Boot(0).t.next, false);
    assert Boot(0).t.(next := Boot(0).t.next) == Boot(0).t;
  }

  // ----------------------------------------------------------------- runs

  function Boot(procs: nat): Sys {
    Sys(Table([], [], seq(procs, i => []), WKE_MAX + 1), [], [])
  }

  lemma BootInv(procs: nat)
    ensures Inv(Boot(procs)) && DistinctIds(Boot(procs).t) && NotWrapped(Boot(procs).t)
  {
  }

  ghost predicate EnabledRun(y: Sys, run: seq<Action>)
    requires Inv(y)
    decreases |run|
  {
    run == [] || (Enabled(y, run[0]) && (StepInv(y, run[0]); EnabledRun(Step(y, run[0]), run[1..])))
  }

  ghost function Run(y: Sys, run: seq<Action>): Sys
    requires Inv(y) && EnabledRun(y, run)
    decreases |run|
  {
    if run == [] then y else StepInv(y, run[0]); Run(Step(y, run[0]), run[1..])
  }

  /** Over every run the counts are exact and a freed endpoint's record never changes again. */
  lemma {:induction false} RunInv(y: Sys, run: seq<Action>)
    requires Inv(y) && EnabledRun(y, run)
    ensures Inv(Run(y, run))
    ensures |Run(y, run).t.eps| >= |y.t.eps|
    ensures forall p | 0 <= p < |y.t.eps| && y.t.eps[p].freed :: Run(y, run).t.eps[p] == y.t.eps[p]
    decreases |run|
  {
    hide Inv, Step;
    if run != [] {
      StepInv(y, run[0]);
      StepGrows(y, run[0]);
      forall p | 0 <= p < |y.t.eps| && y.t.eps[p].freed ensures Step(y, run[0]).t.eps[p] == y.t.eps[p] {
        FreedIsUnreachable(y, run[0], p);
      }
      RunInv(Step(y, run[0]), run[1..]);
    }
  }

  lemma StepGrows(y: Sys, a: Action)
    requires Inv(y) && Enabled(y, a)
    ensures |Step(y, a).t.eps| >= |y.t.eps|
    ensures |Step(y, a).t.owned| == |y.t.owned|
  {
    hide Drop, DestroyOwned;
    if a.ADestroyOwned? { DestroyOwnedSpec(y, a.proc); }
  }

  /**
   In every run from boot: an endpoint's count is the list's reference plus the
   outstanding ones; it has been freed exactly when it is dead with none
   outstanding, and then it is unlisted and without waiters.
   */
  lemma Lifetime(procs: nat, run: seq<Action>, p: nat)
    requires Inv(Boot(procs)) && EnabledRun(Boot(procs), run) && p < |Run(Boot(procs), run).t.eps|
    ensures var z := Run(Boot(procs), run); var E := z.t.eps[p];
      && |z.refs| == |z.waiting| == |z.t.eps|
      && E.refcount == (if p in z.t.list then 1 else 0) + z.refs[p]
      && (E.freed <==> E.dead && z.refs[p] == 0)
      && (E.freed ==> p !in z.t.list && z.waiting[p] == 0)
  {
    RunInv(Boot(procs), run);
    ListedAlive(Run(Boot(procs), run), p);
    DeadQuiet(Run(Boot(procs), run), p);
    assert CountOk(Run(Boot(procs), run), p);
  }

  // ------------------------------------------------------------------ ids

  /** A dynamic creation keeps ids distinct exactly when no live endpoint already has the id it takes. */
  lemma CreateDistinctIff(y: Sys, owner: Option<nat>)
    requires Inv(y) && DistinctIds(y.t)
    ensures var z := SysCreate(y, owner, false, true);
      && z.t.eps[|y.t.eps|].id == AllocId(y.t.next).0 > WKE_MAX
      && (DistinctIds(z.t) <==>
          forall p | 0 <= p < |y.t.eps| && y.t.eps[p].listed :: y.t.eps[p].id != AllocId(y.t.next).0)
  {
    var z := SysCreate(y, owner, false, true);
    var n := |y.t.eps|;
    assert forall p | 0 <= p < n :: z.t.eps[p] == y.t.eps[p];
    if DistinctIds(z.t) {
      forall p | 0 <= p < n && y.t.eps[p].listed ensures y.t.eps[p].id != AllocId(y.t.next).0 {
        assert z.t.eps[p].listed && z.t.eps[n].listed;
      }
    }
  }

  /** Creations that find no memory; each uses up an id all the same. */
  function FailedCreations(n: nat): seq<Action> {
    if n == 0 then [] else [ACreate(None, false, false)] + FailedCreations(n - 1)
  }

  /** They advance the counter and nothing else. */
  lemma {:induction false} CounterAdvances(y: Sys, n: nat)
    requires Inv(y) && WKE_MAX < y.t.next && y.t.next + n <= ID_SPACE
    ensures EnabledRun(y, FailedCreations(n)) && Run(y, FailedCreations(n)) == y.(t := y.t.(next := if n == 0 then y.t.next else (y.t.next + n) % ID_SPACE))
    decreases n
  {
    hide Inv;
    if n > 0 {
      var a := ACreate(None, false, false);
      StepInv(y, a);
      assert FailedCreations(n)[0] == a && FailedCreations(n)[1..] == FailedCreations(n - 1);
      if n > 1 { CounterAdvances(Step(y, a), n - 1); }
    }
  }

  lemma {:induction false} RunConcat(y: Sys, a: seq<Action>, b: seq<Action>)
    requires Inv(y) && EnabledRun(y, a) && Inv(Run(y, a)) && EnabledRun(Run(y, a), b)
    ensures EnabledRun(y, a + b) && Run(y, a + b) == Run(Run(y, a), b)
    decreases |a|
  {
    hide Inv, Step, Enabled;
    if a == [] {
      assert a + b == b;
    } else {
      StepInv(y, a[0]);
      assert (a + b)[0] == a[0] && (a + b)[1..] == a[1..] + b;
      RunConcat(Step(y, a[0]), a[1..], b);
    }
  }

  lemma OneStep(y: Sys, a: Action)
    requires Inv(y) && Enabled(y, a)
    ensures EnabledRun(y, [a]) && Run(y, [a]) == Step(y, a) && Inv(Step(y, a))
  {
    hide Inv, Step, Enabled;
    StepInv(y, a);
    assert [a][1..] == [];
  }

  /**
   A run from boot that repeats an id: one endpoint is created and stays, the counter
   comes round through creations that find no memory, and the next endpoint gets the
   first one's id.
   */
  lemma IdRepeats()
    ensures var one := [ACreate(None, false, true)];
      var run := one + FailedCreations(ID_SPACE - WKE_MAX - 2) + one;
      && Inv(Boot(0)) && EnabledRun(Boot(0), run)
      && var z := Run(Boot(0), run).t;
         |z.eps| == 2 && z.eps[0].listed && z.eps[1].listed && z.eps[0].id == z.eps[1].id && !DistinctIds(z)
  {
    hide Inv, EnabledRun, Run, FailedCreations;
    var a := ACreate(None, false, true);
    var fails := FailedCreations(ID_SPACE - WKE_MAX - 2);
    BootInv(0);
    OneStep(Boot(0), a);
    var y := Step(Boot(0), a);
    CounterAdvances(y, ID_SPACE - WKE_MAX - 2);
    RunInv(y, fails);
    RunConcat(Boot(0), [a], fails);
    var w := Run(Boot(0), [a] + fails);
    OneStep(w, a);
    RunConcat(Boot(0), [a] + fails, [a]);
    assert Step(w, a).t.eps[0].listed && Step(w, a).t.eps[1].listed;
  }

  /** A claim never duplicates a live id. */
  lemma ClaimDistinct(y: Sys, owner: Option<nat>, id: nat, mem: bool)
    requires Inv(y) && DistinctIds(y.t)
    ensures DistinctIds(SysClaim(y, owner, id, false, mem).t)
  {
    var n := |y.t.eps|;
    if Find(y.t.eps, y.t.list, id).None? {
      forall p | 0 <= p < n && y.t.eps[p].listed ensures y.t.eps[p].id != id {
        assert CountOk(y, p);
        var i :| 0 <= i < |y.t.list| && y.t.list[i] == p;
      }
    }
  }

  /** Steps other than creations change no id and list nothing new. */
  lemma QuietIds(y: Sys, a: Action)
    requires Inv(y) && Enabled(y, a) && !a.ACreate? && !a.AClaim?
    ensures |Step(y, a).t.eps| == |y.t.eps| && Step(y, a).t.next == y.t.next
    ensures forall p | 0 <= p < |y.t.eps| ::
      Step(y, a).t.eps[p].id == y.t.eps[p].id && (Step(y, a).t.eps[p].listed ==> y.t.eps[p].listed)
  {
    hide Drop, DestroyOwned;
    if a.ADestroyOwned? {
      StepInv(y, a);
      DestroyOwnedSpec(y, a.proc);
      var z := Step(y, a);
      forall p | 0 <= p < |y.t.eps| ensures z.t.eps[p].listed ==> y.t.eps[p].listed {
        assert CountOk(z, p) && CountOk(y, p);
      }
    }
  }

  function Creates(run: seq<Action>): nat {
    if run == [] then 0 else (if run[0].ACreate? then 1 else 0) + Creates(run[1..])
  }

  lemma StepIds(y: Sys, a: Action)
    requires Inv(y) && Enabled(y, a) && DistinctIds(y.t) && NotWrapped(y.t)
    requires a.ACreate? ==> y.t.next + 1 < ID_SPACE
    ensures DistinctIds(Step(y, a).t) && NotWrapped(Step(y, a).t)
    ensures Step(y, a).t.next == y.t.next + if a.ACreate? then 1 else 0
  {
    hide Drop, DestroyOwned, Inv;
    if a.ACreate? {
      if a.mem { CreateDistinctIff(y, a.owner); }
    } else if a.AClaim? {
      StepInv(y, a);
      ClaimDistinct(y, a.owner, a.id, a.mem);
    } else {
      QuietIds(y, a);
    }
  }

  /** Live ids are pairwise distinct in every run until the id counter comes round. */
  lemma {:induction false} LiveIdsDistinct(y: Sys, run: seq<Action>)
    requires Inv(y) && EnabledRun(y, run) && DistinctIds(y.t) && NotWrapped(y.t)
    requires y.t.next + Creates(run) < ID_SPACE
    ensures DistinctIds(Run(y, run).t) && NotWrapped(Run(y, run).t)
    decreases |run|
  {
    hide Inv, Step, DistinctIds, NotWrapped;
    if run != [] {
      StepInv(y, run[0]);
      StepIds(y, run[0]);
      LiveIdsDistinct(Step(y, run[0]), run[1..]);
    }
  }

  /** A lookup finds a live endpoint with the id, and whenever there is one. */
  lemma GetSpec(y: Sys, id: nat)
    requires Inv(y)
    ensures Get(y.t, id).1.Some? <==> exists p :: p in y.t.list && p < |y.t.eps| && y.t.eps[p].id == id
    ensures var r := Get(y.t, id).1; r.Some? ==>
      r.value in y.t.list && y.t.eps[r.value].id == id && !y.t.eps[r.value].freed
  {
    var r := Find(y.t.eps, y.t.list, id);
    if r.None? {
      forall p | p in y.t.list ensures p < |y.t.eps| && y.t.eps[p].id != id {
        var i :| 0 <= i < |y.t.list| && y.t.list[i] == p;
        assert CountOk(y, p);
      }
    } else {
      ListedAlive(y, r.value);
    }
  }
}
