/**
 The endpoint table as the kernel keeps it (kernel/ipc/endpoint.c): global lists
 and counters changed in place, each routine proved against its step.
 */
module EndpointObject {

  import opened Common
  import opened EndpointLife
  import opened EndpointRuns

  class EndpointTable {
    var eps: seq<Ep>
    var list: seq<nat>
    var owned: seq<seq<nat>>
    var next: nat

    ghost function Value(): Table
      reads this
    {
      Table(eps, list, owned, next)
    }

    ghost predicate ListOk()
      reads this
    {
      forall i | 0 <= i < |list| :: list[i] < |eps|
    }

    constructor (procs: nat)
      ensures Value() == Boot(procs).t
    {
      eps, list, owned, next := [], [], seq(procs, i => []), WKE_MAX + 1;
    }

    method NextId() returns (id: nat)
      modifies this`next
      ensures (id, next) == AllocId(old(next))
    {
      if next <= WKE_MAX { next := WKE_MAX + 1; }
      id := next;
      next := (next + 1) % ID_SPACE;
    }

    /** `find_endpoint_locked`: walk the list to the first live entry with the id. */
    method FindLocked(id: nat) returns (r: Option<nat>)
      requires ListOk()
      ensures r == Find(eps, list, id)
    {
      var i := 0;
      while i < |list|
        invariant i <= |list|
        invariant Find(eps, list, id) == Find(eps, list[i..], id)
      {
        var e := eps[list[i]];
        if e.id == id && !e.dead { return Some(list[i]); }
        assert list[i..][1..] == list[i + 1..];
        i := i + 1;
      }
      r := None;
    }

    method PublishNew(owner: Option<nat>, id: nat, dead: bool) returns (p: nat)
      modifies this
      ensures Value() == Publish(old(Value()), owner, id, dead) && p == old(|eps|)
    {
      p := |eps|;
      eps := eps + [Ep(id, dead, true, 1, owner, false)];
      list := [p] + list;
      if owner.Some? && owner.value < |owned| {
        owned := owned[owner.value := owned[owner.value] + [p]];
      }
    }

    method CreateDynamic(owner: Option<nat>, dead: bool, mem: bool) returns (r: Option<nat>)
      modifies this
      ensures (Value(), r) == Create(old(Value()), owner, dead, mem)
    {
      var id := NextId();
      if !mem { return None; }
      var p := PublishNew(owner, id, dead);
      r := Some(p);
    }

    method Claim(owner: Option<nat>, id: nat, dead: bool, mem: bool) returns (r: Option<nat>)
      requires ListOk()
      modifies this
      ensures (Value(), r) == CreateWellKnown(old(Value()), owner, id, dead, mem)
    {
      if id < WKE_MIN || id > WKE_MAX || !mem { return None; }
      var taken := FindLocked(id);
      if taken.Some? { return None; }
      var p := PublishNew(owner, id, dead);
      r := Some(p);
    }

    method Lookup(id: nat) returns (r: Option<nat>)
      requires ListOk()
      modifies this`eps
      ensures (Value(), r) == Get(old(Value()), id)
    {
      r := FindLocked(id);
      if r.Some? {
        eps := eps[r.value := eps[r.value].(refcount := eps[r.value].refcount + 1)];
      }
    }

    method Release(p: nat)
      requires p < |eps|
      modifies this`eps
      ensures Value() == Put(old(Value()), p)
    {
      var n := eps[p].refcount - 1;
      eps := eps[p := eps[p].(refcount := n)];
      if n == 0 { eps := eps[p := eps[p].(freed := true)]; }
    }

    method DestroyOne(p: nat)
      requires p < |eps|
      modifies this
      ensures Value() == Destroy(old(Value()), p)
    {
      var e := eps[p];
      if e.dead { return; }
      eps := eps[p := e.(dead := true, listed := false)];
      if e.listed {
        list := Unlinked(list, p);
        if e.owner.Some? && e.owner.value < |owned| {
          var mine := Unlinked(owned[e.owner.value], p);
          owned := owned[e.owner.value := mine];
        }
        Release(p);
      }
    }

    /** One turn of the loop: pin the first owned endpoint, destroy it, let it go. */
    method DestroyFirstOwned(o: nat, ghost y: Sys)
      requires Inv(y) && y.t == Value() && o < |owned| && owned[o] != []
      modifies this
      ensures y.t.owned[o][0] < |y.t.eps| == |y.refs| == |y.waiting|
      ensures Value() == DestroyFirst(y, o).t && Inv(DestroyFirst(y, o))
      ensures o < |owned| && owned[o] == old(owned[o])[1..]
    {
      hide Inv, Drop;
      DestroyFirstInv(y, o);
      Shape(y);
      var p := owned[o][0];
      eps := eps[p := eps[p].(refcount := eps[p].refcount + 1)];
      owned := owned[o := owned[o][1..]];
      assert Value() == SysPin(y, o).t;
      DestroyOne(p);
      assert Value() == SysDestroy(SysPin(y, o), p).t;
      Release(p);
    }

    /** `ipc_destroy_owned_by_process`; `y` names the outstanding references. */
    method DestroyAllOwned(o: nat, ghost y: Sys)
      requires Inv(y) && y.t == Value() && o < |owned|
      modifies this
      ensures Value() == DestroyOwned(y, o).t
    {
      hide Inv, DestroyFirst;
      ghost var z := y;
      while owned[o] != []
        invariant Inv(z) && z.t == Value() && o < |owned|
        invariant DestroyOwned(y, o) == DestroyOwned(z, o)
        decreases |owned[o]|
      {
        DestroyFirstOwned(o, z);
        z := DestroyFirst(z, o);
      }
    }
  }
}
