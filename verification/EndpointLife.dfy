/**
 Endpoint lifetime (kernel/ipc/endpoint.c): identifiers, the global list, the
 owners' lists and reference counts.

 An endpoint is named by its position in a table, so that a freed endpoint can
 still be talked about.  `refs` counts the references that callers hold and
 `waiting` the threads queued on the endpoint, each of which holds one.
 */
module EndpointLife {

  import opened Common

  const WKE_MIN: nat := 1
  const WKE_MAX: nat := 15
  const ID_SPACE: nat := 0x1_0000_0000

  datatype Ep = Ep(id: nat, dead: bool, listed: bool, refcount: int, owner: Option<nat>, freed: bool)

  datatype Table = Table(eps: seq<Ep>, list: seq<nat>, owned: seq<seq<nat>>, next: nat)

  datatype Sys = Sys(t: Table, refs: seq<nat>, waiting: seq<nat>)

  // ---------------------------------------------------------------- steps

  /** `alloc_endpoint_id`: the 32-bit counter skips the well-known range when it wraps. */
  function AllocId(next: nat): (r: (nat, nat))
  {
    var id := if next <= WKE_MAX then WKE_MAX + 1 else next;
    (id, (id + 1) % ID_SPACE)
  }

  /** The first live endpoint with this id on the list. */
  function Find(eps: seq<Ep>, list: seq<nat>, id: nat): (r: Option<nat>)
    requires forall i | 0 <= i < |list| :: list[i] < |eps|
    ensures r.Some? ==> r.value in list && r.value < |eps| && eps[r.value].id == id && !eps[r.value].dead
    ensures r.None? ==> forall i | 0 <= i < |list| :: eps[list[i]].id == id ==> eps[list[i]].dead
  {
    if list == [] then None
    else if eps[list[0]].id == id && !eps[list[0]].dead then Some(list[0])
    else
      var r := Find(eps, list[1..], id);
      assert list == [list[0]] + list[1..];
      r
  }

  /** Initialise a new endpoint and put it on the lists; `dead` is the DEAD bit of the caller's creation flags. */
  function Publish(t: Table, owner: Option<nat>, id: nat, dead: bool): Table {
    var p := |t.eps|;
    t.(eps := t.eps + [Ep(id, dead, true, 1, owner, false)],
       list := [p] + t.list,
       owned := if owner.Some? && owner.value < |t.owned|
                then t.owned[owner.value := t.owned[owner.value] + [p]] else t.owned)
  }

  function Create(t: Table, owner: Option<nat>, dead: bool, mem: bool): (Table, Option<nat>) {
    var (id, next) := AllocId(t.next);
    var t1 := t.(next := next);
    if !mem then (t1, None) else (Publish(t1, owner, id, dead), Some(|t.eps|))
  }

  function CreateWellKnown(t: Table, owner: Option<nat>, id: nat, dead: bool, mem: bool): (Table, Option<nat>)
    requires forall i | 0 <= i < |t.list| :: t.list[i] < |t.eps|
  {
    if id < WKE_MIN || id > WKE_MAX || !mem || Find(t.eps, t.list, id).Some? then (t, None)
    else (Publish(t, owner, id, dead), Some(|t.eps|))
  }

  function Retain(t: Table, p: nat): Table
    requires p < |t.eps|
  {
    t.(eps := t.eps[p := t.eps[p].(refcount := t.eps[p].refcount + 1)])
  }

  /** `endpoint_put`. */
  function Put(t: Table, p: nat): Table
    requires p < |t.eps|
  {
    var n := t.eps[p].refcount - 1;
    t.(eps := t.eps[p := t.eps[p].(refcount := n, freed := t.eps[p].freed || n == 0)])
  }

  function Get(t: Table, id: nat): (Table, Option<nat>)
    requires forall i | 0 <= i < |t.list| :: t.list[i] < |t.eps|
  {
    var r := Find(t.eps, t.list, id);
    if r.None? then (t, r) else (Retain(t, r.value), r)
  }

  function UnlinkOwner(t: Table, p: nat): Table
    requires p < |t.eps|
  {
    var o := t.eps[p].owner;
    if o.Some? && o.value < |t.owned| then t.(owned := t.owned[o.value := Drop(t.owned[o.value], p)]) else t
  }

  /** `endpoint_destroy`; its waiters are woken, so none is left. */
  function Destroy(t: Table, p: nat): Table
    requires p < |t.eps|
  {
    var E := t.eps[p];
    if E.dead then t
    else
      var t1 := t.(eps := t.eps[p := E.(dead := true, listed := false)]);
      if !E.listed then t1
      else Put(UnlinkOwner(t1.(list := Drop(t1.list, p)), p), p)
  }

  // ------------------------------------------------------------ invariant

  /** The count is the list's reference plus the callers'; freed means nothing refers to it. */
  predicate CountOk(y: Sys, p: nat)
    requires p < |y.t.eps| == |y.refs| == |y.waiting|
  {
    var E := y.t.eps[p];
    && E.refcount == (if E.listed then 1 else 0) + y.refs[p]
    && (E.freed <==> E.refcount == 0)
    && (E.listed <==> !E.dead)
    && y.waiting[p] <= y.refs[p]
    && (E.dead ==> y.waiting[p] == 0)
  }

  ghost predicate Inv(y: Sys) {
    && |y.t.eps| == |y.refs| == |y.waiting|
    && NoDup(y.t.list) && (forall o | 0 <= o < |y.t.owned| :: NoDup(y.t.owned[o]))
    && (forall p | 0 <= p < |y.t.eps| :: CountOk(y, p) && (y.t.eps[p].listed <==> p in y.t.list))
    && (forall i | 0 <= i < |y.t.list| :: y.t.list[i] < |y.t.eps|)
    && (forall o, i | 0 <= o < |y.t.owned| && 0 <= i < |y.t.owned[o]| ::
          && y.t.owned[o][i] < |y.t.eps| && y.t.eps[y.t.owned[o][i]].owner == Some(o)
          && y.t.eps[y.t.owned[o][i]].listed)
  }

  /** Two endpoints on the list never share an id. */
  ghost predicate DistinctIds(t: Table) {
    forall p, q | 0 <= p < q < |t.eps| && t.eps[p].listed && t.eps[q].listed :: t.eps[p].id != t.eps[q].id
  }

  /** The id counter has not wrapped: every dynamic id handed out lies below it. */
  ghost predicate NotWrapped(t: Table) {
    && WKE_MAX < t.next
    && forall p | 0 <= p < |t.eps| && t.eps[p].id > WKE_MAX :: t.eps[p].id < t.next
  }

  // -------------------------------------------------------------- actions

  datatype Action =
    | ACreate(owner: Option<nat>, dead: bool, mem: bool)
    | AClaim(owner: Option<nat>, id: nat, dead: bool, mem: bool)
    | AGet(id: nat)
    | APut(p: nat)
    | AWait(p: nat)
    | ALeave(p: nat)
    | ADestroy(p: nat)
    | ADestroyOwned(proc: nat)

  /** Whoever waits on, destroys or releases an endpoint holds a reference that is not tied to a sleeping thread. */
  predicate Enabled(y: Sys, a: Action)
    requires |y.t.eps| == |y.refs| == |y.waiting|
  {
    match a
    case APut(p) => p < |y.refs| && y.refs[p] > y.waiting[p]
    case AWait(p) => p < |y.refs| && y.refs[p] > y.waiting[p] && !y.t.eps[p].dead
    case ALeave(p) => p < |y.refs| && y.waiting[p] > 0
    case ADestroy(p) => p < |y.refs| && y.refs[p] > y.waiting[p]
    case ADestroyOwned(o) => o < |y.t.owned|
    case ACreate(_, dead, _) => !dead
    case AClaim(_, _, dead, _) => !dead
    case AGet(_) => true
  }

  // --------------------------------------------------------- Sys versions

  function Grow(y: Sys, t: Table): Sys {
    Sys(t, y.refs + [0], y.waiting + [0])
  }

  function SysCreate(y: Sys, owner: Option<nat>, dead: bool, mem: bool): Sys {
    var (t, r) := Create(y.t, owner, dead, mem);
    if r.None? then y.(t := t) else Grow(y, t)
  }

  function SysClaim(y: Sys, owner: Option<nat>, id: nat, dead: bool, mem: bool): Sys
    requires forall i | 0 <= i < |y.t.list| :: y.t.list[i] < |y.t.eps|
  {
    var (t, r) := CreateWellKnown(y.t, owner, id, dead, mem);
    if r.None? then y.(t := t) else Grow(y, t)
  }

  function SysGet(y: Sys, id: nat): Sys
    requires |y.t.eps| == |y.refs|
    requires forall i | 0 <= i < |y.t.list| :: y.t.list[i] < |y.t.eps|
  {
    var (t, r) := Get(y.t, id);
    if r.None? then y else y.(t := t, refs := y.refs[r.value := y.refs[r.value] + 1])
  }

  function SysPut(y: Sys, p: nat): Sys
    requires p < |y.t.eps| == |y.refs| && y.refs[p] > 0
  {
    y.(t := Put(y.t, p), refs := y.refs[p := y.refs[p] - 1])
  }

  /** Destroying wakes every waiter; each keeps its reference until it returns. */
  function SysDestroy(y: Sys, p: nat): Sys
    requires p < |y.t.eps| == |y.waiting|
  {
    y.(t := Destroy(y.t, p), waiting := if y.t.eps[p].dead then y.waiting else y.waiting[p := 0])
  }

  /** Take a reference to the first owned endpoint and unlink it from its owner. */
  function SysPin(y: Sys, o: nat): Sys
    requires o < |y.t.owned| && y.t.owned[o] != [] && y.t.owned[o][0] < |y.t.eps| == |y.refs|
  {
    var p := y.t.owned[o][0];
    var t := Retain(y.t, p);
    y.(t := t.(owned := t.owned[o := t.owned[o][1..]]), refs := y.refs[p := y.refs[p] + 1])
  }

  // ---------------------------------------------------------------- proofs

  /** A new endpoint keeps the books exactly when its creation flags do not already say DEAD. */
  lemma PublishInv(y: Sys, owner: Option<nat>, id: nat, next: nat, dead: bool)
    requires Inv(y)
    ensures Inv(Grow(y, Publish(y.t.(next := next), owner, id, dead))) <==> !dead
  {
    var z := Grow(y, Publish(y.t.(next := next), owner, id, dead));
    var n := |y.t.eps|;
    assert !z.t.eps[n].listed <==> false;
    if dead {
      assert !CountOk(z, n);
    } else {
      PublishLive(y, z, owner);
    }
  }

  lemma PublishLive(y: Sys, z: Sys, owner: Option<nat>)
    requires Inv(y) && exists id, next :: z == Grow(y, Publish(y.t.(next := next), owner, id, false))
    ensures Inv(z)
  {
    var n := |y.t.eps|;
    forall p | 0 <= p < |z.t.eps| ensures CountOk(z, p) && (z.t.eps[p].listed <==> p in z.t.list) {
      if p < n { assert CountOk(y, p); }
      assert p in z.t.list <==> p == n || p in y.t.list;
    }
    forall o, i | 0 <= o < |z.t.owned| && 0 <= i < |z.t.owned[o]|
      ensures z.t.owned[o][i] < |z.t.eps| && z.t.eps[z.t.owned[o][i]].owner == Some(o) && z.t.eps[z.t.owned[o][i]].listed
    {
      if i < |y.t.owned[o]| { assert y.t.owned[o][i] < n; }
    }
  }

  lemma RefInv(y: Sys, p: nat, d: int)
    requires Inv(y) && p < |y.t.eps| && (d == 1 || d == -1) && y.refs[p] + d >= y.waiting[p]
    requires d == 1 ==> !y.t.eps[p].freed
    ensures d == 1 ==> Inv(y.(t := Retain(y.t, p), refs := y.refs[p := y.refs[p] + 1]))
    ensures d == -1 ==> Inv(SysPut(y, p))
  {
    var z := if d == 1 then y.(t := Retain(y.t, p), refs := y.refs[p := y.refs[p] + 1]) else SysPut(y, p);
    forall q | 0 <= q < |z.t.eps| ensures CountOk(z, q) && (z.t.eps[q].listed <==> q in z.t.list) {
      assert CountOk(y, q);
    }
  }

  lemma WaitInv(y: Sys, p: nat, n: nat)
    requires Inv(y) && p < |y.t.eps| && n <= y.refs[p] && (y.t.eps[p].dead ==> n == 0)
    ensures Inv(y.(waiting := y.waiting[p := n]))
  {
    var z := y.(waiting := y.waiting[p := n]);
    forall q | 0 <= q < |z.t.eps| ensures CountOk(z, q) && (z.t.eps[q].listed <==> q in z.t.list) {
      assert CountOk(y, q);
    }
  }

  lemma OwnedOnce(y: Sys, p: nat, o: nat)
    requires Inv(y) && o < |y.t.owned| && p in y.t.owned[o]
    ensures p < |y.t.eps| && y.t.eps[p].owner == Some(o) && y.t.eps[p].listed
  {
    var i :| 0 <= i < |y.t.owned[o]| && y.t.owned[o][i] == p;
  }

  lemma DestroyLists(y: Sys, p: nat)
    requires Inv(y) && p < |y.t.eps|
    ensures forall o | 0 <= o < |y.t.owned| :: Destroy(y.t, p).owned[o] == Drop(y.t.owned[o], p)
    ensures Destroy(y.t, p).list == Drop(y.t.list, p)
    ensures |Destroy(y.t, p).owned| == |y.t.owned|
  {
    assert CountOk(y, p);
    DropSpec(y.t.list, p);
    forall o | 0 <= o < |y.t.owned| ensures Destroy(y.t, p).owned[o] == Drop(y.t.owned[o], p) {
      DropSpec(y.t.owned[o], p);
      if p in y.t.owned[o] { OwnedOnce(y, p, o); }
    }
  }

  /** Destroying an endpoint keeps the books, whoever holds references. */
  lemma DestroyInv(y: Sys, p: nat)
    requires Inv(y) && p < |y.t.eps|
    ensures Inv(SysDestroy(y, p))
    ensures SysDestroy(y, p).t.eps[p].dead
  {
    hide Drop;
    var z := SysDestroy(y, p);
    DestroyLists(y, p);
    DropSpec(y.t.list, p);
    assert CountOk(y, p);
    forall q | 0 <= q < |z.t.eps| ensures CountOk(z, q) && (z.t.eps[q].listed <==> q in z.t.list) {
      assert CountOk(y, q);
    }
    forall o | 0 <= o < |z.t.owned| ensures NoDup(z.t.owned[o]) {
      DropSpec(y.t.owned[o], p);
    }
    forall o, i | 0 <= o < |z.t.owned| && 0 <= i < |z.t.owned[o]|
      ensures z.t.owned[o][i] < |z.t.eps| && z.t.eps[z.t.owned[o][i]].owner == Some(o) && z.t.eps[z.t.owned[o][i]].listed
    {
      DropSpec(y.t.owned[o], p);
      OwnedOnce(y, z.t.owned[o][i], o);
    }
    forall i | 0 <= i < |z.t.list| ensures z.t.list[i] < |z.t.eps| {
      assert z.t.list[i] in y.t.list;
    }
  }

  lemma PinInv(y: Sys, o: nat)
    requires Inv(y) && o < |y.t.owned| && y.t.owned[o] != []
    ensures y.t.owned[o][0] < |y.t.eps|
    ensures Inv(SysPin(y, o))
  {
    var p := y.t.owned[o][0];
    assert CountOk(y, p);
    var z := SysPin(y, o);
    forall q | 0 <= q < |z.t.eps| ensures CountOk(z, q) && (z.t.eps[q].listed <==> q in z.t.list) {
      assert CountOk(y, q);
    }
    forall u, i | 0 <= u < |z.t.owned| && 0 <= i < |z.t.owned[u]|
      ensures z.t.owned[u][i] < |z.t.eps| && z.t.eps[z.t.owned[u][i]].owner == Some(u) && z.t.eps[z.t.owned[u][i]].listed
    {
      assert z.t.owned[u][i] in y.t.owned[u];
      OwnedOnce(y, z.t.owned[u][i], u);
    }
  }
}
