/**
 Capability spaces (kernel/ipc/capability.c): slots indexed by a bitmap, and
 capabilities inserted, copied, minted with fewer rights and deleted.

 Rights are the set of their bit numbers.  Beside the spaces the model keeps the
 derivation history: one node per capability ever made, naming the node it was
 derived from, and for each slot the node of the capability in it.
 */
module Caps {

  import opened Common

  const NONE: nat := 0
  const GRANT: nat := 2

  datatype Cap = Cap(typ: nat, rights: set<nat>, obj: nat, badge: nat, generation: nat, slot: nat)

  const EMPTY: Cap := Cap(NONE, {}, 0, 0, 0, 0)

  datatype Space = Space(slots: seq<Cap>, bits: seq<bool>, used: int, generation: nat)

  datatype Node = Node(parent: Option<nat>, typ: nat, rights: set<nat>, obj: nat)

  datatype Sys = Sys(spaces: seq<Space>, nodes: seq<Node>, at: seq<seq<nat>>)

  // ----------------------------------------------------------------- spaces

  function Count(bits: seq<bool>): nat {
    if bits == [] then 0 else (if bits[0] then 1 else 0) + Count(bits[1..])
  }

  lemma {:induction false} CountPut(bits: seq<bool>, i: nat, b: bool)
    requires i < |bits|
    ensures Count(bits[i := b]) == Count(bits) - (if bits[i] then 1 else 0) + (if b then 1 else 0)
  {
    if i == 0 {
      assert bits[0 := b][1..] == bits[1..];
    } else {
      assert bits[i := b][1..] == bits[1..][i - 1 := b];
      CountPut(bits[1..], i - 1, b);
    }
  }

  /** Bits mark exactly the occupied slots and `used` counts them. */
  predicate SpaceOk(c: Space) {
    && |c.bits| == |c.slots| && c.used == Count(c.bits)
    && forall i | 0 <= i < |c.slots| :: c.bits[i] <==> c.slots[i].typ != NONE
  }

  /** `cspace_find_free_slot`. */
  function FreeSlot(bits: seq<bool>): (r: Option<nat>)
    ensures r.Some? ==> r.value < |bits| && !bits[r.value] && forall i | 0 <= i < r.value :: bits[i]
    ensures r.None? ==> forall i | 0 <= i < |bits| :: bits[i]
  {
    if bits == [] then None
    else if !bits[0] then Some(0)
    else
      assert bits == [bits[0]] + bits[1..];
      var r := FreeSlot(bits[1..]); if r.None? then None else Some(r.value + 1)
  }

  /** Store a capability in a slot and mark the slot used. */
  function Put(c: Space, i: nat, cap: Cap): Space
    requires i < |c.slots| == |c.bits|
  {
    c.(slots := c.slots[i := cap.(slot := i, generation := c.generation)], bits := c.bits[i := true], used := c.used + 1)
  }

  function Clear(c: Space, i: nat): Space
    requires i < |c.slots| == |c.bits|
  {
    c.(slots := c.slots[i := EMPTY], bits := c.bits[i := false], used := c.used - 1)
  }

  /** A capability put into a free slot keeps the books exactly when it has a type. */
  lemma PutOkIff(c: Space, i: nat, cap: Cap)
    requires SpaceOk(c) && i < |c.slots| && !c.bits[i]
    ensures SpaceOk(Put(c, i, cap)) <==> cap.typ != NONE
  {
    CountPut(c.bits, i, true);
    var z := Put(c, i, cap);
    assert z.bits[i] && z.slots[i].typ == cap.typ;
  }

  lemma ClearOk(c: Space, i: nat)
    requires SpaceOk(c) && i < |c.slots| && c.slots[i].typ != NONE
    ensures SpaceOk(Clear(c, i))
  {
    CountPut(c.bits, i, false);
  }

  // ------------------------------------------------------------------ steps

  predicate Shape(y: Sys) {
    && |y.at| == |y.spaces|
    && forall s | 0 <= s < |y.spaces| :: |y.at[s]| == |y.spaces[s].slots| == |y.spaces[s].bits|
  }

  /** Put a capability with its history node into slot `i` of space `s`. */
  function Place(y: Sys, s: nat, i: nat, cap: Cap, parent: Option<nat>): Sys
    requires Shape(y) && s < |y.spaces| && i < |y.spaces[s].slots|
  {
    var row: seq<nat> := y.at[s][i := |y.nodes|];
    Sys(y.spaces[s := Put(y.spaces[s], i, cap)],
        y.nodes + [Node(parent, cap.typ, cap.rights, cap.obj)],
        y.at[s := row])
  }

  /** `cap_insert`. */
  function Insert(y: Sys, s: nat, cap: Cap): (Sys, Option<nat>)
    requires Shape(y) && s < |y.spaces|
  {
    var f := FreeSlot(y.spaces[s].bits);
    if f.None? then (y, None) else (Place(y, s, f.value, cap, None), f)
  }

  /** `cap_delete`. */
  function Delete(y: Sys, s: nat, i: nat): (Sys, bool)
    requires Shape(y) && s < |y.spaces|
  {
    if i >= |y.spaces[s].slots| || y.spaces[s].slots[i].typ == NONE then (y, false)
    else (y.(spaces := y.spaces[s := Clear(y.spaces[s], i)]), true)
  }

  /** The destination slot: a given empty one, or the first free one. */
  function Target(c: Space, want: Option<nat>): Option<nat>
    requires |c.bits| == |c.slots|
  {
    if want.None? then FreeSlot(c.bits)
    else if want.value >= |c.slots| || c.slots[want.value].typ != NONE then None
    else want
  }

  /** Where a copy goes and what it is, unless the source is empty or cannot grant, or there is no room. */
  function Derived(d: Space, want: Option<nat>, s: Space, i: nat, mint: Option<(set<nat>, nat)>): Option<(nat, Cap)>
    requires |d.bits| == |d.slots|
  {
    if i >= |s.slots| || s.slots[i].typ == NONE || GRANT !in s.slots[i].rights then None
    else
      var t := Target(d, want);
      var src := s.slots[i];
      if t.None? then None
      else Some((t.value, if mint.None? then src else src.(rights := src.rights * mint.value.0, badge := mint.value.1)))
  }

  /** `cap_copy` (no mint) and `cap_mint` (the rights asked for and a badge). */
  function Derive(y: Sys, d: nat, want: Option<nat>, s: nat, i: nat, mint: Option<(set<nat>, nat)>): (Sys, Option<nat>)
    requires Shape(y) && s < |y.spaces| && d < |y.spaces|
  {
    var r := Derived(y.spaces[d], want, y.spaces[s], i, mint);
    if r.None? then (y, None) else (Place(y, d, r.value.0, r.value.1, Some(y.at[s][i])), Some(r.value.0))
  }

  // -------------------------------------------------------------- invariant

  /** A derived capability names the same object, has no right its parent lacks, and its parent could grant. */
  predicate NodeOk(nodes: seq<Node>, n: nat)
    requires n < |nodes|
  {
    nodes[n].parent.None? ||
    (var p := nodes[n].parent.value;
     && p < n && nodes[n].typ == nodes[p].typ && nodes[n].obj == nodes[p].obj
     && nodes[n].rights <= nodes[p].rights && GRANT in nodes[p].rights)
  }

  /** An occupied slot holds the capability its node describes. */
  predicate SlotOk(y: Sys, s: nat, i: nat)
    requires Shape(y) && s < |y.spaces| && i < |y.spaces[s].slots|
  {
    var c := y.spaces[s].slots[i];
    c.typ != NONE ==>
      y.at[s][i] < |y.nodes| &&
      y.nodes[y.at[s][i]].typ == c.typ && y.nodes[y.at[s][i]].rights == c.rights && y.nodes[y.at[s][i]].obj == c.obj
  }

  ghost predicate Inv(y: Sys) {
    && Shape(y)
    && (forall s | 0 <= s < |y.spaces| :: SpaceOk(y.spaces[s]))
    && (forall n | 0 <= n < |y.nodes| :: NodeOk(y.nodes, n))
    && (forall s, i | 0 <= s < |y.spaces| && 0 <= i < |y.spaces[s].slots| :: SlotOk(y, s, i))
  }

  lemma PlaceInv(y: Sys, s: nat, i: nat, cap: Cap, parent: Option<nat>)
    requires Inv(y) && s < |y.spaces| && i < |y.spaces[s].slots| && !y.spaces[s].bits[i] && cap.typ != NONE
    requires parent.Some? ==>
      && parent.value < |y.nodes| && cap.typ == y.nodes[parent.value].typ && cap.obj == y.nodes[parent.value].obj
      && cap.rights <= y.nodes[parent.value].rights && GRANT in y.nodes[parent.value].rights
    ensures Inv(Place(y, s, i, cap, parent))
  {
    hide Count;
    var z := Place(y, s, i, cap, parent);
    PutOkIff(y.spaces[s], i, cap);
    forall n | 0 <= n < |z.nodes| ensures NodeOk(z.nodes, n) {
      if n < |y.nodes| { assert NodeOk(y.nodes, n); }
    }
    forall t, j | 0 <= t < |z.spaces| && 0 <= j < |z.spaces[t].slots| ensures SlotOk(z, t, j) {
      if t != s || j != i { assert SlotOk(y, t, j); }
    }
  }

  lemma InsertInv(y: Sys, s: nat, cap: Cap)
    requires Inv(y) && s < |y.spaces| && cap.typ != NONE
    ensures Inv(Insert(y, s, cap).0)
  {
    var f := FreeSlot(y.spaces[s].bits);
    assert SpaceOk(y.spaces[s]);
    if f.Some? { PlaceInv(y, s, f.value, cap, None); }
  }

  lemma DeleteInv(y: Sys, s: nat, i: nat)
    requires Inv(y) && s < |y.spaces|
    ensures Inv(Delete(y, s, i).0)
  {
    hide Count;
    var (z, ok) := Delete(y, s, i);
    if ok {
      assert SpaceOk(y.spaces[s]);
      ClearOk(y.spaces[s], i);
      forall t, j | 0 <= t < |z.spaces| && 0 <= j < |z.spaces[t].slots| ensures SlotOk(z, t, j) {
        assert SlotOk(y, t, j);
      }
    }
  }

  lemma DeriveInv(y: Sys, d: nat, want: Option<nat>, s: nat, i: nat, mint: Option<(set<nat>, nat)>)
    requires Inv(y) && s < |y.spaces| && d < |y.spaces|
    ensures Inv(Derive(y, d, want, s, i, mint).0)
  {
    hide Count, Place;
    var (z, t) := Derive(y, d, want, s, i, mint);
    assert SpaceOk(y.spaces[d]) && SpaceOk(y.spaces[s]);
    if t.Some? {
      assert SlotOk(y, s, i);
      var src := y.spaces[s].slots[i];
      var cap := if mint.None? then src else src.(rights := src.rights * mint.value.0, badge := mint.value.1);
      PlaceInv(y, d, t.value, cap, Some(y.at[s][i]));
    }
  }

  // ------------------------------------------------------------------- runs

  datatype Op =
    | OInsert(s: nat, cap: Cap)
    | ODelete(s: nat, i: nat)
    | OCopy(d: nat, want: Option<nat>, s: nat, i: nat)
    | OMint(d: nat, want: Option<nat>, s: nat, i: nat, rights: set<nat>, badge: nat)

  predicate Legal(y: Sys, op: Op) {
    op.s < |y.spaces| && (op.OInsert? ==> op.cap.typ != NONE) && (op.OCopy? || op.OMint? ==> op.d < |y.spaces|)
  }

  function Step(y: Sys, op: Op): Sys
    requires Shape(y) && Legal(y, op)
  {
    match op
    case OInsert(s, cap) => Insert(y, s, cap).0
    case ODelete(s, i) => Delete(y, s, i).0
    case OCopy(d, want, s, i) => Derive(y, d, want, s, i, None).0
    case OMint(d, want, s, i, rights, badge) => Derive(y, d, want, s, i, Some((rights, badge))).0
  }

  lemma StepInv(y: Sys, op: Op)
    requires Inv(y) && Legal(y, op)
    ensures Inv(Step(y, op)) && |Step(y, op).spaces| == |y.spaces|
  {
    hide Inv, SpaceOk;
    ShapeOf(y);
    match op
    case OInsert(s, cap) => InsertInv(y, s, cap);
    case ODelete(s, i) => DeleteInv(y, s, i);
    case OCopy(d, want, s, i) => DeriveInv(y, d, want, s, i, None);
    case OMint(d, want, s, i, rights, badge) => DeriveInv(y, d, want, s, i, Some((rights, badge)));
  }

  lemma ShapeOf(y: Sys)
    requires Inv(y)
    ensures Shape(y)
  {
  }

  ghost predicate LegalRun(y: Sys, run: seq<Op>)
    requires Inv(y)
    decreases |run|
  {
    run == [] || (Legal(y, run[0]) && (StepInv(y, run[0]); LegalRun(Step(y, run[0]), run[1..])))
  }

  ghost function Run(y: Sys, run: seq<Op>): Sys
    requires Inv(y) && LegalRun(y, run)
    decreases |run|
  {
    if run == [] then y else StepInv(y, run[0]); Run(Step(y, run[0]), run[1..])
  }

  /** Empty spaces of any sizes, and no history. */
  function Boot(sizes: seq<nat>): Sys {
    Sys(seq(|sizes|, s requires 0 <= s < |sizes| => Space(seq(sizes[s], _ => EMPTY), seq(sizes[s], _ => false), 0, 1)),
        [], seq(|sizes|, s requires 0 <= s < |sizes| => seq(sizes[s], _ => 0)))
  }

  lemma {:induction false} CountNone(n: nat)
    ensures Count(seq(n, _ => false)) == 0
  {
    if n > 0 {
      assert seq(n, _ => false)[1..] == seq(n - 1, _ => false);
      CountNone(n - 1);
    }
  }

  lemma BootInv(sizes: seq<nat>)
    ensures Inv(Boot(sizes))
  {
    forall s | 0 <= s < |sizes| ensures SpaceOk(Boot(sizes).spaces[s]) { CountNone(sizes[s]); }
  }

  /** The inserted capability a node goes back to. */
  function RootOf(nodes: seq<Node>, n: nat): (r: nat)
    requires n < |nodes| && forall k | 0 <= k < |nodes| :: NodeOk(nodes, k)
    ensures r < |nodes| && nodes[r].parent.None?
    decreases n
  {
    assert NodeOk(nodes, n);
    if nodes[n].parent.None? then n else RootOf(nodes, nodes[n].parent.value)
  }

  /** Down a chain of derivations rights only shrink, the object stays, and whoever was derived from could grant. */
  lemma {:induction false} Descent(nodes: seq<Node>, n: nat)
    requires n < |nodes| && forall k | 0 <= k < |nodes| :: NodeOk(nodes, k)
    ensures var r := nodes[RootOf(nodes, n)];
      && nodes[n].rights <= r.rights && nodes[n].obj == r.obj && nodes[n].typ == r.typ
      && (nodes[n].parent.Some? ==> GRANT in r.rights)
    decreases n
  {
    assert NodeOk(nodes, n);
    if nodes[n].parent.Some? { Descent(nodes, nodes[n].parent.value); }
  }

  /**
   After any sequence of inserts, copies, mints and deletes over any number of spaces:
   the bitmap marks exactly the occupied slots and `used` is their number; and every
   capability's rights are a subset of those of the inserted capability it goes back
   to, for the same object, with every step of the derivation made from a capability
   that carried GRANT.
   */
  lemma {:induction false} RunInv(y: Sys, run: seq<Op>, s: nat, i: nat)
    requires Inv(y) && LegalRun(y, run)
    ensures var z := Run(y, run);
      && Inv(z)
      && (s < |z.spaces| ==> SpaceOk(z.spaces[s]) && |z.at[s]| == |z.spaces[s].slots|)
      && (s < |z.spaces| && i < |z.spaces[s].slots| && z.spaces[s].slots[i].typ != NONE ==>
           && z.at[s][i] < |z.nodes|
           && var c := z.spaces[s].slots[i]; var r := z.nodes[RootOf(z.nodes, z.at[s][i])];
              c.rights <= r.rights && c.obj == r.obj && c.typ == r.typ
              && (z.nodes[z.at[s][i]].parent.Some? ==> GRANT in r.rights))
    decreases |run|
  {
    hide Legal, Step, Count;
    if run == [] {
      if s < |y.spaces| && i < |y.spaces[s].slots| && y.spaces[s].slots[i].typ != NONE {
        assert SlotOk(y, s, i);
        Descent(y.nodes, y.at[s][i]);
      }
    } else {
      StepInv(y, run[0]);
      RunInv(Step(y, run[0]), run[1..], s, i);
    }
  }
}
