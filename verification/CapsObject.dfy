/**
 One capability space as the kernel keeps it (kernel/ipc/capability.c), with its
 slots and bitmap changed in place.
 */
module CapsObject {

  import opened Common
  import opened Caps

  /** Copy or mint at the level of two spaces, which may be the same one. */
  function DeriveInto(d: Space, want: Option<nat>, s: Space, i: nat, mint: Option<(set<nat>, nat)>): (Space, Option<nat>)
    requires |d.bits| == |d.slots|
  {
    var r := Derived(d, want, s, i, mint);
    if r.None? then (d, None) else (Put(d, r.value.0, r.value.1), Some(r.value.0))
  }

  /** It is what the history-keeping step does to the spaces. */
  lemma DeriveIsInto(y: Sys, d: nat, want: Option<nat>, s: nat, i: nat, mint: Option<(set<nat>, nat)>)
    requires Inv(y) && s < |y.spaces| && d < |y.spaces|
    ensures var (z, t) := Derive(y, d, want, s, i, mint);
      (z.spaces[d], t) == DeriveInto(y.spaces[d], want, y.spaces[s], i, mint)
      && |z.spaces| == |y.spaces| && forall k | 0 <= k < |y.spaces| && k != d :: z.spaces[k] == y.spaces[k]
  {
    hide Count;
    assert SpaceOk(y.spaces[d]) && SpaceOk(y.spaces[s]);
  }

  class Cspace {
    const slots: array<Cap>
    const bitmap: array<bool>
    var used: int
    var generation: nat

    ghost predicate Valid()
      reads this, slots, bitmap
    {
      slots.Length == bitmap.Length && SpaceOk(Value())
    }

    ghost function Value(): Space
      reads this, slots, bitmap
    {
      Space(slots[..], bitmap[..], used, generation)
    }

    /** `cspace_init`. */
    constructor (size: nat)
      ensures Valid() && fresh(slots) && fresh(bitmap) && Value() == Boot([size]).spaces[0]
    {
      slots := new Cap[size](_ => EMPTY);
      bitmap := new bool[size](_ => false);
      used, generation := 0, 1;
      new;
      assert slots[..] == seq(size, _ => EMPTY) && bitmap[..] == seq(size, _ => false);
      BootInv([size]);
      assert SpaceOk(Boot([size]).spaces[0]);
    }

    method FindFree() returns (r: Option<nat>)
      ensures r == FreeSlot(bitmap[..])
    {
      var i := 0;
      while i < bitmap.Length
        invariant 0 <= i <= bitmap.Length && forall j | 0 <= j < i :: bitmap[j]
      {
        if !bitmap[i] { return Some(i); }
        i := i + 1;
      }
      r := None;
    }

    /** Store into a slot and mark it used. */
    method Store(i: nat, cap: Cap)
      requires slots.Length == bitmap.Length && i < slots.Length
      modifies this`used, slots, bitmap
      ensures Value() == Put(old(Value()), i, cap)
    {
      slots[i] := cap.(slot := i, generation := generation);
      bitmap[i] := true;
      used := used + 1;
    }

    method InsertCap(cap: Cap) returns (r: Option<nat>)
      requires Valid() && cap.typ != NONE
      modifies this`used, slots, bitmap
      ensures Valid() && r == FreeSlot(old(bitmap[..]))
      ensures Value() == if r.None? then old(Value()) else Put(old(Value()), r.value, cap)
    {
      r := FindFree();
      if r.None? { return; }
      PutOkIff(Value(), r.value, cap);
      Store(r.value, cap);
    }

    method LookupCap(i: nat) returns (c: Option<Cap>)
      requires slots.Length == bitmap.Length
      ensures c == if i < slots.Length && slots[i].typ != NONE then Some(slots[i]) else None
    {
      if i >= slots.Length { return None; }
      if slots[i].typ == NONE { return None; }
      c := Some(slots[i]);
    }

    method DeleteCap(i: nat) returns (ok: bool)
      requires Valid()
      modifies this`used, slots, bitmap
      ensures Valid() && ok == (i < slots.Length && old(slots[..])[i].typ != NONE)
      ensures Value() == if ok then Clear(old(Value()), i) else old(Value())
    {
      if i >= slots.Length || slots[i].typ == NONE { return false; }
      ClearOk(Value(), i);
      slots[i] := EMPTY;
      bitmap[i] := false;
      used := used - 1;
      ok := true;
    }

    /** `cap_copy` and `cap_mint` into this space, from any space. */
    method DeriveFrom(want: Option<nat>, src: Cspace, i: nat, mint: Option<(set<nat>, nat)>) returns (r: Option<nat>)
      requires Valid() && src.Valid()
      modifies this`used, slots, bitmap
      ensures Valid() && (Value(), r) == DeriveInto(old(Value()), want, old(src.Value()), i, mint)
    {
      hide Count;
      if i >= src.slots.Length || src.slots[i].typ == NONE || GRANT !in src.slots[i].rights { return None; }
      var cap := src.slots[i];
      if mint.Some? { cap := cap.(rights := cap.rights * mint.value.0, badge := mint.value.1); }
      var t: nat;
      if want.None? {
        var f := FindFree();
        if f.None? { return None; }
        t := f.value;
      } else {
        if want.value >= slots.Length || slots[want.value].typ != NONE { return None; }
        t := want.value;
      }
      PutOkIff(Value(), t, cap);
      Store(t, cap);
      r := Some(t);
    }
  }
}
