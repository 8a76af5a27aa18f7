/**
 The list of memory areas of an address space (kernel/mm/vmm.c) against the map
 from addresses to flags, and the user range check built on it
 (kernel/mm/uaccess.c).
 */
module Vma {

  import opened Common

  const U64: nat := 0x1_0000_0000_0000_0000
  const USER_SPACE_END: nat := 0x7FFF_FFFF_FFFF

  datatype VFlags = VFlags(read: bool, write: bool, exec: bool, rest: nat)

  datatype Area = Area(start: nat, end: nat, flags: VFlags)

  /** Sorted, disjoint, and every area non-empty. */
  predicate Ok(q: seq<Area>) {
    && (forall i | 0 <= i < |q| :: q[i].start < q[i].end)
    && (forall i, j | 0 <= i < j < |q| :: q[i].end <= q[j].start)
  }

  predicate Has(v: Area, a: nat) {
    v.start <= a < v.end
  }

  /** The address-to-flags map that the list stands for. */
  function FlagsAt(q: seq<Area>, a: nat): Option<VFlags> {
    if q == [] then None else if Has(q[0], a) then Some(q[0].flags) else FlagsAt(q[1..], a)
  }

  lemma {:induction false} FlagsAtIff(q: seq<Area>, a: nat)
    requires Ok(q)
    ensures FlagsAt(q, a).None? <==> forall i | 0 <= i < |q| :: !Has(q[i], a)
    ensures forall i | 0 <= i < |q| && Has(q[i], a) :: FlagsAt(q, a) == Some(q[i].flags)
  {
    if q != [] {
      FlagsAtIff(q[1..], a);
      assert q == [q[0]] + q[1..];
    }
  }

  lemma {:induction false} FlagsAtConcat(p: seq<Area>, q: seq<Area>, a: nat)
    ensures FlagsAt(p + q, a) == if FlagsAt(p, a).Some? then FlagsAt(p, a) else FlagsAt(q, a)
  {
    if p == [] {
      assert p + q == q;
    } else {
      assert (p + q)[1..] == p[1..] + q;
      FlagsAtConcat(p[1..], q, a);
    }
  }

  lemma {:induction false} FlagsAtBelow(q: seq<Area>, a: nat)
    requires Ok(q) && (q != [] ==> a < q[0].start)
    ensures FlagsAt(q, a) == None
  {
    FlagsAtIff(q, a);
  }

  // ---------------------------------------------------------------- lookups

  /** `vmm_find_vma`: stops at the first area above the address. */
  function Find(q: seq<Area>, a: nat): Option<nat> {
    if q == [] then None
    else if Has(q[0], a) then Some(0)
    else if a < q[0].start then None
    else var r := Find(q[1..], a); if r.None? then None else Some(r.value + 1)
  }

  /** Stopping early loses nothing on a sorted list. */
  lemma {:induction false} FindSpec(q: seq<Area>, a: nat)
    requires Ok(q)
    ensures Find(q, a).Some? ==> Find(q, a).value < |q| && Has(q[Find(q, a).value], a)
    ensures Find(q, a).Some? ==> FlagsAt(q, a) == Some(q[Find(q, a).value].flags)
    ensures Find(q, a).None? <==> FlagsAt(q, a).None?
  {
    if q != [] {
      if Has(q[0], a) {
      } else if a < q[0].start {
        FlagsAtBelow(q, a);
      } else {
        FindSpec(q[1..], a);
      }
    }
  }

  predicate Meets(v: Area, lo: nat, hi: nat) {
    v.start < hi && v.end > lo
  }

  /** `vma_find_intersect`. */
  function Intersect(q: seq<Area>, lo: nat, hi: nat): bool {
    if q == [] then false
    else if Meets(q[0], lo, hi) then true
    else if q[0].start >= hi then false
    else Intersect(q[1..], lo, hi)
  }

  /** The early exit agrees with asking every area. */
  lemma {:induction false} IntersectIff(q: seq<Area>, lo: nat, hi: nat)
    requires Ok(q)
    ensures Intersect(q, lo, hi) <==> exists i :: 0 <= i < |q| && Meets(q[i], lo, hi)
  {
    if q != [] {
      assert q == [q[0]] + q[1..];
      IntersectIff(q[1..], lo, hi);
      if Intersect(q[1..], lo, hi) {
        var i :| 0 <= i < |q[1..]| && Meets(q[1..][i], lo, hi);
        assert Meets(q[i + 1], lo, hi);
      }
    }
  }

  /** For a non-empty range it agrees with asking every address. */
  lemma IntersectAddresses(q: seq<Area>, lo: nat, hi: nat)
    requires Ok(q) && lo < hi
    ensures Intersect(q, lo, hi) <==> exists a :: lo <= a < hi && FlagsAt(q, a).Some?
  {
    IntersectIff(q, lo, hi);
    if Intersect(q, lo, hi) {
      var i :| 0 <= i < |q| && Meets(q[i], lo, hi);
      var a := Max(q[i].start, lo);
      FlagsAtIff(q, a);
      assert Has(q[i], a) && FlagsAt(q, a).Some?;
    }
    forall a | lo <= a < hi && FlagsAt(q, a).Some? ensures Intersect(q, lo, hi) {
      FlagsAtIff(q, a);
      var i :| 0 <= i < |q| && Has(q[i], a);
      assert Meets(q[i], lo, hi);
    }
  }

  // --------------------------------------------------------------- insertion

  /** `vma_insert`: before the first area that starts later. */
  function Insert(q: seq<Area>, v: Area): seq<Area> {
    if q == [] then [v]
    else if v.start < q[0].start then [v] + q
    else [q[0]] + Insert(q[1..], v)
  }

  lemma {:induction false} InsertHas(q: seq<Area>, v: Area, x: Area)
    ensures x in Insert(q, v) <==> x in q || x == v
    ensures |Insert(q, v)| == |q| + 1
  {
    if q != [] && !(v.start < q[0].start) {
      assert q == [q[0]] + q[1..];
      InsertHas(q[1..], v, x);
    }
  }

  lemma {:induction false} InsertOk(q: seq<Area>, v: Area)
    requires Ok(q) && !Intersect(q, v.start, v.end) && v.start < v.end
    ensures Ok(Insert(q, v))
  {
    IntersectIff(q, v.start, v.end);
    if q != [] && !(v.start < q[0].start) {
      assert q == [q[0]] + q[1..];
      assert !Meets(q[0], v.start, v.end);
      IntersectIff(q[1..], v.start, v.end);
      forall i | 0 <= i < |q[1..]| ensures !Meets(q[1..][i], v.start, v.end) { assert q[1..][i] == q[i + 1]; }
      InsertOk(q[1..], v);
      var r := Insert(q[1..], v);
      forall i | 0 <= i < |r| ensures q[0].end <= r[i].start {
        InsertHas(q[1..], v, r[i]);
      }
    } else if q != [] {
      assert !Meets(q[0], v.start, v.end);
    }
  }

  /** A region that meets no area adds exactly its own addresses. */
  lemma {:induction false} InsertFlags(q: seq<Area>, v: Area, a: nat)
    requires Ok(q) && !Intersect(q, v.start, v.end)
    ensures FlagsAt(Insert(q, v), a) == if Has(v, a) then Some(v.flags) else FlagsAt(q, a)
  {
    IntersectIff(q, v.start, v.end);
    if q != [] && !(v.start < q[0].start) {
      assert q == [q[0]] + q[1..];
      assert !Meets(q[0], v.start, v.end);
      IntersectIff(q[1..], v.start, v.end);
      forall i | 0 <= i < |q[1..]| ensures !Meets(q[1..][i], v.start, v.end) { assert q[1..][i] == q[i + 1]; }
      InsertFlags(q[1..], v, a);
    }
  }

  /** `vmm_map_region`'s list part keeps the list well formed exactly when the region is not empty and does not wrap. */
  lemma InsertOkIff(q: seq<Area>, v: Area)
    requires Ok(q) && !Intersect(q, v.start, v.end)
    ensures Ok(Insert(q, v)) <==> v.start < v.end
  {
    if v.start < v.end {
      InsertOk(q, v);
    } else {
      InsertHas(q, v, v);
    }
  }

  // ---------------------------------------------------------------- removal

  /** What is left of one overlapping area; `mem` says whether a split can allocate its second half. */
  function Pieces(v: Area, lo: nat, hi: nat, mem: bool): seq<Area> {
    var us := Max(v.start, lo);
    var ue := Min(v.end, hi);
    if us == v.start && ue == v.end then []
    else if us == v.start then [v.(start := ue)]
    else if ue == v.end then [v.(end := us)]
    else if mem then [v.(end := us), v.(start := ue)]
    else [v]
  }

  /** The list walk of `vmm_unmap_region`. */
  function Remove(q: seq<Area>, lo: nat, hi: nat, mem: bool): seq<Area> {
    if q == [] || q[0].start >= hi then q
    else if q[0].end <= lo then [q[0]] + Remove(q[1..], lo, hi, mem)
    else Pieces(q[0], lo, hi, mem) + Remove(q[1..], lo, hi, mem)
  }

  /** Some area sticks out of the range on both sides. */
  predicate Spans(v: Area, lo: nat, hi: nat) {
    v.start < lo && hi < v.end
  }

  lemma PiecesOk(v: Area, lo: nat, hi: nat, mem: bool)
    requires v.start < v.end && lo <= hi && Meets(v, lo, hi)
    ensures Ok(Pieces(v, lo, hi, mem))
    ensures forall p | p in Pieces(v, lo, hi, mem) :: v.start <= p.start && p.end <= v.end
  {
  }

  lemma {:induction false} RemoveWithin(q: seq<Area>, lo: nat, hi: nat, mem: bool)
    requires Ok(q) && lo <= hi
    ensures Ok(Remove(q, lo, hi, mem))
    ensures forall x | x in Remove(q, lo, hi, mem) :: q != [] && q[0].start <= x.start
  {
    hide Pieces;
    if q != [] && q[0].start < hi {
      var r := Remove(q[1..], lo, hi, mem);
      RemoveWithin(q[1..], lo, hi, mem);
      if q[0].end > lo { PiecesOk(q[0], lo, hi, mem); }
      var p := if q[0].end <= lo then [q[0]] else Pieces(q[0], lo, hi, mem);
      forall i, j | 0 <= i < |p| && 0 <= j < |r| ensures p[i].end <= r[j].start {
        assert p[i] in p && r[j] in r && q[0].end <= q[1].start;
      }
      OkConcat(p, r);
    }
  }

  lemma OkConcat(p: seq<Area>, r: seq<Area>)
    requires Ok(p) && Ok(r) && forall i, j | 0 <= i < |p| && 0 <= j < |r| :: p[i].end <= r[j].start
    ensures Ok(p + r)
  {
  }

  predicate InRange(lo: nat, hi: nat, a: nat) {
    lo <= a < hi
  }

  lemma PiecesFlags(v: Area, lo: nat, hi: nat, mem: bool, a: nat)
    requires v.start < v.end && lo <= hi && Meets(v, lo, hi) && (mem || !Spans(v, lo, hi))
    ensures FlagsAt(Pieces(v, lo, hi, mem), a) == if InRange(lo, hi, a) || !Has(v, a) then None else Some(v.flags)
  {
    var p := Pieces(v, lo, hi, mem);
    if |p| == 2 {
      assert p == [p[0]] + [p[1]];
      FlagsAtConcat([p[0]], [p[1]], a);
    }
    forall x: Area ensures FlagsAt([x], a) == if Has(x, a) then Some(x.flags) else None {
      assert [x][1..] == [];
    }
  }

  /** Unmapping is restriction of the address map to outside the range. */
  lemma {:induction false} RemoveFlags(q: seq<Area>, lo: nat, hi: nat, mem: bool, a: nat)
    requires Ok(q) && lo <= hi && (mem || forall i | 0 <= i < |q| :: !Spans(q[i], lo, hi))
    ensures FlagsAt(Remove(q, lo, hi, mem), a) == if InRange(lo, hi, a) then None else FlagsAt(q, a)
  {
    if q == [] {
    } else if q[0].start >= hi {
      if a < hi { FlagsAtBelow(q, a); }
    } else {
      assert q == [q[0]] + q[1..];
      forall i | 0 <= i < |q[1..]| ensures !mem ==> !Spans(q[1..][i], lo, hi) { assert q[1..][i] == q[i + 1]; }
      RemoveFlags(q[1..], lo, hi, mem, a);
      if q[0].end > lo {
        PiecesFlags(q[0], lo, hi, mem, a);
        FlagsAtConcat(Pieces(q[0], lo, hi, mem), Remove(q[1..], lo, hi, mem), a);
      }
    }
  }

  /** An area that spans the range and cannot be split stays whole. */
  lemma {:induction false} RemoveKeepsSpanning(q: seq<Area>, lo: nat, hi: nat, i: nat)
    requires Ok(q) && lo <= hi && i < |q| && Spans(q[i], lo, hi)
    ensures q[i] in Remove(q, lo, hi, false)
  {
    if i == 0 {
      assert Pieces(q[0], lo, hi, false) == [q[0]];
    } else {
      assert q[0].end <= q[i].start;
      RemoveKeepsSpanning(q[1..], lo, hi, i - 1);
    }
  }

  /**
   The list stays sorted, disjoint and non-empty per area; and a non-empty unmap
   makes the address map exactly the old one outside the range if and only if the
   split it may need can be allocated.
   */
  lemma RemoveSpec(q: seq<Area>, lo: nat, hi: nat, mem: bool)
    requires Ok(q) && lo < hi
    ensures Ok(Remove(q, lo, hi, mem))
    ensures (forall a :: FlagsAt(Remove(q, lo, hi, mem), a) == if InRange(lo, hi, a) then None else FlagsAt(q, a))
            <==> (mem || forall i | 0 <= i < |q| :: !Spans(q[i], lo, hi))
  {
    RemoveWithin(q, lo, hi, mem);
    if mem || forall i | 0 <= i < |q| :: !Spans(q[i], lo, hi) {
      forall a ensures FlagsAt(Remove(q, lo, hi, mem), a) == if InRange(lo, hi, a) then None else FlagsAt(q, a) {
        RemoveFlags(q, lo, hi, mem, a);
      }
    } else {
      var i :| 0 <= i < |q| && Spans(q[i], lo, hi);
      RemoveKeepsSpanning(q, lo, hi, i);
      FlagsAtIff(Remove(q, lo, hi, mem), lo);
      var r := Remove(q, lo, hi, mem);
      var j :| 0 <= j < |r| && r[j] == q[i];
      assert Has(r[j], lo);
      assert InRange(lo, hi, lo) && FlagsAt(r, lo).Some?;
    }
  }

  /** A hole in the middle of an area, when the second half cannot be allocated: the area stays whole. */
  lemma RefusedSplit(f: VFlags)
    ensures var q := [Area(0, 0x3000, f)];
      Ok(q) && Remove(q, 0x1000, 0x2000, false) == q && FlagsAt(q, 0x1000) == Some(f)
  {
    var q := [Area(0, 0x3000, f)];
    assert q[1..] == [];
    assert Remove(q, 0x1000, 0x2000, false) == Pieces(q[0], 0x1000, 0x2000, false) + [];
  }

  /** An empty range removes nothing, though it may cut an area in two. */
  lemma RemoveEmpty(q: seq<Area>, lo: nat, mem: bool, a: nat)
    requires Ok(q)
    ensures Ok(Remove(q, lo, lo, mem)) && FlagsAt(Remove(q, lo, lo, mem), a) == FlagsAt(q, a)
  {
    RemoveWithin(q, lo, lo, mem);
    if mem {
      RemoveFlags(q, lo, lo, mem, a);
    } else {
      RemoveNothing(q, lo);
    }
  }

  lemma {:induction false} RemoveNothing(q: seq<Area>, lo: nat)
    requires Ok(q)
    ensures Remove(q, lo, lo, false) == q
  {
    if q != [] && q[0].start < lo {
      assert q == [q[0]] + q[1..];
      RemoveNothing(q[1..], lo);
    }
  }

  /** The area covers everything between the wrapped end and the start. */
  predicate Backwards(v: Area, lo: nat, hi: nat) {
    v.start < hi && lo < v.end
  }

  /** A range whose end wraps below its start breaks the list exactly when an area spans it backwards and the split succeeds. */
  lemma {:induction false} RemoveWrapped(q: seq<Area>, lo: nat, hi: nat, mem: bool)
    requires Ok(q) && hi < lo
    ensures Ok(Remove(q, lo, hi, mem)) <==> !(mem && exists i :: 0 <= i < |q| && Backwards(q[i], lo, hi))
  {
    hide Ok;
    OkTail(q);
    if q != [] && q[0].start < hi {
      RemoveWrapped(q[1..], lo, hi, mem);
      if q[0].end > lo {
        assert Backwards(q[0], lo, hi);
        WrapRest(q, lo, hi, mem);
      } else {
        WrapKeepsFirst(q, lo, hi, mem);
        ExistsTail(q, lo, hi);
      }
    } else if q != [] {
      NoneBackwards(q, lo, hi);
    }
  }

  lemma OkTail(q: seq<Area>)
    requires Ok(q)
    ensures q != [] ==> Ok(q[1..])
  {
  }

  lemma NoneBackwards(q: seq<Area>, lo: nat, hi: nat)
    requires Ok(q) && q != [] && q[0].start >= hi
    ensures forall i | 0 <= i < |q| :: !Backwards(q[i], lo, hi)
  {
  }

  lemma ExistsTail(q: seq<Area>, lo: nat, hi: nat)
    requires q != [] && !Backwards(q[0], lo, hi)
    ensures (exists i :: 0 <= i < |q| && Backwards(q[i], lo, hi))
       <==> (exists i :: 0 <= i < |q[1..]| && Backwards(q[1..][i], lo, hi))
  {
    if i :| 0 <= i < |q| && Backwards(q[i], lo, hi) {
      assert Backwards(q[1..][i - 1], lo, hi);
    }
    if i :| 0 <= i < |q[1..]| && Backwards(q[1..][i], lo, hi) {
      assert Backwards(q[i + 1], lo, hi);
    }
  }

  lemma WrapRest(q: seq<Area>, lo: nat, hi: nat, mem: bool)
    requires Ok(q) && hi < lo && q != [] && q[0].start < hi && q[0].end > lo
    ensures Ok(Remove(q, lo, hi, mem)) <==> !mem
  {
    if |q| > 1 { assert q[0].end <= q[1].start; }
    assert Remove(q[1..], lo, hi, mem) == q[1..];
    var p := Pieces(q[0], lo, hi, mem);
    var z := p + q[1..];
    if mem {
      assert z[0] == p[0] && z[1] == p[1];
      assert !Ok(z);
    } else {
      assert z == q;
    }
  }

  lemma WrapKeepsFirst(q: seq<Area>, lo: nat, hi: nat, mem: bool)
    requires Ok(q) && hi < lo && q != [] && q[0].end <= lo
    ensures Ok([q[0]] + Remove(q[1..], lo, hi, mem)) <==> Ok(Remove(q[1..], lo, hi, mem))
  {
    var r := Remove(q[1..], lo, hi, mem);
    WrapStarts(q[1..], lo, hi, mem);
    if Ok(r) {
      forall i | 0 <= i < |r| ensures q[0].end <= r[i].start {
        assert q[1].start <= r[0].start;
      }
      OkConcat([q[0]], r);
    }
    if Ok([q[0]] + r) {
      assert r == ([q[0]] + r)[1..];
    }
  }

  lemma {:induction false} WrapStarts(q: seq<Area>, lo: nat, hi: nat, mem: bool)
    requires Ok(q) && hi < lo
    ensures |Remove(q, lo, hi, mem)| > 0 ==> q != [] && q[0].start <= Remove(q, lo, hi, mem)[0].start
    ensures q != [] ==> |Remove(q, lo, hi, mem)| > 0
  {
  }
}
