/**
 Mapping a region (kernel/mm/vmm.c): a record for the area, then a zeroed frame for
 each page, all from one pool; how far that gets, and what a failure leaves behind.
 */
module VmRegions {

  import opened Paging
  import opened PagingOps
  import opened PagingNeed
  import opened VmPages
  import opened VmRecords
  import opened VmNeed
  import opened Vmm
  import opened VmSpaces
  import V = Vma

  // ------------------------------------------------------------- new records

  /** Where `vma_insert` links a new area in. */
  function Place(q: seq<V.Area>, v: V.Area): (i: nat)
    ensures i <= |q|
  {
    if q == [] || v.start < q[0].start then 0 else 1 + Place(q[1..], v)
  }

  lemma {:induction false} PlaceSpec(q: seq<V.Area>, v: V.Area)
    ensures V.Insert(q, v) == q[..Place(q, v)] + [v] + q[Place(q, v)..]
  {
    if q != [] && !(v.start < q[0].start) {
      PlaceSpec(q[1..], v);
      var i := Place(q[1..], v);
      assert q[..i + 1] == [q[0]] + q[1..][..i] && q[i + 1..] == q[1..][i..];
    }
  }

  /** The list with one area more, its record in frame `f`. */
  function AddRecord(p: Space, x: V.Area, f: nat): Space
    requires |p.recs| == |p.areas|
  {
    var i := Place(p.areas, x);
    Space(V.Insert(p.areas, x), p.recs[..i] + [f] + p.recs[i..], p.frame)
  }

  lemma AddRecordOk(m: Mem, R: set<nat>, p: Space, x: V.Area, f: nat)
    requires SpaceOk(m, R, p) && Off(m, R, f) && f !in Own(p)
    requires AreaOk(x) && x.start < x.end && !V.Intersect(p.areas, x.start, x.end)
    ensures var z := AddRecord(p, x, f); SpaceOk(m, R, z) && forall g :: g in Own(z) <==> g in Own(p) || g == f
  {
    hide Off, AreasOk, V.Insert, AreaOk, V.Intersect;
    InsertAreasOk(p.areas, x);
    V.InsertHas(p.areas, x, x);
    HeldParts(m, R, p);
    HeldParts(m, R, AddRecord(p, x, f));
    var i := Place(p.areas, x);
    AddHeld(m, R, p.recs[..i], p.recs[i..], f);
    assert p.recs[..i] + p.recs[i..] == p.recs;
    forall g ensures g in Own(AddRecord(p, x, f)) <==> g in Own(p) || g == f {
      assert g in p.recs <==> g in p.recs[..i] || g in p.recs[i..];
    }
  }

  lemma AddHeld(m: Mem, R: set<nat>, c: seq<nat>, d: seq<nat>, f: nat)
    requires Held(m, R, c + d) && Off(m, R, f) && f !in c + d
    ensures Held(m, R, c + [f] + d)
  {
    hide Off;
    var e, z := c + d, c + [f] + d;
    forall i | 0 <= i < |z| ensures Off(m, R, z[i]) && (i != |c| ==> z[i] in e && z[i] != f) {
      if i < |c| { assert z[i] == e[i]; } else if i > |c| { assert z[i] == e[i - 1]; }
    }
    forall i, j | 0 <= i < j < |z| ensures z[i] != z[j] {
      if i != |c| && j != |c| {
        assert z[i] == e[if i < |c| then i else i - 1] && z[j] == e[if j < |c| then j else j - 1];
      }
    }
  }

  lemma InsertAreasOk(q: seq<V.Area>, x: V.Area)
    requires AreasOk(q) && AreaOk(x) && x.start < x.end && !V.Intersect(q, x.start, x.end)
    ensures AreasOk(V.Insert(q, x))
  {
    hide PageAligned;
    V.InsertOk(q, x);
    var w := V.Insert(q, x);
    forall i | 0 <= i < |w| ensures AreaOk(w[i]) {
      V.InsertHas(q, x, w[i]);
    }
  }

  /** `vma_alloc` and `vma_insert`. */
  ghost function NewArea(v: Vm, r: nat, x: V.Area): Vm
    requires VmOk(v) && r in v.spaces && v.s.m.pool != []
  {
    AreasOf(v, r);
    v.(s := v.s.(m := Pop(v.s.m)), spaces := v.spaces[r := AddRecord(v.spaces[r], x, v.s.m.pool[0])])
  }

  lemma NewAreaOk(v: Vm, r: nat, x: V.Area)
    requires VmOk(v) && r in v.spaces && v.s.m.pool != []
    requires AreaOk(x) && x.start < x.end && !V.Intersect(v.spaces[r].areas, x.start, x.end)
    ensures VmOk(NewArea(v, r, x)) && NewArea(v, r, x).spaces.Keys == v.spaces.Keys
    ensures forall t, k | t in v.spaces || t == v.kernel :: At(NewArea(v, r, x).s.m, t, k) == At(v.s.m, t, k)
  {
    hide VmOk, VInv, Off, AreaOk, V.Intersect, AddRecord, At, Own, AreasOk;
    AreasOf(v, r);
    var R := v.spaces.Keys;
    var f := v.s.m.pool[0];
    PopInv(v.s.m, R, v.kernel);
    OffNotFree(v.s.m, R, f);
    var w := NewArea(v, r, x);
    HeldKept(v.s.m, w.s.m, R, Own(v.spaces[r]));
    if f in Own(v.spaces[r]) { OwnOff(v.s.m, R, v.spaces[r], f); }
    AddRecordOk(w.s.m, R, v.spaces[r], x, f);
    Replaced(v, w, r);
  }

  lemma OwnOff(m: Mem, R: set<nat>, p: Space, f: nat)
    requires SpaceOk(m, R, p) && f in Own(p)
    ensures Off(m, R, f)
  {
    hide Off, AreasOk;
  }

  // -------------------------------------------------------------- populating

  /** A record for the area, then zeroed frames for its pages, as far as they last. */
  ghost function Populate(v: Vm, r: nat, x: V.Area): (Vm, nat)
    requires VmOk(v) && r in v.spaces && x.end <= USER_TOP && v.s.m.pool != []
  {
    PageKeysUser(x.start, x.end);
    PopInv(v.s.m, v.spaces.Keys, v.kernel);
    var w := NewArea(v, r, x);
    var (s, j) := MapZeroed(w.s, v.spaces.Keys, v.kernel, r, x.start, 0, PageCount(x.start, x.end), PteFlags(x.flags));
    (w.(s := s), j)
  }

  /** Page steps that leave frames that are off alone keep everything in order. */
  lemma StillOk(v: Vm, s: Phys)
    requires VmOk(v) && VInv(s.m, v.spaces.Keys, v.kernel) && OffKept(v.s.m, s.m, v.spaces.Keys)
    ensures VmOk(v.(s := s))
  {
    hide VInv, Off, AreasOk, Own;
    var R := v.spaces.Keys;
    forall t | t in R ensures SpaceOk(s.m, R, v.spaces[t]) { assert SpaceOk(v.s.m, R, v.spaces[t]); }
  }

  lemma PopulateOk(v: Vm, r: nat, x: V.Area)
    requires VmOk(v) && r in v.spaces && v.s.m.pool != []
    requires AreaOk(x) && x.start < x.end && !V.Intersect(v.spaces[r].areas, x.start, x.end)
    ensures var (w, j) := Populate(v, r, x);
      && VmOk(w) && w.spaces.Keys == v.spaces.Keys && j <= PageCount(x.start, x.end)
      && w.spaces == NewArea(v, r, x).spaces && w.kernel == v.kernel
  {
    hide VmOk, VInv, V.Intersect, KeyOf, User, PageCount, AddRecord, OffKept, MapZeroed;
    PageKeysUser(x.start, x.end);
    NewAreaOk(v, r, x);
    var w := NewArea(v, r, x);
    AreasOf(w, r);
    var n := PageCount(x.start, x.end);
    MapZeroedSpec(w.s, v.spaces.Keys, v.kernel, r, x.start, 0, n, PteFlags(x.flags), r, KeyOf(0));
    MapZeroedOff(w.s, v.spaces.Keys, v.kernel, r, x.start, 0, n, PteFlags(x.flags));
    StillOk(w, MapZeroed(w.s, v.spaces.Keys, v.kernel, r, x.start, 0, n, PteFlags(x.flags)).0);
  }

  /** `vmm_map_region`. */
  ghost function MapRegion(v: Vm, r: nat, x: V.Area): (Vm, bool)
    requires VmOk(v) && r in v.spaces && AreaOk(x) && x.start < x.end
  {
    if V.Intersect(v.spaces[r].areas, x.start, x.end) || v.s.m.pool == [] then (v, false)
    else
      PopulateOk(v, r, x);
      var (w, j) := Populate(v, r, x);
      if j == PageCount(x.start, x.end) then (w, true)
      else (UnmapRegion(w, r, x.start, PAGE_SIZE * j), false)
  }

  /** Taking the front off a just inserted area is inserting the rest of it. */
  lemma {:induction false} TrimInserted(q: seq<V.Area>, x: V.Area, cut: nat, mem: bool)
    requires V.Ok(q) && !V.Intersect(q, x.start, x.end) && x.start <= cut < x.end
    ensures V.Remove(V.Insert(q, x), x.start, cut, mem) == V.Insert(q, x.(start := cut))
  {
    V.IntersectIff(q, x.start, x.end);
    if q != [] {
      assert !V.Meets(q[0], x.start, x.end);
      if !(x.start < q[0].start) {
        assert q[0].end <= x.start;
        assert q == [q[0]] + q[1..];
        V.IntersectIff(q[1..], x.start, x.end);
        forall i | 0 <= i < |q[1..]| ensures !V.Meets(q[1..][i], x.start, x.end) { assert q[1..][i] == q[i + 1]; }
        TrimInserted(q[1..], x, cut, mem);
      } else {
        assert q[0].start >= x.end;
        assert V.Remove(q, x.start, cut, mem) == q;
        assert V.Insert(q, x) == [x] + q;
        assert V.Insert(q, x.(start := cut)) == [x.(start := cut)] + q;
      }
    }
  }

  /** Page number `j` of an area is still inside it, and its address does not wrap. */
  lemma CutInside(x: V.Area, j: nat)
    requires AreaOk(x) && j < PageCount(x.start, x.end)
    ensures x.start + PAGE_SIZE * j < x.end && PageAligned(x.start + PAGE_SIZE * j)
    ensures (x.start + PAGE_SIZE * j) % V.U64 == x.start + PAGE_SIZE * j
  {
  }

  // ---------------------------------------------------------- how far it gets

  /** The number of pages of a region that there are frames for once the record has taken its own. */
  ghost function Filled(v: Vm, r: nat, x: V.Area): nat
    requires VmOk(v) && r in v.spaces && v.s.m.pool != []
  {
    PopInv(v.s.m, v.spaces.Keys, v.kernel);
    RootIn(Pop(v.s.m), v.spaces.Keys, v.kernel, r);
    FirstShort(Pop(v.s.m), r, x.start, 0, 0, PageCount(x.start, x.end))
  }

  lemma PopulateFills(v: Vm, r: nat, x: V.Area)
    requires VmOk(v) && r in v.spaces && x.end <= USER_TOP && v.s.m.pool != []
    ensures Populate(v, r, x).1 == Filled(v, r, x)
  {
    hide VInv, User, KeyOf, PageCount, MapZeroed, FirstShort, AddRecord;
    PageKeysUser(x.start, x.end);
    PopInv(v.s.m, v.spaces.Keys, v.kernel);
    MapZeroedStops(NewArea(v, r, x).s, v.spaces.Keys, v.kernel, r, x.start, 0, PageCount(x.start, x.end), PteFlags(x.flags));
  }

  /**
   The area list after a region map: unchanged when the region meets an area or not
   even the record's frame can be had, one area more on success, and after running
   out of frames the pages that were mapped are cut off the area and the rest of it is
   left behind, all of it if the first page already fails.
   */
  lemma MapRegionAreas(v: Vm, r: nat, x: V.Area)
    requires VmOk(v) && r in v.spaces && AreaOk(x) && x.start < x.end
    ensures var (z, ok) := MapRegion(v, r, x);
      var q := v.spaces[r].areas;
      && VmOk(z) && z.spaces.Keys == v.spaces.Keys
      && (forall t | t in v.spaces && t != r :: z.spaces[t] == v.spaces[t])
      && (V.Intersect(q, x.start, x.end) || v.s.m.pool == [] ==> !ok && z == v)
      && (!V.Intersect(q, x.start, x.end) && v.s.m.pool != [] ==>
           var j := Filled(v, r, x);
           && (ok <==> j == PageCount(x.start, x.end))
           && z.spaces[r].areas == V.Insert(q, if ok then x else x.(start := x.start + PAGE_SIZE * j)))
  {
    hide VmOk, Filled, Populate, UnmapTo, CanSplit, VInv, V.Ok, V.Intersect, V.Insert, V.Remove, KeyOf, PageAligned, PageCount;
    var q := v.spaces[r].areas;
    AreasOf(v, r);
    if !V.Intersect(q, x.start, x.end) && v.s.m.pool != [] {
      PopulateFills(v, r, x);
      PopulateOk(v, r, x);
      var (w, j) := Populate(v, r, x);
      if j < PageCount(x.start, x.end) {
        CutInside(x, j);
        var cut := x.start + PAGE_SIZE * j;
        UnmapOk(w, r, x.start, cut);
        UnmapOthers(w, r, x.start, cut);
        TrimInserted(q, x, cut, CanSplit(w.s.m, r, x.start, cut));
      }
    }
  }

  lemma UnmapOthers(v: Vm, r: nat, lo: nat, hi: nat)
    requires VmOk(v) && r in v.spaces
    ensures forall t | t in v.spaces && t != r :: t in UnmapTo(v, r, lo, hi).spaces && UnmapTo(v, r, lo, hi).spaces[t] == v.spaces[t]
  {
    hide UnmapWalk;
  }

  /**
   A region map succeeds if and only if the region meets no area and the pool has a
   frame for the area's record, one for each page and one for each page table that is
   missing.
   */
  lemma MapRegionIff(v: Vm, r: nat, x: V.Area)
    requires VmOk(v) && r in v.spaces && AreaOk(x) && x.start < x.end
    ensures Wf(v.s.m) && IsRoot(v.s.m, r)
    ensures var n := PageCount(x.start, x.end);
      MapRegion(v, r, x).1 <==>
        !V.Intersect(v.spaces[r].areas, x.start, x.end) && |v.s.m.pool| >= 1 + n + |Need(v.s.m, r, x.start, 0, n)|
  {
    hide MapRegion, V.Intersect, VmOk, VInv, FirstShort, Wf, Need, Short;
    AreasOf(v, r);
    MapRegionAreas(v, r, x);
    RootIn(v.s.m, v.spaces.Keys, v.kernel, r);
    var n := PageCount(x.start, x.end);
    if v.s.m.pool != [] {
      PopInv(v.s.m, v.spaces.Keys, v.kernel);
      RootIn(Pop(v.s.m), v.spaces.Keys, v.kernel, r);
      LastShort(v.s.m, r, x.start, n);
    }
  }

  /** And then it takes exactly those. */
  lemma MapRegionTakes(v: Vm, r: nat, x: V.Area)
    requires VmOk(v) && r in v.spaces && AreaOk(x) && x.start < x.end && MapRegion(v, r, x).1
    ensures Wf(v.s.m) && IsRoot(v.s.m, r)
    ensures var n := PageCount(x.start, x.end);
      |MapRegion(v, r, x).0.s.m.pool| == |v.s.m.pool| - 1 - n - |Need(v.s.m, r, x.start, 0, n)|
  {
    hide V.Intersect, VmOk, VInv, Wf, Need, AddRecord, User, MapZeroed, UnmapTo;
    AreasOf(v, r);
    var R := v.spaces.Keys;
    RootIn(v.s.m, R, v.kernel, r);
    PopInv(v.s.m, R, v.kernel);
    PageKeysUser(x.start, x.end);
    var n := PageCount(x.start, x.end);
    PopulateOk(v, r, x);
    MapZeroedTakes(NewArea(v, r, x).s, R, v.kernel, r, x.start, 0, n, PteFlags(x.flags));
    RootIn(Pop(v.s.m), R, v.kernel, r);
    NeedPopped(v.s.m, r, x.start, 0, n);
  }

  // ------------------------------------------------------------------- pages

  lemma PopulatePages(v: Vm, r: nat, x: V.Area, t: nat, a: nat)
    requires VmOk(v) && r in v.spaces && AreaOk(x) && x.start < x.end && v.s.m.pool != []
    requires (t in v.spaces || t == v.kernel) && PageAligned(a) && a < USER_TOP
    ensures var (w, j) := Populate(v, r, x);
      && j <= PageCount(x.start, x.end)
      && if t == r && x.start <= a < x.start + PAGE_SIZE * j
         then Shows(v.s, w.s, At(w.s.m, t, KeyOf(a)), PteFlags(x.flags), Blank())
         else At(w.s.m, t, KeyOf(a)) == At(v.s.m, t, KeyOf(a))
  {
    hide VInv, KeyOf, Blank, PageAligned, PageCount, AddRecord, At;
    PageKeysUser(x.start, x.end);
    PopInv(v.s.m, v.spaces.Keys, v.kernel);
    MapZeroedSpec(NewArea(v, r, x).s, v.spaces.Keys, v.kernel, r, x.start, 0, PageCount(x.start, x.end), PteFlags(x.flags), t, KeyOf(a));
    HitIff(x, Populate(v, r, x).1, a);
  }

  /**
   The pages after a region map: on success each page of the region shows a zeroed
   frame that was free, with the area's permissions; otherwise none of the region's
   pages stays mapped that was mapped here.  Every other page of every space is as
   before.
   */
  lemma MapRegionPages(v: Vm, r: nat, x: V.Area, t: nat, a: nat)
    requires VmOk(v) && r in v.spaces && AreaOk(x) && x.start < x.end
    requires (t in v.spaces || t == v.kernel) && PageAligned(a) && a < USER_TOP
    ensures var (z, ok) := MapRegion(v, r, x);
      if !V.Intersect(v.spaces[r].areas, x.start, x.end) && v.s.m.pool != []
         && t == r && x.start <= a < x.start + PAGE_SIZE * Filled(v, r, x)
      then (if ok then Shows(v.s, z.s, At(z.s.m, t, KeyOf(a)), PteFlags(x.flags), Blank()) else At(z.s.m, t, KeyOf(a)) == NoMap)
      else At(z.s.m, t, KeyOf(a)) == At(v.s.m, t, KeyOf(a))
  {
    hide VmOk, Filled, Populate, At, VInv, V.Ok, V.Intersect, V.Insert, KeyOf, Blank, PageAligned, PageCount, Shows, V.FlagsAt, UnmapTo;
    AreasOf(v, r);
    if !V.Intersect(v.spaces[r].areas, x.start, x.end) && v.s.m.pool != [] {
      PopulateFills(v, r, x);
      PopulateOk(v, r, x);
      PopulatePages(v, r, x, t, a);
      var (w, j) := Populate(v, r, x);
      if j < PageCount(x.start, x.end) {
        CutInside(x, j);
        UnmapPages(w, r, x.start, x.start + PAGE_SIZE * j, t, a);
        V.InsertFlags(v.spaces[r].areas, x, a);
      }
    }
  }

  lemma HitIff(x: V.Area, j: nat, a: nat)
    requires AreaOk(x) && x.start < x.end && j <= PageCount(x.start, x.end) && PageAligned(a) && a < USER_TOP
    ensures LastHit(x.start, 0, j, KeyOf(a)).Some? <==> x.start <= a < x.start + PAGE_SIZE * j
  {
    hide KeyOf;
    var cut := x.start + PAGE_SIZE * j;
    CutWhole(x, j);
    PageKeysIff(x.start, cut, a);
    var h := LastHit(x.start, 0, j, KeyOf(a));
    if h.Some? { assert PageKeys(x.start, cut)[h.value] == KeyOf(a); }
  }

  lemma CutWhole(x: V.Area, j: nat)
    requires AreaOk(x) && x.start < x.end && j <= PageCount(x.start, x.end)
    ensures var cut := x.start + PAGE_SIZE * j; cut <= x.end && PageAligned(cut) && PageCount(x.start, cut) == j
  {
    var n := (x.end - x.start) / PAGE_SIZE;
    assert x.end == x.start + PAGE_SIZE * n;
    assert PageCount(x.start, x.end) == n;
  }
}
