/**
 Conservation of frames over whole address spaces and over every run
 (kernel/mm/vmm.c): every frame is free, a page table, behind a record, or mapped;
 none is lost, except the copies that a failed clone had made for the area it could
 not finish.
 */
module VmFrames {

  import opened Common
  import opened Paging
  import opened PagingOps
  import opened PagingTree
  import opened VmPages
  import opened VmRecords
  import opened VmConserve
  import opened Vmm
  import opened VmSpaces
  import opened VmRegions
  import opened VmLife
  import opened VmClone
  import V = Vma

  /** The frame is not free, no table, behind no record and mapped nowhere: nothing will ever give it back. */
  ghost predicate Lost(v: Vm, f: nat) {
    Off(v.s.m, v.spaces.Keys, f) && forall r | r in v.spaces :: f !in Own(v.spaces[r])
  }

  ghost predicate InArea(m: Mem, r: nat, q: seq<V.Area>, a: nat) {
    At(m, r, KeyOf(a)).Page? ==> V.FlagsAt(q, a).Some?
  }

  /** Every mapped user page of a space lies in one of its areas. */
  ghost predicate Within(m: Mem, r: nat, q: seq<V.Area>) {
    forall a: nat | PageAligned(a) && a < USER_TOP :: InArea(m, r, q, a)
  }

  ghost predicate AllWithin(v: Vm) {
    forall r | r in v.spaces :: Within(v.s.m, r, v.spaces[r].areas)
  }

  // ------------------------------------------------------- one space changed

  /** What one space takes or gives back decides. */
  lemma LostReplaced(v: Vm, w: Vm, r: nat, f: nat)
    requires r in v.spaces && r in w.spaces && w.spaces == v.spaces[r := w.spaces[r]]
    requires Spare(w.s.m, v.spaces.Keys, Own(w.spaces[r]), f) <==> Spare(v.s.m, v.spaces.Keys, Own(v.spaces[r]), f)
    ensures Lost(w, f) <==> Lost(v, f)
  {
    hide Off, Own;
    assert w.spaces.Keys == v.spaces.Keys;
    if Lost(w, f) {
      assert f !in Own(w.spaces[r]);
      forall t | t in v.spaces && t != r ensures f !in Own(v.spaces[t]) { assert f !in Own(w.spaces[t]); }
    }
    if Lost(v, f) {
      assert f !in Own(v.spaces[r]);
      forall t | t in w.spaces && t != r ensures f !in Own(w.spaces[t]) { assert f !in Own(v.spaces[t]); }
    }
  }

  lemma LostSame(v: Vm, s: Phys, f: nat)
    requires OffSame(v.s.m, s.m, v.spaces.Keys)
    ensures Lost(v.(s := s), f) <==> Lost(v, f)
  {
    hide Off;
  }

  lemma UnmapLoses(v: Vm, r: nat, lo: nat, hi: nat, f: nat)
    requires VmOk(v) && r in v.spaces
    ensures Lost(UnmapTo(v, r, lo, hi), f) <==> Lost(v, f)
  {
    hide VmOk, VInv, Off, UnmapWalk, AreasOk, Held;
    AreasOf(v, r);
    var p := v.spaces[r];
    WalkSpare(v.s, v.spaces.Keys, v.kernel, r, p.areas, p.recs, lo, hi, f);
    LostReplaced(v, UnmapTo(v, r, lo, hi), r, f);
  }

  lemma NewAreaLoses(v: Vm, r: nat, x: V.Area, f: nat)
    requires VmOk(v) && r in v.spaces && v.s.m.pool != []
    requires AreaOk(x) && x.start < x.end && !V.Intersect(v.spaces[r].areas, x.start, x.end)
    ensures Lost(NewArea(v, r, x), f) <==> Lost(v, f)
  {
    hide VmOk, VInv, Off, AreaOk, V.Intersect, AddRecord, Own, AreasOk;
    AreasOf(v, r);
    PopOff(v.s.m, v.spaces.Keys, v.kernel, f);
    OwnMore(v, r, x);
    OffNotFree(v.s.m, v.spaces.Keys, v.s.m.pool[0]);
    LostReplaced(v, NewArea(v, r, x), r, f);
  }

  lemma OwnMore(v: Vm, r: nat, x: V.Area)
    requires VmOk(v) && r in v.spaces && v.s.m.pool != [] && |v.spaces[r].recs| == |v.spaces[r].areas|
    ensures forall g :: g in Own(AddRecord(v.spaces[r], x, v.s.m.pool[0])) <==> g in Own(v.spaces[r]) || g == v.s.m.pool[0]
  {
    var p := v.spaces[r];
    var i := Place(p.areas, x);
    assert p.recs == p.recs[..i] + p.recs[i..];
  }

  // --------------------------------------------------------------- map region

  /** No page of a region that meets no area is mapped. */
  lemma RegionFree(v: Vm, r: nat, x: V.Area, p: nat)
    requires VmOk(v) && r in v.spaces && Within(v.s.m, r, v.spaces[r].areas)
    requires AreaOk(x) && x.start < x.end && !V.Intersect(v.spaces[r].areas, x.start, x.end) && p < PageCount(x.start, x.end)
    ensures At(v.s.m, r, KeyAt(x.start, p)).NoMap?
  {
    hide VmOk, KeyOf, At, V.Intersect, V.FlagsAt;
    AreasOf(v, r);
    var a := x.start + PAGE_SIZE * p;
    CutInside(x, p);
    V.IntersectAddresses(v.spaces[r].areas, x.start, x.end);
    assert V.FlagsAt(v.spaces[r].areas, a).None?;
    assert InArea(v.s.m, r, v.spaces[r].areas, a);
  }

  lemma PopulateLoses(v: Vm, r: nat, x: V.Area, f: nat)
    requires VmOk(v) && r in v.spaces && v.s.m.pool != [] && Within(v.s.m, r, v.spaces[r].areas)
    requires AreaOk(x) && x.start < x.end && !V.Intersect(v.spaces[r].areas, x.start, x.end)
    ensures Lost(Populate(v, r, x).0, f) <==> Lost(v, f)
  {
    hide VmOk, VInv, V.Intersect, KeyOf, User, MapZeroed, Off, At, Within, AddRecord;
    PageKeysUser(x.start, x.end);
    NewAreaOk(v, r, x);
    NewAreaLoses(v, r, x, f);
    var w := NewArea(v, r, x);
    AreasOf(w, r);
    var n := PageCount(x.start, x.end);
    forall p | 0 <= p < n ensures At(w.s.m, r, KeyAt(x.start, p)).NoMap? { RegionFree(v, r, x, p); }
    MapZeroedOn(w.s, v.spaces.Keys, v.kernel, r, x.start, 0, n, PteFlags(x.flags));
    LostSame(w, Populate(v, r, x).0.s, f);
  }

  lemma MapLoses(v: Vm, r: nat, x: V.Area, f: nat)
    requires VmOk(v) && r in v.spaces && AreaOk(x) && x.start < x.end && Within(v.s.m, r, v.spaces[r].areas)
    ensures Lost(MapRegion(v, r, x).0, f) <==> Lost(v, f)
  {
    hide VmOk, Populate, UnmapTo, V.Intersect, Lost, Within;
    if !V.Intersect(v.spaces[r].areas, x.start, x.end) && v.s.m.pool != [] {
      PopulateOk(v, r, x);
      PopulateLoses(v, r, x, f);
      var (w, j) := Populate(v, r, x);
      UnmapLoses(w, r, x.start, (x.start + PAGE_SIZE * j) % V.U64, f);
    }
  }

  // --------------------------------------------------------------- create

  lemma RootOff(m: Mem, R: set<nat>, kernel: nat, f: nat)
    requires VInv(m, R, kernel) && m.pool != []
    ensures kernel in m.tables && TableOk(m, kernel)
    ensures var (n, c) := CreateRoot(m, Some(kernel)); c.Some? && (Off(n, R + {c.value}, f) <==> Off(m, R, f))
  {
    hide Wf, At, Plain;
    RootPages(m, R, kernel);
    RootInv(m, R, kernel);
    var (n, c) := CreateRoot(m, Some(kernel));
    assert n.tables.Keys == m.tables.Keys + {c.value} && m.pool == [c.value] + n.pool;
    if Off(n, R + {c.value}, f) {
      forall r, k | r in R && User(k) && At(m, r, k).Page? ensures At(m, r, k).frame != f {
        assert At(n, r, k) == At(m, r, k) && r in R + {c.value};
      }
    }
  }

  lemma CreateLoses(v: Vm, f: nat)
    requires VmOk(v)
    ensures Lost(CreateSpace(v).0, f) <==> Lost(v, f)
  {
    hide VmOk, VInv, At, Off;
    CreateSpaceSpec(v);
    if |v.s.m.pool| >= 2 {
      PoolIn(v);
      var R := v.spaces.Keys;
      PopInv(v.s.m, R, v.kernel);
      PopOff(v.s.m, R, v.kernel, f);
      RootOff(Pop(v.s.m), R, v.kernel, f);
      OffNotFree(v.s.m, R, v.s.m.pool[0]);
      var (w, c) := CreateSpace(v);
      assert w.spaces.Keys == R + {c.value};
      if Lost(v, f) {
        forall t | t in w.spaces ensures f !in Own(w.spaces[t]) { if t in v.spaces { assert f !in Own(v.spaces[t]); } }
      }
      if Lost(w, f) {
        assert f !in Own(w.spaces[c.value]);
        forall t | t in v.spaces ensures f !in Own(v.spaces[t]) { assert f !in Own(w.spaces[t]); }
      }
    }
  }

  // --------------------------------------------------------------- destroy

  /** The frame is mapped in the space at a page of no area. */
  ghost predicate Uncovered(m: Mem, r: nat, q: seq<V.Area>, f: nat) {
    exists a: nat :: PageAligned(a) && a < USER_TOP && Outside(m, r, q, f, a)
  }

  ghost predicate Outside(m: Mem, r: nat, q: seq<V.Area>, f: nat, a: nat) {
    At(m, r, KeyOf(a)).Page? && At(m, r, KeyOf(a)).frame == f && V.FlagsAt(q, a).None?
  }

  /** Every user page has an address. */
  lemma KeyAddress(k: Key) returns (a: nat)
    requires User(k)
    ensures PageAligned(a) && a < USER_TOP && KeyOf(a) == k
  {
    var b, c, d := k.i4 * 512 + k.i3, (k.i4 * 512 + k.i3) * 512 + k.i2, ((k.i4 * 512 + k.i3) * 512 + k.i2) * 512 + k.i1;
    a := d * PAGE_SIZE;
    assert a / PAGE_SIZE == d && d / 512 == c && d % 512 == k.i1;
    assert c / 512 == b && c % 512 == k.i2;
    assert b / 512 == k.i4 && b % 512 == k.i3;
    assert b < 0x2_0000 && c < 0x400_0000 && d < 0x8_0000_0000;
  }

  /** A page outside the areas keeps its frame from coming back. */
  lemma OutsideStays(s: Phys, R: set<nat>, kernel: nat, r: nat, p: Space, f: nat, a: nat)
    requires VInv(s.m, R, kernel) && r in R && SpaceOk(s.m, R, p) && Wf(Emptied(s.m, r, p)) && IsRoot(s.m, r)
    requires PageAligned(a) && a < USER_TOP && Outside(s.m, r, p.areas, f, a)
    ensures Off(FreeSpace(s, r, p).m, R - {r}, f)
  {
    hide Wf, Plain, At, FramesAt, AreaKeys, Freed, Returned, DestroyRoot, V.FlagsAt, KeyOf, AreasOk;
    var k := KeyOf(a);
    UserKey(a);
    InUse(s.m, R, kernel, r, k);
    NotReturned(s, R, kernel, r, p, f, a);
    var m1 := Emptied(s.m, r, p);
    HeldParts(s.m, R, p);
    EmptiedOk(s.m, R, kernel, r, p);
    TakenAfter(m1, r, f);
    var z := FreeSpace(s, r, p);
    assert f != p.frame && Taken(z.m, f);
    forall t, l | t in R - {r} && User(l) && At(z.m, t, l).Page? ensures At(z.m, t, l).frame != f {
      FreeSpaceSpec(s, R, kernel, r, p, t, l);
    }
  }

  lemma TakenAfter(m: Mem, r: nat, f: nat)
    requires Wf(m) && IsRoot(m, r) && Taken(m, f)
    ensures Taken(DestroyRoot(m, r), f)
  {
    hide Wf, Freed;
    FreedIff(m, r, f);
  }

  lemma NotReturned(s: Phys, R: set<nat>, kernel: nat, r: nat, p: Space, f: nat, a: nat)
    requires VInv(s.m, R, kernel) && r in R && SpaceOk(s.m, R, p)
    requires PageAligned(a) && a < USER_TOP && Outside(s.m, r, p.areas, f, a)
    ensures f !in Returned(s.m, r, p.areas, p.recs) && !Off(s.m, R, f)
  {
    hide Wf, Plain, At, FramesAt, AreaKeys, Returned, V.FlagsAt, KeyOf, AreaOk;
    var k := KeyOf(a);
    UserKey(a);
    var ks := AreaKeys(p.areas);
    AreaKeysUser(p.areas);
    AreaKeysIff(p.areas, a);
    FramesAtIff(s.m, r, ks, f);
    ReturnedIff(s.m, r, p.areas, p.recs, f);
    HeldParts(s.m, R, p);
    if f in p.recs { HeldOff(s.m, R, p.recs, f); }
  }

  /** Everything else of the space does come back. */
  lemma OthersComeBack(s: Phys, R: set<nat>, kernel: nat, r: nat, p: Space, f: nat)
    requires VInv(s.m, R, kernel) && r in R && SpaceOk(s.m, R, p) && Wf(Emptied(s.m, r, p)) && IsRoot(s.m, r)
    requires Off(FreeSpace(s, r, p).m, R - {r}, f) && !Uncovered(s.m, r, p.areas, f)
    ensures Off(s.m, R, f) && f !in Own(p)
  {
    hide Wf, Plain, At, FramesAt, AreaKeys, Freed, Returned, DestroyRoot, V.FlagsAt, KeyOf, AreasOk, VInv;
    var z := FreeSpace(s, r, p);
    BackInStock(s.m, r, p, f);
    ReturnedIff(s.m, r, p.areas, p.recs, f);
    forall t, l | t in R && User(l) && At(s.m, t, l).Page? ensures At(s.m, t, l).frame != f {
      if t != r {
        FreeSpaceSpec(s, R, kernel, r, p, t, l);
      } else if At(s.m, r, l).frame == f {
        var a := KeyAddress(l);
        AreaKeysIff(p.areas, a);
        if V.FlagsAt(p.areas, a).Some? { FramesAtIff(s.m, r, AreaKeys(p.areas), f); }
      }
    }
  }

  lemma BackInStock(m: Mem, r: nat, p: Space, f: nat)
    requires |p.recs| == |p.areas| && Wf(Emptied(m, r, p)) && IsRoot(m, r)
    requires Taken(Push(DestroyRoot(Emptied(m, r, p), r), p.frame), f)
    ensures Taken(m, f) && f !in Returned(m, r, p.areas, p.recs) && f != p.frame
  {
    hide Wf, Returned, Freed;
  }

  /** Destroying a space loses exactly the frames that it has mapped outside its areas. */
  lemma DestroyLoses(v: Vm, r: nat, f: nat)
    requires VmOk(v) && r in v.spaces
    ensures Lost(DestroySpace(v, r), f) <==> Lost(v, f) || Uncovered(v.s.m, r, v.spaces[r].areas, f)
  {
    hide VInv, FreeSpace, AreasOk, Off, Own, Emptied, Held, Apart;
    var R := v.spaces.Keys;
    var p := v.spaces[r];
    var w := DestroySpace(v, r);
    AreasOf(v, r);
    EmptiedOk(v.s.m, R, v.kernel, r, p);
    FreeSpaceSpec(v.s, R, v.kernel, r, p, v.kernel, Key(0, 0, 0, 0));
    assert w.spaces.Keys == R - {r};
    if Uncovered(v.s.m, r, p.areas, f) {
      var a: nat :| PageAligned(a) && a < USER_TOP && Outside(v.s.m, r, p.areas, f, a);
      OutsideStays(v.s, R, v.kernel, r, p, f, a);
      NotReturned(v.s, R, v.kernel, r, p, f, a);
      forall t | t in w.spaces ensures f !in Own(w.spaces[t]) {
        assert SpaceOk(v.s.m, R, v.spaces[t]);
        if f in Own(v.spaces[t]) { OwnOff(v.s.m, R, v.spaces[t], f); }
      }
    } else if Lost(w, f) {
      OthersComeBack(v.s, R, v.kernel, r, p, f);
      forall t | t in v.spaces ensures f !in Own(v.spaces[t]) { if t != r { assert f !in Own(w.spaces[t]); } }
    }
  }

  // ------------------------------------------------------------------ clone

  lemma PageKeysDistinct(lo: nat, hi: nat)
    requires hi <= USER_TOP
    ensures Distinct(PageKeys(lo, hi))
  {
    hide KeyOf;
    forall i, j | 0 <= i < j < |PageKeys(lo, hi)| ensures PageKeys(lo, hi)[i] != PageKeys(lo, hi)[j] {
      KeysDistinct(lo, i, j);
    }
  }

  /** Copying one area's pages takes nothing but free frames, and the pages it maps were not mapped. */
  lemma AreaCopyOff(v: Vm, src: nat, dst: nat, x: V.Area)
    requires VmOk(v) && src in v.spaces && dst in v.spaces && AreaOk(x) && x.start < x.end && v.s.m.pool != []
    requires !V.Intersect(v.spaces[dst].areas, x.start, x.end) && Within(v.s.m, dst, v.spaces[dst].areas)
    ensures VInv(Pop(v.s.m), v.spaces.Keys, v.kernel)
    ensures forall i | 0 <= i < |PageKeys(x.start, x.end)| :: User(PageKeys(x.start, x.end)[i])
    ensures OffSame(Pop(v.s.m), CopyKeys(v.s.(m := Pop(v.s.m)), v.spaces.Keys, v.kernel, src, dst, PageKeys(x.start, x.end)).0.m, v.spaces.Keys)
  {
    hide VmOk, VInv, User, Off, At, Within, KeyOf, OffSame, CopyKeys, V.Intersect;
    PoolIn(v);
    PopInv(v.s.m, v.spaces.Keys, v.kernel);
    PageKeysUser(x.start, x.end);
    PageKeysDistinct(x.start, x.end);
    var ks := PageKeys(x.start, x.end);
    forall i | 0 <= i < |ks| ensures At(Pop(v.s.m), dst, ks[i]).NoMap? { RegionFree(v, dst, x, i); }
    CopyKeysOn(v.s.(m := Pop(v.s.m)), v.spaces.Keys, v.kernel, src, dst, ks);
  }

  lemma CloneAreaLoses(v: Vm, src: nat, dst: nat, x: V.Area, f: nat)
    requires VmOk(v) && src in v.spaces && dst in v.spaces && src != dst && AreaOk(x) && x.start < x.end
    requires !V.Intersect(v.spaces[dst].areas, x.start, x.end) && Within(v.s.m, dst, v.spaces[dst].areas)
    ensures Lost(CloneArea(v, src, dst, x).0, f) <==> Lost(v, f)
  {
    hide VmOk, VInv, User, Off, At, Within, CopyKeys, PageKeys, V.Intersect, AddRecord, Own, AreasOk, Lost;
    if v.s.m.pool != [] {
      var R := v.spaces.Keys;
      AreasOf(v, dst);
      UserEnd(x);
      AreaCopyOff(v, src, dst, x);
      AreaCopied(v, src, dst, x, v.kernel, Key(0, 0, 0, 0));
      PopOff(v.s.m, R, v.kernel, f);
      OffNotFree(v.s.m, R, v.s.m.pool[0]);
      OwnMore(v, dst, x);
      var (w, ok) := CloneArea(v, src, dst, x);
      if ok {
        LostReplaced(v, w, dst, f);
      } else {
        PushOff(CopyKeys(v.s.(m := Pop(v.s.m)), R, v.kernel, src, dst, PageKeys(x.start, x.end)).0.m, R, v.kernel, v.s.m.pool[0], f);
        LostBack(v, w.s, f);
      }
    }
  }

  lemma LostBack(v: Vm, s: Phys, f: nat)
    requires Off(s.m, v.spaces.Keys, f) <==> Off(v.s.m, v.spaces.Keys, f)
    ensures Lost(v.(s := s), f) <==> Lost(v, f)
  {
    hide Off;
  }

  lemma CloneAreaWithin(v: Vm, src: nat, dst: nat, x: V.Area)
    requires VmOk(v) && src in v.spaces && dst in v.spaces && src != dst && AreaOk(x) && x.start < x.end
    requires !V.Intersect(v.spaces[dst].areas, x.start, x.end) && Within(v.s.m, dst, v.spaces[dst].areas)
    requires CloneArea(v, src, dst, x).1
    ensures var w := CloneArea(v, src, dst, x).0; dst in w.spaces && Within(w.s.m, dst, w.spaces[dst].areas)
  {
    hide VmOk, CloneArea, V.Intersect, V.Insert, AreaOk, At, KeyOf, Copied, Onward, V.FlagsAt;
    UserEnd(x);
    AreasOf(v, dst);
    CloneAreaOk(v, src, dst, x);
    var w := CloneArea(v, src, dst, x).0;
    forall a: nat | PageAligned(a) && a < USER_TOP ensures InArea(w.s.m, dst, w.spaces[dst].areas, a) {
      CloneAreaPage(v, src, dst, x, a);
      V.InsertFlags(v.spaces[dst].areas, x, a);
      assert InArea(v.s.m, dst, v.spaces[dst].areas, a);
    }
  }

  lemma {:induction false} CloneAreasLose(v: Vm, src: nat, dst: nat, todo: seq<V.Area>, f: nat)
    requires VmOk(v) && src in v.spaces && dst in v.spaces && src != dst && AreasOk(v.spaces[dst].areas + todo)
    requires Within(v.s.m, dst, v.spaces[dst].areas)
    ensures Lost(CloneAreas(v, src, dst, todo).0, f) <==> Lost(v, f)
    decreases |todo|
  {
    hide VmOk, CloneArea, AreasOk, V.Intersect, V.Insert, AreaOk, Within, Lost;
    if todo != [] {
      AreaNext(v.spaces[dst].areas, todo);
      CloneAreaOk(v, src, dst, todo[0]);
      CloneAreaLoses(v, src, dst, todo[0], f);
      var (w, ok) := CloneArea(v, src, dst, todo[0]);
      if ok {
        CloneAreaWithin(v, src, dst, todo[0]);
        CloneAreasLose(w, src, dst, todo[1..], f);
      }
    }
  }

  /** The frame was copied for the area at which the clone failed. */
  ghost predicate Stranded(v: Vm, src: nat, f: nat)
    requires VmOk(v) && src in v.spaces
  {
    && |v.s.m.pool| >= 2
    && (CloneParts(v, src);
        var (w, c) := CreateSpace(v);
        var (u, ok) := CloneAreas(w, src, c.value, v.spaces[src].areas);
        !ok && Uncovered(u.s.m, c.value, u.spaces[c.value].areas, f))
  }

  /** A clone loses exactly the frames it strands; a successful one none. */
  lemma CloneLoses(v: Vm, src: nat, f: nat)
    requires VmOk(v) && src in v.spaces
    ensures Lost(Clone(v, src).0, f) <==> Lost(v, f) || Stranded(v, src, f)
    ensures Clone(v, src).1.Some? ==> !Stranded(v, src, f)
  {
    hide VmOk, CloneAreas, CreateSpace, DestroySpace, AreasOk, At, Lost, Uncovered;
    CreateSpaceSpec(v);
    CreateLoses(v, f);
    if |v.s.m.pool| >= 2 {
      CloneParts(v, src);
      var (w, c) := CreateSpace(v);
      var q := v.spaces[src].areas;
      EmptyWithin(w.s.m, c.value);
      CloneAreasLose(w, src, c.value, q, f);
      var (u, ok) := CloneAreas(w, src, c.value, q);
      if !ok { DestroyLoses(u, c.value, f); }
    } else {
      CloneNoRoom(v, src);
    }
  }

  lemma EmptyWithin(m: Mem, c: nat)
    requires forall k | User(k) :: At(m, c, k) == NoMap
    ensures Within(m, c, [])
  {
    hide At, KeyOf, User;
    forall a: nat | PageAligned(a) && a < USER_TOP ensures InArea(m, c, [], a) { UserKey(a); }
  }

  // ------------------------------------------------------ pages within areas

  /** An address outside the range that some area has is still in an area after the removal, split or not. */
  lemma {:induction false} RemoveCovers(q: seq<V.Area>, lo: nat, hi: nat, mem: bool, a: nat)
    requires V.Ok(q) && lo <= hi && V.FlagsAt(q, a).Some? && !(lo <= a < hi)
    ensures V.FlagsAt(V.Remove(q, lo, hi, mem), a).Some?
  {
    if q[0].start < hi {
      var rest := V.Remove(q[1..], lo, hi, mem);
      var p := if q[0].end <= lo then [q[0]] else V.Pieces(q[0], lo, hi, mem);
      V.FlagsAtConcat(p, rest, a);
      if V.Has(q[0], a) {
        PieceCovers(q[0], lo, hi, mem, a);
      } else {
        RemoveCovers(q[1..], lo, hi, mem, a);
      }
    }
  }

  lemma PieceCovers(v: V.Area, lo: nat, hi: nat, mem: bool, a: nat)
    requires V.Has(v, a) && lo <= hi && !(lo <= a < hi) && v.start < hi
    ensures V.FlagsAt(if v.end <= lo then [v] else V.Pieces(v, lo, hi, mem), a).Some?
  {
    var p := if v.end <= lo then [v] else V.Pieces(v, lo, hi, mem);
    assert |p| == 2 ==> p[1..] == [p[1]];
  }

  lemma UnmapWithin(v: Vm, r: nat, lo: nat, hi: nat)
    requires VmOk(v) && r in v.spaces && PageAligned(lo) && PageAligned(hi) && lo <= hi && AllWithin(v)
    ensures AllWithin(UnmapTo(v, r, lo, hi))
  {
    hide VmOk, UnmapTo, V.Remove, V.FlagsAt, At, KeyOf, CanSplit, V.Ok;
    UnmapOk(v, r, lo, hi);
    UnmapOthers(v, r, lo, hi);
    AreasOf(v, r);
    var w := UnmapTo(v, r, lo, hi);
    forall t | t in w.spaces ensures Within(w.s.m, t, w.spaces[t].areas) {
      assert Within(v.s.m, t, v.spaces[t].areas);
      forall a: nat | PageAligned(a) && a < USER_TOP ensures InArea(w.s.m, t, w.spaces[t].areas, a) {
        assert InArea(v.s.m, t, v.spaces[t].areas, a);
        UnmapPages(v, r, lo, hi, t, a);
        if t == r && V.FlagsAt(v.spaces[r].areas, a).Some? && !(lo <= a < hi) {
          RemoveCovers(v.spaces[r].areas, lo, hi, CanSplit(v.s.m, r, lo, hi), a);
        }
      }
    }
  }

  lemma MapWithin(v: Vm, r: nat, x: V.Area)
    requires VmOk(v) && r in v.spaces && AreaOk(x) && x.start < x.end && AllWithin(v)
    ensures AllWithin(MapRegion(v, r, x).0)
  {
    hide VmOk, MapRegion, Filled, V.Insert, V.Intersect, At, KeyOf, Shows, Blank, Within;
    MapRegionAreas(v, r, x);
    var w := MapRegion(v, r, x).0;
    forall t | t in w.spaces ensures Within(w.s.m, t, w.spaces[t].areas) {
      assert Within(v.s.m, t, v.spaces[t].areas);
      MapSpaceWithin(v, r, x, t);
    }
  }

  lemma MapSpaceWithin(v: Vm, r: nat, x: V.Area, t: nat)
    requires VmOk(v) && r in v.spaces && AreaOk(x) && x.start < x.end && t in v.spaces && Within(v.s.m, t, v.spaces[t].areas)
    ensures var w := MapRegion(v, r, x).0; t in w.spaces && Within(w.s.m, t, w.spaces[t].areas)
  {
    hide VmOk, MapRegion, Filled, V.Insert, V.Intersect, At, KeyOf, Shows, Blank, V.FlagsAt, PageCount;
    MapRegionAreas(v, r, x);
    AreasOf(v, r);
    var q := v.spaces[r].areas;
    var (w, ok) := MapRegion(v, r, x);
    forall a: nat | PageAligned(a) && a < USER_TOP ensures InArea(w.s.m, t, w.spaces[t].areas, a) {
      assert InArea(v.s.m, t, v.spaces[t].areas, a);
      MapRegionPages(v, r, x, t, a);
      if t == r && !V.Intersect(q, x.start, x.end) && v.s.m.pool != [] {
        FilledInside(v, r, x);
        InsertRest(q, x, if ok then x.start else x.start + PAGE_SIZE * Filled(v, r, x), a);
      }
    }
  }

  lemma FilledInside(v: Vm, r: nat, x: V.Area)
    requires VmOk(v) && r in v.spaces && AreaOk(x) && x.start < x.end && v.s.m.pool != []
    ensures var j := Filled(v, r, x);
      && j <= PageCount(x.start, x.end) && x.start + PAGE_SIZE * j <= x.end
      && (j < PageCount(x.start, x.end) ==> x.start + PAGE_SIZE * j < x.end)
  {
    hide VmOk;
    CutWhole(x, Filled(v, r, x));
    if Filled(v, r, x) < PageCount(x.start, x.end) { CutInside(x, Filled(v, r, x)); }
  }

  /** Inserting a region or the rest of it covers what the list had and the rest. */
  lemma InsertRest(q: seq<V.Area>, x: V.Area, cut: nat, a: nat)
    requires V.Ok(q) && !V.Intersect(q, x.start, x.end) && x.start <= cut < x.end
    ensures V.FlagsAt(q, a).Some? || cut <= a < x.end ==> V.FlagsAt(V.Insert(q, x.(start := cut)), a).Some?
  {
    hide V.Insert, V.FlagsAt;
    V.IntersectIff(q, x.start, x.end);
    V.IntersectIff(q, cut, x.end);
    V.InsertFlags(q, x.(start := cut), a);
  }

  lemma CloneWithin(v: Vm, src: nat)
    requires VmOk(v) && src in v.spaces && AllWithin(v)
    ensures AllWithin(Clone(v, src).0)
  {
    hide VmOk, Clone, At, Copied, KeyOf, Within;
    CloneKeepsOthers(v, src, src, Key(0, 0, 0, 0));
    var (u, c) := Clone(v, src);
    if c.Some? { CloneChild(v, src, 0); } else { CloneFailedSpaces(v, src); }
    forall t | t in u.spaces ensures Within(u.s.m, t, u.spaces[t].areas) {
      if t in v.spaces {
        assert Within(v.s.m, t, v.spaces[t].areas);
        CloneOtherWithin(v, src, t);
      } else {
        CloneChildWithin(v, src);
      }
    }
  }

  lemma CloneFailedSpaces(v: Vm, src: nat)
    requires VmOk(v) && src in v.spaces && Clone(v, src).1.None?
    ensures Clone(v, src).0.spaces.Keys == v.spaces.Keys
  {
    hide VmOk, CloneAreas, CreateSpace, AreasOk, FreeSpace;
    CreateSpaceSpec(v);
    if |v.s.m.pool| >= 2 { CloneParts(v, src); } else { CloneNoRoom(v, src); }
  }

  lemma CloneOtherWithin(v: Vm, src: nat, t: nat)
    requires VmOk(v) && src in v.spaces && t in v.spaces && Within(v.s.m, t, v.spaces[t].areas)
    ensures var u := Clone(v, src).0; t in u.spaces && Within(u.s.m, t, u.spaces[t].areas)
  {
    hide VmOk, Clone, At, KeyOf, V.FlagsAt;
    var u := Clone(v, src).0;
    CloneKeepsOthers(v, src, t, Key(0, 0, 0, 0));
    forall a: nat | PageAligned(a) && a < USER_TOP ensures InArea(u.s.m, t, u.spaces[t].areas, a) {
      assert InArea(v.s.m, t, v.spaces[t].areas, a);
      UserKey(a);
      CloneKeepsOthers(v, src, t, KeyOf(a));
    }
  }

  lemma CloneChildWithin(v: Vm, src: nat)
    requires VmOk(v) && src in v.spaces && Clone(v, src).1.Some?
    ensures var (u, c) := Clone(v, src); c.value in u.spaces && Within(u.s.m, c.value, u.spaces[c.value].areas)
  {
    hide VmOk, Clone, At, KeyOf, Copied, V.FlagsAt;
    CloneChild(v, src, 0);
    var (u, c) := Clone(v, src);
    forall a: nat | PageAligned(a) && a < USER_TOP ensures InArea(u.s.m, c.value, u.spaces[c.value].areas, a) {
      CloneChild(v, src, a);
    }
  }

  lemma CreateWithin(v: Vm)
    requires VmOk(v) && AllWithin(v)
    ensures AllWithin(CreateSpace(v).0)
  {
    hide VmOk, CreateSpace, At, KeyOf, V.FlagsAt, User;
    CreateSpaceSpec(v);
    var (w, c) := CreateSpace(v);
    if c.Some? {
      EmptyWithin(w.s.m, c.value);
      forall t | t in v.spaces ensures Within(w.s.m, t, v.spaces[t].areas) {
        forall a: nat | PageAligned(a) && a < USER_TOP ensures InArea(w.s.m, t, v.spaces[t].areas, a) {
          assert Within(v.s.m, t, v.spaces[t].areas) && InArea(v.s.m, t, v.spaces[t].areas, a);
        }
      }
    }
  }

  lemma DestroyWithin(v: Vm, r: nat)
    requires VmOk(v) && r in v.spaces && AllWithin(v)
    ensures AllWithin(DestroySpace(v, r))
  {
    hide VmOk, FreeSpace, At, KeyOf, V.FlagsAt;
    var w := DestroySpace(v, r);
    forall t | t in w.spaces ensures Within(w.s.m, t, w.spaces[t].areas) {
      assert Within(v.s.m, t, v.spaces[t].areas);
      forall a: nat | PageAligned(a) && a < USER_TOP ensures InArea(w.s.m, t, w.spaces[t].areas, a) {
        assert InArea(v.s.m, t, v.spaces[t].areas, a);
        DestroyKeepsOthers(v, r, t, KeyOf(a));
      }
    }
  }

  // ------------------------------------------------------------------- runs

  /** The frame is stranded by a clone that fails. */
  ghost predicate Strands(v: Vm, op: Op, f: nat)
    requires VmOk(v) && Legal(v, op)
  {
    op.OClone? && Stranded(v, op.r, f)
  }

  /** One operation loses exactly what it strands, and keeps every page within its areas. */
  lemma StepLoses(v: Vm, op: Op, f: nat)
    requires VmOk(v) && Legal(v, op) && AllWithin(v)
    ensures AllWithin(Step(v, op)) && (Lost(Step(v, op), f) <==> Lost(v, f) || Strands(v, op, f))
  {
    hide VmOk, CreateSpace, MapRegion, UnmapTo, Clone, DestroySpace, Lost, Stranded, Within;
    match op
    case OCreate => CreateLoses(v, f); CreateWithin(v);
    case OMap(r, x) => MapLoses(v, r, x, f); MapWithin(v, r, x);
    case OUnmap(r, lo, size) =>
      AlignedSum(lo, size);
      UnmapLoses(v, r, lo, lo + size, f);
      UnmapWithin(v, r, lo, lo + size);
    case OClone(r) => CloneLoses(v, r, f); CloneWithin(v, r);
    case ODestroy(r) =>
      DestroyLoses(v, r, f);
      NoneUncovered(v, r, f);
      DestroyWithin(v, r);
  }

  lemma NoneUncovered(v: Vm, r: nat, f: nat)
    requires r in v.spaces && AllWithin(v)
    ensures !Uncovered(v.s.m, r, v.spaces[r].areas, f)
  {
    hide At, KeyOf, V.FlagsAt;
    assert Within(v.s.m, r, v.spaces[r].areas);
    forall a: nat | PageAligned(a) && a < USER_TOP ensures !Outside(v.s.m, r, v.spaces[r].areas, f, a) {
      assert InArea(v.s.m, r, v.spaces[r].areas, a);
    }
  }

  /** Some clone of the run strands the frame. */
  ghost predicate StrandedIn(v: Vm, run: seq<Op>, f: nat)
    requires VmOk(v) && LegalRun(v, run)
    decreases |run|
  {
    run != [] && (Strands(v, run[0], f) || (StepOk(v, run[0]); StrandedIn(Step(v, run[0]), run[1..], f)))
  }

  /**
   Over every run of creations, region maps and unmaps, clones and destructions, whatever
   fails on the way, no frame is lost and none appears from nowhere, but for the copies
   that a failed clone strands.
   */
  lemma {:induction false} RunConserves(v: Vm, run: seq<Op>, f: nat)
    requires VmOk(v) && LegalRun(v, run) && AllWithin(v)
    ensures AllWithin(Run(v, run)) && (Lost(Run(v, run), f) <==> Lost(v, f) || StrandedIn(v, run, f))
    decreases |run|
  {
    hide VmOk, Legal, Step, Lost, Strands, AllWithin;
    if run != [] {
      StepOk(v, run[0]);
      StepLoses(v, run[0], f);
      RunConserves(Step(v, run[0]), run[1..], f);
    }
  }
}
