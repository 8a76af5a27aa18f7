/**
 Cloning address spaces for fork (kernel/mm/vmm.c), and the isolation of user
 memory over every run.
 */
module VmClone {

  import opened Common
  import opened Paging
  import opened VmPages
  import opened VmRecords
  import opened Vmm
  import opened VmSpaces
  import opened VmRegions
  import opened VmLife
  import V = Vma

  // --------------------------------------------------------------- one area

  /** One area of the clone: a record, then copies of the pages; the record goes back when they cannot be made. */
  ghost function CloneArea(v: Vm, src: nat, dst: nat, x: V.Area): (Vm, bool)
    requires VmOk(v) && src in v.spaces && dst in v.spaces && x.end <= USER_TOP
  {
    if v.s.m.pool == [] then (v, false)
    else
      AreasOf(v, dst);
      PopInv(v.s.m, v.spaces.Keys, v.kernel);
      PageKeysUser(x.start, x.end);
      var f := v.s.m.pool[0];
      var (z, ok) := CopyKeys(v.s.(m := Pop(v.s.m)), v.spaces.Keys, v.kernel, src, dst, PageKeys(x.start, x.end));
      if ok then (v.(s := z, spaces := v.spaces[dst := AddRecord(v.spaces[dst], x, f)]), true)
      else (v.(s := z.(m := Push(z.m, f))), false)
  }

  /** The copying of one area's pages, once its record has been taken. */
  lemma AreaCopied(v: Vm, src: nat, dst: nat, x: V.Area, t: nat, k: Key)
    requires VmOk(v) && src in v.spaces && dst in v.spaces && src != dst && x.end <= USER_TOP && v.s.m.pool != []
    requires t in v.spaces || t == v.kernel
    ensures VInv(Pop(v.s.m), v.spaces.Keys, v.kernel)
    ensures forall i | 0 <= i < |PageKeys(x.start, x.end)| :: User(PageKeys(x.start, x.end)[i])
    ensures var (z, ok) := CopyKeys(v.s.(m := Pop(v.s.m)), v.spaces.Keys, v.kernel, src, dst, PageKeys(x.start, x.end));
      && VInv(z.m, v.spaces.Keys, v.kernel) && Onward(v.s, z)
      && (forall g | Off(v.s.m, v.spaces.Keys, g) || g == v.s.m.pool[0] :: Off(z.m, v.spaces.Keys, g))
      && (t != dst ==> At(z.m, t, k) == At(v.s.m, t, k))
      && (ok && k in PageKeys(x.start, x.end) && At(v.s.m, src, k).Page? ==> Copied(v.s, z, src, dst, k))
      && (k !in PageKeys(x.start, x.end) || At(v.s.m, src, k).NoMap? ==> At(z.m, dst, k) == At(v.s.m, dst, k))
  {
    hide VmOk, VInv, CopyKeys, PageKeys, User, Off, At;
    AreasOf(v, dst);
    PopInv(v.s.m, v.spaces.Keys, v.kernel);
    PageKeysUser(x.start, x.end);
    var s := v.s.(m := Pop(v.s.m));
    CopyKeysSpec(s, v.spaces.Keys, v.kernel, src, dst, PageKeys(x.start, x.end), t, k);
    CopyKeysOff(s, v.spaces.Keys, v.kernel, src, dst, PageKeys(x.start, x.end));
  }

  lemma CloneAreaOk(v: Vm, src: nat, dst: nat, x: V.Area)
    requires VmOk(v) && src in v.spaces && dst in v.spaces && src != dst && AreaOk(x) && x.start < x.end
    requires !V.Intersect(v.spaces[dst].areas, x.start, x.end)
    ensures var (w, ok) := CloneArea(v, src, dst, x);
      && VmOk(w) && w.spaces.Keys == v.spaces.Keys && w.kernel == v.kernel && Onward(v.s, w.s)
      && (forall t | t in v.spaces && t != dst :: w.spaces[t] == v.spaces[t])
      && w.spaces[dst].areas == if ok then V.Insert(v.spaces[dst].areas, x) else v.spaces[dst].areas
  {
    hide VmOk, VInv, CopyKeys, PageKeys, User, Off, At, AreaOk, V.Intersect, V.Insert, Onward, AreasOk;
    if v.s.m.pool == [] {
      OnwardSelf(v.s);
    } else {
      PoolIn(v);
      UserEnd(x);
      AreaCopied(v, src, dst, x, v.kernel, Key(0, 0, 0, 0));
      var (w, ok) := CloneArea(v, src, dst, x);
      if ok { CloneAreaKept(v, src, dst, x); } else { CloneAreaUndone(v, src, dst, x); }
    }
  }

  lemma UserEnd(x: V.Area)
    requires AreaOk(x)
    ensures x.end <= USER_TOP
  {
  }

  lemma OnwardSelf(s: Phys)
    ensures Onward(s, s)
  {
  }

  lemma CloneAreaKept(v: Vm, src: nat, dst: nat, x: V.Area)
    requires VmOk(v) && src in v.spaces && dst in v.spaces && src != dst && AreaOk(x) && x.start < x.end
    requires !V.Intersect(v.spaces[dst].areas, x.start, x.end) && v.s.m.pool != [] && CloneArea(v, src, dst, x).1
    ensures VmOk(CloneArea(v, src, dst, x).0)
  {
    hide VmOk, VInv, CopyKeys, PageKeys, User, Off, At, AreaOk, V.Intersect, V.Insert, Onward, AddRecord, Own, AreasOk;
    UserEnd(x);
    AreasOf(v, dst);
    AreaCopied(v, src, dst, x, v.kernel, Key(0, 0, 0, 0));
    var R := v.spaces.Keys;
    var w := CloneArea(v, src, dst, x).0;
    var f := v.s.m.pool[0];
    OffNotFree(v.s.m, R, f);
    if f in Own(v.spaces[dst]) { OwnOff(v.s.m, R, v.spaces[dst], f); }
    HeldKept(v.s.m, w.s.m, R, Own(v.spaces[dst]));
    AddRecordOk(w.s.m, R, v.spaces[dst], x, f);
    Replaced(v, w, dst);
  }

  lemma CloneAreaUndone(v: Vm, src: nat, dst: nat, x: V.Area)
    requires VmOk(v) && src in v.spaces && dst in v.spaces && src != dst && AreaOk(x) && x.start < x.end
    requires v.s.m.pool != [] && !CloneArea(v, src, dst, x).1
    ensures var w := CloneArea(v, src, dst, x).0; VmOk(w) && Onward(v.s, w.s)
  {
    hide VmOk, VInv, CopyKeys, PageKeys, User, Off, At, AreaOk;
    UserEnd(x);
    AreasOf(v, dst);
    AreaCopied(v, src, dst, x, v.kernel, Key(0, 0, 0, 0));
    var R := v.spaces.Keys;
    var w := CloneArea(v, src, dst, x).0;
    var f := v.s.m.pool[0];
    OffNotFree(v.s.m, R, f);
    PushInv(CopyKeys(v.s.(m := Pop(v.s.m)), R, v.kernel, src, dst, PageKeys(x.start, x.end)).0.m, R, v.kernel, f);
    StillOk(v, w.s);
  }

  // -------------------------------------------------------------- all areas

  /** Copy area after area; whether all were. */
  ghost function CloneAreas(v: Vm, src: nat, dst: nat, todo: seq<V.Area>): (Vm, bool)
    requires VmOk(v) && src in v.spaces && dst in v.spaces && src != dst && AreasOk(v.spaces[dst].areas + todo)
    decreases |todo|
  {
    if todo == [] then (v, true)
    else
      AreaNext(v.spaces[dst].areas, todo);
      CloneAreaOk(v, src, dst, todo[0]);
      var (w, ok) := CloneArea(v, src, dst, todo[0]);
      if ok then CloneAreas(w, src, dst, todo[1..]) else (w, false)
  }

  lemma {:induction false} InsertLast(q: seq<V.Area>, x: V.Area)
    requires forall i | 0 <= i < |q| :: q[i].start <= x.start
    ensures V.Insert(q, x) == q + [x]
  {
    if q != [] {
      InsertLast(q[1..], x);
      assert q == [q[0]] + q[1..];
    }
  }

  /** The next area of a list meets none before it and is linked in behind them. */
  lemma AreaNext(p: seq<V.Area>, q: seq<V.Area>)
    requires AreasOk(p + q) && q != []
    ensures AreaOk(q[0]) && q[0].start < q[0].end && !V.Intersect(p, q[0].start, q[0].end)
    ensures V.Insert(p, q[0]) == p + [q[0]] && AreasOk(p + [q[0]] + q[1..]) && AreasOk(p)
  {
    var a := p + q;
    assert a[|p|] == q[0] && AreaOk(a[|p|]);
    assert p + [q[0]] + q[1..] == a;
    forall i | 0 <= i < |p| ensures p[i].end <= q[0].start && p[i].start < p[i].end && AreaOk(p[i]) {
      assert a[i] == p[i] && a[|p|] == q[0] && AreaOk(a[i]);
    }
    assert p == a[..|p|];
    V.IntersectIff(p, q[0].start, q[0].end);
    InsertLast(p, q[0]);
  }

  /** However far the copying gets, every space but the new one is as before, and so are the frames in use. */
  lemma {:induction false} CloneAreasInv(v: Vm, src: nat, dst: nat, todo: seq<V.Area>, t: nat, k: Key)
    requires VmOk(v) && src in v.spaces && dst in v.spaces && src != dst && AreasOk(v.spaces[dst].areas + todo)
    requires (t in v.spaces || t == v.kernel) && t != dst
    ensures var (z, ok) := CloneAreas(v, src, dst, todo);
      && VmOk(z) && z.spaces.Keys == v.spaces.Keys && z.kernel == v.kernel && Onward(v.s, z.s)
      && (forall t | t in v.spaces && t != dst :: z.spaces[t] == v.spaces[t])
      && (ok ==> z.spaces[dst].areas == v.spaces[dst].areas + todo)
      && At(z.s.m, t, k) == At(v.s.m, t, k)
    decreases |todo|
  {
    hide VmOk, CloneArea, AreasOk, V.Intersect, V.Insert, AreaOk, At;
    if todo == [] {
      assert v.spaces[dst].areas + todo == v.spaces[dst].areas;
    } else {
      var q := v.spaces[dst].areas;
      AreaNext(q, todo);
      CloneAreaOk(v, src, dst, todo[0]);
      CloneAreaOthers(v, src, dst, todo[0], t, k);
      var (w, ok) := CloneArea(v, src, dst, todo[0]);
      if ok {
        assert q + [todo[0]] + todo[1..] == q + todo;
        CloneAreasInv(w, src, dst, todo[1..], t, k);
      }
    }
  }

  lemma CloneAreaOthers(v: Vm, src: nat, dst: nat, x: V.Area, t: nat, k: Key)
    requires VmOk(v) && src in v.spaces && dst in v.spaces && src != dst && AreaOk(x)
    requires (t in v.spaces || t == v.kernel) && t != dst
    ensures At(CloneArea(v, src, dst, x).0.s.m, t, k) == At(v.s.m, t, k)
  {
    hide VmOk, VInv, CopyKeys, PageKeys, User, Off, At, Onward, Copied;
    if v.s.m.pool != [] {
      AreasOf(v, dst);
      AreaCopied(v, src, dst, x, t, k);
      var f := v.s.m.pool[0];
      var (z, ok) := CopyKeys(v.s.(m := Pop(v.s.m)), v.spaces.Keys, v.kernel, src, dst, PageKeys(x.start, x.end));
      PushInv(z.m, v.spaces.Keys, v.kernel, f);
    }
  }

  /** One copied area's pages in the child. */
  lemma CloneAreaPage(v: Vm, src: nat, dst: nat, x: V.Area, a: nat)
    requires VmOk(v) && src in v.spaces && dst in v.spaces && src != dst && AreaOk(x) && PageAligned(a) && a < USER_TOP
    ensures var (w, ok) := CloneArea(v, src, dst, x);
      ok ==> if V.Has(x, a) && At(v.s.m, src, KeyOf(a)).Page? then Copied(v.s, w.s, src, dst, KeyOf(a))
             else At(w.s.m, dst, KeyOf(a)) == At(v.s.m, dst, KeyOf(a))
  {
    hide VmOk, VInv, CopyKeys, PageKeys, User, Off, At, Onward, KeyOf, Copied;
    if v.s.m.pool != [] {
      AreasOf(v, dst);
      AreaCopied(v, src, dst, x, dst, KeyOf(a));
      PageKeysIff(x.start, x.end, a);
    }
  }

  /** A copy made earlier is still there. */
  lemma CopyStays(s: Phys, w: Vm, z: Phys, src: nat, dst: nat, k: Key)
    requires VmOk(w) && dst in w.spaces && User(k) && Onward(w.s, z) && At(z.m, dst, k) == At(w.s.m, dst, k)
    requires Copied(s, w.s, src, dst, k)
    ensures Copied(s, z, src, dst, k)
  {
    hide At;
    InUse(w.s.m, w.spaces.Keys, w.kernel, dst, k);
  }

  /** A copy made later starts from the same page. */
  lemma CopyLater(s: Phys, w: Vm, z: Phys, src: nat, dst: nat, k: Key)
    requires Onward(s, w.s) && At(w.s.m, src, k) == At(s.m, src, k) && Copied(w.s, z, src, dst, k)
    requires At(s.m, src, k).Page? ==> At(s.m, src, k).frame !in s.m.pool
    ensures Copied(s, z, src, dst, k)
  {
    hide At;
  }

  lemma {:induction false} CloneAreasPage(v: Vm, src: nat, dst: nat, todo: seq<V.Area>, a: nat)
    requires VmOk(v) && src in v.spaces && dst in v.spaces && src != dst && AreasOk(v.spaces[dst].areas + todo)
    requires PageAligned(a) && a < USER_TOP
    ensures var (z, ok) := CloneAreas(v, src, dst, todo);
      ok ==> if V.FlagsAt(todo, a).Some? && At(v.s.m, src, KeyOf(a)).Page? then Copied(v.s, z.s, src, dst, KeyOf(a))
             else At(z.s.m, dst, KeyOf(a)) == At(v.s.m, dst, KeyOf(a))
    decreases |todo|
  {
    hide VmOk, CloneArea, AreasOk, V.Intersect, V.Insert, AreaOk, At, KeyOf, Copied, V.Has, PageAligned, Onward;
    if todo != [] {
      var k := KeyOf(a);
      var q := v.spaces[dst].areas;
      AreaNext(q, todo);
      CloneAreaOk(v, src, dst, todo[0]);
      var (w, ok) := CloneArea(v, src, dst, todo[0]);
      if ok {
        UserKey(a);
        CloneAreaPage(v, src, dst, todo[0], a);
        CloneAreaOthers(v, src, dst, todo[0], src, k);
        CloneAreasPage(w, src, dst, todo[1..], a);
        OnlyOne(q, todo, a);
        PageTaken(v, src, k);
        var z := CloneAreas(w, src, dst, todo[1..]).0;
        CloneAreasInv(w, src, dst, todo[1..], src, k);
        if V.Has(todo[0], a) {
          if At(v.s.m, src, k).Page? && CloneAreas(w, src, dst, todo[1..]).1 { CopyStays(v.s, w, z.s, src, dst, k); }
        } else if V.FlagsAt(todo[1..], a).Some? && At(v.s.m, src, k).Page? && CloneAreas(w, src, dst, todo[1..]).1 {
          CopyLater(v.s, w, z.s, src, dst, k);
        }
      }
    }
  }

  lemma PageTaken(v: Vm, r: nat, k: Key)
    requires VmOk(v) && r in v.spaces && User(k)
    ensures At(v.s.m, r, k).Page? ==> At(v.s.m, r, k).frame !in v.s.m.pool
  {
    hide At, Plain, Wf;
    PoolIn(v);
    if At(v.s.m, r, k).Page? { InUse(v.s.m, v.spaces.Keys, v.kernel, r, k); }
  }

  /** An address of the first area is in none of the others. */
  lemma OnlyOne(p: seq<V.Area>, q: seq<V.Area>, a: nat)
    requires AreasOk(p + q) && q != []
    ensures V.Has(q[0], a) ==> V.FlagsAt(q[1..], a).None?
  {
    if V.Has(q[0], a) {
      forall i | 0 <= i < |q[1..]| ensures a < q[1..][i].start && q[1..][i].start < q[1..][i].end {
        assert (p + q)[|p|] == q[0] && (p + q)[|p| + i + 1] == q[1..][i];
      }
      forall i, j | 0 <= i < j < |q[1..]| ensures q[1..][i].end <= q[1..][j].start {
        assert (p + q)[|p| + i + 1] == q[1..][i] && (p + q)[|p| + j + 1] == q[1..][j];
      }
      V.FlagsAtBelow(q[1..], a);
    }
  }

  // ------------------------------------------------------------------ clone

  /** `vmm_clone_address_space`; a failed clone destroys what it built. */
  ghost function Clone(v: Vm, src: nat): (Vm, Option<nat>)
    requires VmOk(v) && src in v.spaces
  {
    CreateSpaceSpec(v);
    var (w, c) := CreateSpace(v);
    if c.None? then (w, None)
    else
      FirstArea(w, src, c.value);
      var (u, ok) := CloneAreas(w, src, c.value, w.spaces[src].areas);
      CloneAreasInv(w, src, c.value, w.spaces[src].areas, src, Key(0, 0, 0, 0));
      if ok then (u, c) else (DestroySpace(u, c.value), None)
  }

  lemma FirstArea(w: Vm, src: nat, c: nat)
    requires VmOk(w) && src in w.spaces && c in w.spaces && w.spaces[c].areas == []
    ensures AreasOk(w.spaces[c].areas + w.spaces[src].areas)
  {
    hide VmOk, AreasOk;
    AreasOf(w, src);
    assert [] + w.spaces[src].areas == w.spaces[src].areas;
  }

  /** The pieces of a clone up to the point where it succeeds or fails. */
  lemma CloneParts(v: Vm, src: nat)
    requires VmOk(v) && src in v.spaces && |v.s.m.pool| >= 2
    ensures var (w, c) := CreateSpace(v);
      && c.Some? && VmOk(w) && w.spaces == v.spaces[c.value := Space([], [], v.s.m.pool[0])] && c.value !in v.spaces
      && AreasOk(w.spaces[c.value].areas + v.spaces[src].areas)
      && var (u, ok) := CloneAreas(w, src, c.value, v.spaces[src].areas);
      && VmOk(u) && u.spaces.Keys == w.spaces.Keys && Clone(v, src) == if ok then (u, c) else (DestroySpace(u, c.value), None)
  {
    hide VmOk, CloneAreas, CreateSpace, DestroySpace, AreasOk;
    CreateSpaceSpec(v);
    var (w, c) := CreateSpace(v);
    FirstArea(w, src, c.value);
    CloneAreasInv(w, src, c.value, w.spaces[src].areas, src, Key(0, 0, 0, 0));
  }

  /** One space more, with the areas of `src`. */
  predicate SameAreas(before: map<nat, Space>, after: map<nat, Space>, src: nat, c: nat) {
    c in after && src in before && after == before[c := after[c]] && after[c].areas == before[src].areas
  }

  /**
   A successful clone gives the child the parent's areas, under records of its own, and,
   for every page of an area that the parent has, a page with the same flags and bytes
   in a frame that was free before; the child has no other page.
   */
  lemma CloneChild(v: Vm, src: nat, a: nat)
    requires VmOk(v) && src in v.spaces && Clone(v, src).1.Some? && PageAligned(a) && a < USER_TOP
    ensures var (u, c) := Clone(v, src);
      && VmOk(u) && c.value !in v.spaces && SameAreas(v.spaces, u.spaces, src, c.value)
      && (if V.FlagsAt(v.spaces[src].areas, a).Some? && At(v.s.m, src, KeyOf(a)).Page?
          then Copied(v.s, u.s, src, c.value, KeyOf(a))
          else At(u.s.m, c.value, KeyOf(a)) == NoMap)
  {
    hide VmOk, CloneAreas, CreateSpace, DestroySpace, KeyOf, V.FlagsAt, AreasOk, Copied, At;
    CreateSpaceSpec(v);
    if |v.s.m.pool| < 2 { CloneNoRoom(v, src); }
    CloneParts(v, src);
    var (w, c) := CreateSpace(v);
    var q := v.spaces[src].areas;
    CloneAreasPage(w, src, c.value, q, a);
    CloneAreasInv(w, src, c.value, q, src, KeyOf(a));
    UserKey(a);
    CopiedSince(v.s, w.s, CloneAreas(w, src, c.value, q).0.s, src, c.value, KeyOf(a));
  }

  lemma CopiedSince(s: Phys, w: Phys, z: Phys, src: nat, dst: nat, k: Key)
    requires At(w.m, src, k) == At(s.m, src, k) && w.data == s.data && forall f | f in w.m.pool :: f in s.m.pool
    ensures Copied(w, z, src, dst, k) ==> Copied(s, z, src, dst, k)
  {
  }

  /** Different pages of the child are different frames, and none is a frame of any other space. */
  lemma CloneFramesFresh(v: Vm, src: nat, k: Key, t: nat, l: Key)
    requires VmOk(v) && src in v.spaces && Clone(v, src).1.Some? && User(k) && User(l)
    ensures var (u, c) := Clone(v, src);
      t in u.spaces && (t != c.value || k != l) && At(u.s.m, c.value, k).Page? && At(u.s.m, t, l).Page? ==>
        At(u.s.m, c.value, k).frame != At(u.s.m, t, l).frame
  {
    hide CloneAreas, CreateSpace, DestroySpace, Wf, Plain, At, SpaceOk, Apart;
    CreateSpaceSpec(v);
    if |v.s.m.pool| < 2 { CloneNoRoom(v, src); }
    CloneParts(v, src);
    var (u, c) := Clone(v, src);
    assert Isolated(u.s.m, u.spaces.Keys);
  }

  /** Whether or not a clone succeeds, every page of every existing space keeps its frame, flags and bytes. */
  lemma CloneKeepsOthers(v: Vm, src: nat, t: nat, k: Key)
    requires VmOk(v) && src in v.spaces && t in v.spaces && User(k)
    ensures var (u, c) := Clone(v, src);
      && VmOk(u) && t in u.spaces && u.spaces[t] == v.spaces[t] && At(u.s.m, t, k) == At(v.s.m, t, k)
      && (At(v.s.m, t, k).Page? ==> Read(u.s, At(v.s.m, t, k).frame) == Read(v.s, At(v.s.m, t, k).frame))
  {
    hide VmOk, CloneAreas, CreateSpace, AreasOk, At, DestroySpace;
    CreateSpaceSpec(v);
    if |v.s.m.pool| >= 2 {
      CloneParts(v, src);
      var (w, c) := CreateSpace(v);
      CloneAreasInv(w, src, c.value, v.spaces[src].areas, t, k);
      PageTaken(w, t, k);
      var (u, ok) := CloneAreas(w, src, c.value, v.spaces[src].areas);
      if !ok {
        DestroySpaceOk(u, c.value);
        DestroyKeepsOthers(u, c.value, t, k);
      }
    } else {
      CloneNoRoom(v, src);
    }
  }

  lemma CloneNoRoom(v: Vm, src: nat)
    requires VmOk(v) && src in v.spaces && |v.s.m.pool| < 2
    ensures Clone(v, src) == (v, None)
  {
    hide VmOk, CreateSpace, CloneAreas, DestroySpace;
    CreateSpaceSpec(v);
    var (w, c) := CreateSpace(v);
    assert w == v && c == None;
  }

  lemma CloneOk(v: Vm, src: nat)
    requires VmOk(v) && src in v.spaces
    ensures VmOk(Clone(v, src).0)
  {
    CloneKeepsOthers(v, src, src, Key(0, 0, 0, 0));
  }

  // ------------------------------------------------------------------- runs

  datatype Op =
    | OCreate
    | OMap(r: nat, x: V.Area)
    | OUnmap(r: nat, lo: nat, size: nat)
    | OClone(r: nat)
    | ODestroy(r: nat)

  /** User regions on page boundaries; an unmap may reach beyond user space but not wrap. */
  predicate Legal(v: Vm, op: Op) {
    match op
    case OCreate => true
    case OMap(r, x) => r in v.spaces && AreaOk(x) && x.start < x.end
    case OUnmap(r, lo, size) => r in v.spaces && PageAligned(lo) && PageAligned(size) && lo + size < V.U64
    case OClone(r) => r in v.spaces
    case ODestroy(r) => r in v.spaces
  }

  ghost function Step(v: Vm, op: Op): Vm
    requires VmOk(v) && Legal(v, op)
  {
    match op
    case OCreate => CreateSpace(v).0
    case OMap(r, x) => MapRegion(v, r, x).0
    case OUnmap(r, lo, size) => UnmapRegion(v, r, lo, size)
    case OClone(r) => Clone(v, r).0
    case ODestroy(r) => DestroySpace(v, r)
  }

  lemma StepOk(v: Vm, op: Op)
    requires VmOk(v) && Legal(v, op)
    ensures VmOk(Step(v, op))
  {
    hide VmOk, CreateSpace, MapRegion, UnmapTo, Clone, DestroySpace;
    match op
    case OCreate => CreateSpaceSpec(v);
    case OMap(r, x) => MapRegionAreas(v, r, x);
    case OUnmap(r, lo, size) =>
      AlignedSum(lo, size);
      UnmapOk(v, r, lo, lo + size);
    case OClone(r) => CloneOk(v, r);
    case ODestroy(r) => DestroySpaceOk(v, r);
  }

  ghost predicate LegalRun(v: Vm, run: seq<Op>)
    requires VmOk(v)
    decreases |run|
  {
    run == [] || (Legal(v, run[0]) && (StepOk(v, run[0]); LegalRun(Step(v, run[0]), run[1..])))
  }

  ghost function Run(v: Vm, run: seq<Op>): Vm
    requires VmOk(v) && LegalRun(v, run)
    decreases |run|
  {
    if run == [] then v else StepOk(v, run[0]); Run(Step(v, run[0]), run[1..])
  }

  predicate SameFrame(x: Xlat, y: Xlat) {
    x.Page? && y.Page? && x.frame == y.frame
  }

  /**
   After any run of creations, region maps and unmaps, clones and destructions,
   whatever fails on the way: every area list is sorted, disjoint and non-empty per
   area, and every mapped user frame is mapped at one page of one space only, is not
   free and is not a page table.
   */
  lemma {:induction false} RunIsolated(v: Vm, run: seq<Op>, r: nat, k: Key, t: nat, l: Key)
    requires VmOk(v) && LegalRun(v, run) && User(k) && User(l)
    ensures var z := Run(v, run);
      && VmOk(z)
      && (r in z.spaces ==> AreasOk(z.spaces[r].areas))
      && (r in z.spaces && At(z.s.m, r, k).Page? ==> Taken(z.s.m, At(z.s.m, r, k).frame))
      && (r in z.spaces && t in z.spaces && SameFrame(At(z.s.m, r, k), At(z.s.m, t, l)) ==> r == t && k == l)
    decreases |run|
  {
    hide Legal, Step, At, Wf, Plain, Held, Apart;
    if run != [] {
      StepOk(v, run[0]);
      RunIsolated(Step(v, run[0]), run[1..], r, k, t, l);
    }
  }

  /**
   And the frame of every area record and of every structure is kept for it alone: it
   is not free, not a page table, mapped nowhere in user memory and no other record's.
   */
  lemma {:induction false} RunRecords(v: Vm, run: seq<Op>, r: nat, i: nat, t: nat, j: nat)
    requires VmOk(v) && LegalRun(v, run)
    ensures var z := Run(v, run);
      r in z.spaces ==>
        && |z.spaces[r].recs| == |z.spaces[r].areas|
        && (i < |Own(z.spaces[r])| ==> Off(z.s.m, z.spaces.Keys, Own(z.spaces[r])[i]))
        && (t in z.spaces && i < |Own(z.spaces[r])| && j < |Own(z.spaces[t])| && Own(z.spaces[r])[i] == Own(z.spaces[t])[j] ==>
              r == t && i == j)
    decreases |run|
  {
    hide Legal, Step, VInv, Off;
    if run == [] {
      if r in v.spaces {
        assert SpaceOk(v.s.m, v.spaces.Keys, v.spaces[r]);
        if t in v.spaces && i < |Own(v.spaces[r])| && j < |Own(v.spaces[t])| && Own(v.spaces[r])[i] == Own(v.spaces[t])[j] {
          assert Own(v.spaces[r])[i] in Own(v.spaces[r]) && Own(v.spaces[t])[j] in Own(v.spaces[t]);
        }
      }
    } else {
      StepOk(v, run[0]);
      RunRecords(Step(v, run[0]), run[1..], r, i, t, j);
    }
  }
}
