/**
 The page loops of kernel/mm/vmm.c as they run, over the page tables and the area
 lists changed in place.
 */
module VmObject {

  import opened Common
  import opened Paging
  import opened PagingOps
  import opened PagingTree
  import opened PagingObject
  import opened VmPages
  import opened VmRecords
  import opened Vmm
  import opened VmSpaces
  import opened VmRegions
  import opened VmLife
  import opened VmClone
  import V = Vma

  class Spaces {
    const pt: PageTables
    const kernel: nat
    var data: map<nat, Content>
    var spaces: map<nat, Space>

    constructor (pt: PageTables, kernel: nat)
      ensures this.pt == pt && this.kernel == kernel && data == map[] && spaces == map[]
    {
      this.pt, this.kernel, data, spaces := pt, kernel, map[], map[];
    }

    ghost function Here(): Phys
      reads this, pt
    {
      Phys(pt.Value(), data)
    }

    ghost function Value(): Vm
      reads this, pt
    {
      Vm(Here(), spaces, kernel)
    }

    /** One turn of the page loops: a frame from the pool, mapped and filled. */
    method NewPage(r: nat, k: Key, flags: Flags, c: Content) returns (ok: bool)
      requires Wf(Here().m) && IsRoot(Here().m, r)
      modifies this`data, pt
      ensures (Here(), ok) == old(MapNew(Here(), r, k, flags, c))
    {
      hide Injective, TableOk, Map;
      if pt.pool == [] { return false; }
      ghost var m := pt.Value();
      PoolWf(m, Pop(m));
      var f := pt.pool[0];
      pt.pool := pt.pool[1..];
      ok := pt.MapPage(r, k, f, flags);
      if ok {
        data := data[f := c];
      } else {
        pt.pool := pt.pool + [f];
      }
    }

    /** `paging_get_pte` and the test for PRESENT. */
    method Present(r: nat, k: Key) returns (x: Xlat)
      requires Wf(Here().m) && Plain(Here().m, r) && User(k)
      modifies pt
      ensures Here() == old(Here()) && x == At(Here().m, r, k)
    {
      hide Wf;
      PlainPath(Here().m, r, k);
      TransIsLeaf(Here().m, r, k);
      var leaf := pt.FindLeaf(r, k, false);
      if leaf.None? { return NoMap; }
      LeafLevel(pt.Value(), r, k);
      var e := pt.tables[leaf.value].slots[k.i1];
      assert Meet(OPEN, e.flags) == e.flags;
      x := if e.present then Page(e.frame, e.flags) else NoMap;
    }

    /** One turn of the unmap loops: the frame goes back and the page is unmapped. */
    method FreePage(r: nat, k: Key, ghost R: set<nat>)
      requires VInv(Here().m, R, kernel) && r in R && User(k)
      modifies pt
      ensures IsRoot(old(Here()).m, r) && Wf(old(Here()).m)
      ensures Here() == FreeAt(old(Here()), r, k) && VInv(Here().m, R, kernel)
    {
      hide Wf, Unmap;
      RootIn(Here().m, R, kernel, r);
      PlainPath(Here().m, r, k);
      FreeAtInv(Here(), R, kernel, r, k);
      UnmapSpec(Here().m, r, k, r, k);
      UnmapFrames(Here().m, r, k);
      var x := Present(r, k);
      var gone := pt.UnmapPage(r, k);
      if x.Page? { pt.pool := pt.pool + [x.frame]; }
      if !gone { UnmapMissing(old(Here()).m, r, k); }
    }

    /** The page loop over `lo..hi`. */
    method FreeRange(r: nat, lo: nat, hi: nat, ghost R: set<nat>)
      requires VInv(Here().m, R, kernel) && r in R && hi <= USER_TOP
      requires forall i | 0 <= i < |PageKeys(lo, hi)| :: User(PageKeys(lo, hi)[i])
      modifies pt
      ensures Here() == FreeKeys(old(Here()), R, kernel, r, PageKeys(lo, hi)) && VInv(Here().m, R, kernel)
    {
      hide VInv, User, KeyOf, FreeAt;
      ghost var s := Here();
      ghost var ks := PageKeys(lo, hi);
      var n := PageCount(lo, hi);
      var i := 0;
      assert ks[0..] == ks;
      while i < n
        invariant 0 <= i <= n && VInv(Here().m, R, kernel)
        invariant forall j | 0 <= j < |ks[i..]| :: User(ks[i..][j])
        invariant FreeKeys(s, R, kernel, r, ks) == FreeKeys(Here(), R, kernel, r, ks[i..])
      {
        RootIn(Here().m, R, kernel, r);
        assert ks[i..][0] == KeyAt(lo, i) && ks[i..][1..] == ks[i + 1..];
        FreePage(r, KeyAt(lo, i), R);
        i := i + 1;
      }
      assert ks[n..] == [];
    }

    /** One overlapping area of `vmm_unmap_region`: what is left of it, and of its record. */
    method UnmapOverlap(r: nat, v: V.Area, f: nat, lo: nat, hi: nat, ghost R: set<nat>) returns (left: seq<V.Area>, recs: seq<nat>)
      requires VInv(Here().m, R, kernel) && r in R && v.end <= USER_TOP
      modifies pt
      ensures (Here(), left, recs) == UnmapOne(old(Here()), R, kernel, r, v, f, lo, hi)
    {
      hide VInv, User, KeyOf, PageKeys, Wf;
      var us := if v.start > lo then v.start else lo;
      var ue := if v.end < hi then v.end else hi;
      PageKeysUser(us, ue);
      FreeRange(r, us, ue, R);
      if us == v.start && ue == v.end {
        left, recs := [], [];
        pt.pool := pt.pool + [f];
      } else if us == v.start {
        left, recs := [v.(start := ue)], [f];
      } else if ue == v.end {
        left, recs := [v.(end := us)], [f];
      } else if pt.pool != [] {
        left, recs := [v.(end := us), v.(start := ue)], [f, pt.pool[0]];
        pt.pool := pt.pool[1..];
      } else {
        left, recs := [v], [f];
      }
    }

    /** `vmm_unmap_region`: area after area until one starts beyond the range. */
    method UnmapArea(r: nat, lo: nat, size: nat)
      requires VmOk(Value()) && r in spaces
      modifies this`spaces, pt
      ensures Value() == old(UnmapRegion(Value(), r, lo, size))
    {
      hide VInv, AreaOk, UnmapOne, Off, Walked;
      var hi := (lo + size) % V.U64;
      AreasOf(Value(), r);
      ghost var s := Here();
      ghost var R := spaces.Keys;
      var p := spaces[r];
      var done: seq<V.Area>, kept: seq<nat> := [], [];
      var rest, recs := p.areas, p.recs;
      ghost var all := UnmapWalk(s, R, kernel, r, rest, recs, lo, hi);
      WalkedNone(all);
      while rest != [] && rest[0].start < hi
        invariant AreasOk(rest) && |recs| == |rest| && VInv(Here().m, R, kernel) && Held(Here().m, R, recs)
        invariant spaces == old(spaces) && data == old(data)
        invariant Walked(all, UnmapWalk(Here(), R, kernel, r, rest, recs, lo, hi), done, kept)
        decreases |rest|
      {
        AreasHead(rest);
        HeldHead(Here().m, R, recs);
        ghost var m := Here().m;
        ghost var x := UnmapWalk(Here(), R, kernel, r, rest, recs, lo, hi);
        var left, more := [rest[0]], [recs[0]];
        if rest[0].end > lo {
          UnmapOneInv(Here(), R, kernel, r, rest[0], recs[0], lo, hi);
          left, more := UnmapOverlap(r, rest[0], recs[0], lo, hi, R);
          RestHeld(m, Here().m, R, recs);
        }
        WalkedOn(all, x, UnmapWalk(Here(), R, kernel, r, rest[1..], recs[1..], lo, hi), done, kept, left, more);
        done, kept, rest, recs := done + left, kept + more, rest[1..], recs[1..];
      }
      WalkedAll(all, Here(), rest, recs, done, kept);
      spaces := spaces[r := Space(done + rest, kept + recs, p.frame)];
    }

    /** `vmm_map_region`, with its page loop and rollback. */
    method MapArea(r: nat, x: V.Area) returns (ok: bool)
      requires VmOk(Value()) && r in spaces && AreaOk(x) && x.start < x.end
      modifies this, pt
      ensures (Value(), ok) == old(MapRegion(Value(), r, x))
    {
      hide VInv, User, KeyOf, V.Ok, MapNew, AddRecord, UnmapTo, SpaceOk;
      AreasOf(Value(), r);
      if V.Intersect(spaces[r].areas, x.start, x.end) || pt.pool == [] { return false; }
      ghost var v := Value();
      ghost var R := spaces.Keys;
      PopulateOk(v, r, x);
      PageKeysUser(x.start, x.end);
      PopInv(v.s.m, R, kernel);
      spaces := spaces[r := AddRecord(spaces[r], x, pt.pool[0])];
      pt.pool := pt.pool[1..];
      ghost var w := NewArea(v, r, x);
      assert Value() == w;
      var n := PageCount(x.start, x.end);
      var i := 0;
      while i < n
        invariant 0 <= i <= n && VInv(Here().m, R, kernel) && spaces == w.spaces
        invariant MapZeroed(w.s, R, kernel, r, x.start, 0, n, PteFlags(x.flags))
               == MapZeroed(Here(), R, kernel, r, x.start, i, n, PteFlags(x.flags))
      {
        RootIn(Here().m, R, kernel, r);
        MapNewInv(Here(), R, kernel, r, KeyAt(x.start, i), PteFlags(x.flags), Blank());
        var got := NewPage(r, KeyAt(x.start, i), PteFlags(x.flags), Blank());
        if !got {
          assert Populate(v, r, x) == (Value(), i);
          UnmapArea(r, x.start, PAGE_SIZE * i);
          return false;
        }
        i := i + 1;
      }
      assert Populate(v, r, x) == (Value(), n);
      ok := true;
    }

    /** The page loop of the clone, over one area. */
    method CopyArea(src: nat, dst: nat, x: V.Area, ghost R: set<nat>) returns (ok: bool)
      requires VInv(Here().m, R, kernel) && src in R && dst in R && x.end <= USER_TOP
      requires forall i | 0 <= i < |PageKeys(x.start, x.end)| :: User(PageKeys(x.start, x.end)[i])
      modifies this`data, pt
      ensures (Here(), ok) == CopyKeys(old(Here()), R, kernel, src, dst, PageKeys(x.start, x.end))
    {
      hide VInv, User, KeyOf, MapNew, At;
      ghost var s := Here();
      ghost var ks := PageKeys(x.start, x.end);
      var n := PageCount(x.start, x.end);
      var i := 0;
      assert ks[0..] == ks;
      while i < n
        invariant 0 <= i <= n && VInv(Here().m, R, kernel)
        invariant forall j | 0 <= j < |ks[i..]| :: User(ks[i..][j])
        invariant CopyKeys(s, R, kernel, src, dst, ks) == CopyKeys(Here(), R, kernel, src, dst, ks[i..])
      {
        var k := KeyAt(x.start, i);
        RootIn(Here().m, R, kernel, dst);
        assert ks[i..][0] == k && ks[i..][1..] == ks[i + 1..];
        PlainIn(Here().m, R, kernel, src);
        var p := Present(src, k);
        if p.Page? {
          var c := Read(Phys(Mem(pt.tables, pt.pool), data), p.frame);
          MapNewInv(Here(), R, kernel, dst, k, p.flags, c);
          var got := NewPage(dst, k, p.flags, c);
          if !got { return false; }
        }
        i := i + 1;
      }
      assert ks[n..] == [];
      ok := true;
    }

    /** One area of the clone: its record, its pages, and the record back when they cannot be made. */
    method CloneOne(src: nat, dst: nat, x: V.Area) returns (ok: bool)
      requires VmOk(Value()) && src in spaces && dst in spaces && x.end <= USER_TOP
      modifies this, pt
      ensures (Value(), ok) == old(CloneArea(Value(), src, dst, x))
    {
      hide VInv, User, KeyOf, PageKeys, CopyKeys, AddRecord, SpaceOk;
      AreasOf(Value(), dst);
      if pt.pool == [] { return false; }
      PopInv(Here().m, spaces.Keys, kernel);
      PageKeysUser(x.start, x.end);
      var f := pt.pool[0];
      pt.pool := pt.pool[1..];
      ok := CopyArea(src, dst, x, spaces.Keys);
      if ok {
        spaces := spaces[dst := AddRecord(spaces[dst], x, f)];
      } else {
        pt.pool := pt.pool + [f];
      }
    }

    /** The page loop of `vmm_destroy_address_space`, over one area: frames are freed, entries stay. */
    method ReturnFrames(r: nat, lo: nat, hi: nat, ghost m: Mem, ghost head: seq<nat>, ghost tail: seq<nat>)
      requires Wf(m) && Plain(m, r) && hi <= USER_TOP && pt.Value() == m.(pool := m.pool + head)
      requires PoolOk(m.(pool := m.pool + (head + FramesAt(m, r, PageKeys(lo, hi)) + tail)))
      modifies pt
      ensures pt.Value() == m.(pool := m.pool + (head + FramesAt(m, r, PageKeys(lo, hi))))
    {
      hide Wf, Plain, PoolOk, At, KeyOf, FramesAt;
      ghost var ks := PageKeys(lo, hi);
      var n := PageCount(lo, hi);
      PageKeysUser(lo, hi);
      var i := 0;
      NoFrames(m, r);
      assert ks[..0] == [] && head + [] == head;
      while i < n
        invariant 0 <= i <= n && pt.Value() == m.(pool := m.pool + (head + FramesAt(m, r, ks[..i])))
      {
        var k := KeyAt(lo, i);
        assert ks == ks[..i] + ks[i..] && ks[..i + 1] == ks[..i] + [k];
        FramesConcat(m, r, ks[..i], ks[i..]);
        FramesConcat(m, r, ks[..i], [k]);
        ghost var a, b := head + FramesAt(m, r, ks[..i]), FramesAt(m, r, ks[i..]) + tail;
        assert head + FramesAt(m, r, ks) + tail == a + b;
        PartReturned(m, r, a, b, k);
        var x := Present(r, k);
        OneFrame(m, r, k);
        assert m.pool + (a + FramesAt(m, r, [k])) == (m.pool + a) + FramesAt(m, r, [k]);
        assert head + (FramesAt(m, r, ks[..i]) + FramesAt(m, r, [k])) == a + FramesAt(m, r, [k]);
        if x.Page? { pt.pool := pt.pool + [x.frame]; }
        i := i + 1;
      }
      assert ks[..n] == ks;
    }

    /** The loop over the areas of a dying space: pages, then the record. */
    method ReturnAll(r: nat, p: Space, ghost m: Mem)
      requires Wf(m) && Plain(m, r) && AreasOk(p.areas) && |p.recs| == |p.areas| && pt.Value() == m
      requires PoolOk(Emptied(m, r, p))
      modifies pt
      ensures pt.Value() == Emptied(m, r, p)
    {
      hide Wf, Plain, PoolOk, KeyOf, PageKeys, FramesAt, AreaOk;
      ghost var head: seq<nat> := [];
      var rest, recs := p.areas, p.recs;
      assert m.pool + [] == m.pool;
      while rest != []
        invariant AreasOk(rest) && |recs| == |rest| && head + Returned(m, r, rest, recs) == Returned(m, r, p.areas, p.recs)
        invariant pt.Value() == m.(pool := m.pool + head)
        decreases |rest|
      {
        AreasHead(rest);
        ghost var a := FramesAt(m, r, PageKeys(rest[0].start, rest[0].end));
        ghost var b := [recs[0]] + Returned(m, r, rest[1..], recs[1..]);
        assert head + Returned(m, r, rest, recs) == head + a + b;
        ReturnFrames(r, rest[0].start, rest[0].end, m, head, b);
        pt.pool := pt.pool + [recs[0]];
        assert (m.pool + (head + a)) + [recs[0]] == m.pool + (head + a + [recs[0]]);
        assert head + a + b == (head + a + [recs[0]]) + Returned(m, r, rest[1..], recs[1..]);
        head := head + a + [recs[0]];
        rest, recs := rest[1..], recs[1..];
      }
      assert head + [] == head;
    }

    /** `vmm_destroy_address_space` for the last reference. */
    method Destroy(r: nat)
      requires VmOk(Value()) && r in spaces
      modifies this, pt
      ensures Value() == old(DestroySpace(Value(), r))
    {
      hide VInv, Returned, DestroyRoot, AreasOk, PoolOk, Held, Apart;
      ghost var m := pt.Value();
      AreasOf(Value(), r);
      PlainIn(m, spaces.Keys, kernel, r);
      EmptiedOk(m, spaces.Keys, kernel, r, spaces[r]);
      ReturnAll(r, spaces[r], m);
      pt.DestroyTop(r);
      pt.pool := pt.pool + [spaces[r].frame];
      spaces := spaces - {r};
    }

    /** `vmm_create_address_space`. */
    method NewSpace() returns (c: Option<nat>)
      requires VmOk(Value()) && pt.kernel == Some(kernel)
      modifies this, pt
      ensures (Value(), c) == old(CreateSpace(Value()))
    {
      hide Injective, PoolOk, SpaceOk, Apart;
      if pt.pool == [] { return None; }
      PopInv(Here().m, spaces.Keys, kernel);
      var f := pt.pool[0];
      pt.pool := pt.pool[1..];
      RootIn(pt.Value(), spaces.Keys, kernel, kernel);
      KernelOk(pt.Value(), kernel);
      c := pt.CreateTop();
      if c.Some? {
        spaces := spaces[c.value := Space([], [], f)];
      } else {
        pt.pool := pt.pool + [f];
      }
    }

    /** `vmm_clone_address_space`. */
    method CloneSpace(src: nat) returns (c: Option<nat>)
      requires VmOk(Value()) && src in spaces && pt.kernel == Some(kernel)
      modifies this, pt
      ensures (Value(), c) == old(Clone(Value(), src))
    {
      hide VmOk, AreasOk, AreaOk, CreateSpace, DestroySpace, CloneArea, V.Intersect, V.Insert;
      ghost var v := Value();
      CreateSpaceSpec(v);
      c := NewSpace();
      if c.None? { CloneNoRoom(v, src); return; }
      ghost var w := Value();
      var dst := c.value;
      CloneParts(v, src);
      var todo := spaces[src].areas;
      while todo != []
        invariant VmOk(Value()) && spaces.Keys == w.spaces.Keys && AreasOk(spaces[dst].areas + todo)
        invariant CloneAreas(w, src, dst, w.spaces[src].areas) == CloneAreas(Value(), src, dst, todo)
        decreases |todo|
      {
        AreaNext(spaces[dst].areas, todo);
        UserEnd(todo[0]);
        CloneAreaOk(Value(), src, dst, todo[0]);
        var ok := CloneOne(src, dst, todo[0]);
        if !ok {
          assert CloneAreas(w, src, dst, w.spaces[src].areas) == (Value(), false);
          Destroy(dst);
          return None;
        }
        todo := todo[1..];
      }
    }
  }

  /** A walk so far, and the walk over the rest. */
  predicate Walked(all: (Phys, seq<V.Area>, seq<nat>), rest: (Phys, seq<V.Area>, seq<nat>), done: seq<V.Area>, kept: seq<nat>) {
    all == (rest.0, done + rest.1, kept + rest.2)
  }

  lemma WalkedNone(all: (Phys, seq<V.Area>, seq<nat>))
    ensures Walked(all, all, [], [])
  {
    assert [] + all.1 == all.1 && [] + all.2 == all.2;
  }

  lemma WalkedAll(all: (Phys, seq<V.Area>, seq<nat>), s: Phys, rest: seq<V.Area>, recs: seq<nat>, done: seq<V.Area>, kept: seq<nat>)
    requires Walked(all, (s, rest, recs), done, kept)
    ensures all == (s, done + rest, kept + recs)
  {
  }

  lemma WalkedOn(all: (Phys, seq<V.Area>, seq<nat>), x: (Phys, seq<V.Area>, seq<nat>), y: (Phys, seq<V.Area>, seq<nat>),
                 done: seq<V.Area>, kept: seq<nat>, p: seq<V.Area>, d: seq<nat>)
    requires Walked(all, x, done, kept) && x == (y.0, p + y.1, d + y.2)
    ensures Walked(all, y, done + p, kept + d)
  {
    assert done + (p + y.1) == done + p + y.1 && kept + (d + y.2) == kept + d + y.2;
  }

  lemma OneFrame(m: Mem, r: nat, k: Key)
    ensures FramesAt(m, r, [k]) == if At(m, r, k).Page? then [At(m, r, k).frame] else []
  {
    assert FramesAt(m, r, [k][1..]) == [];
  }

  lemma PlainIn(m: Mem, R: set<nat>, kernel: nat, r: nat)
    requires VInv(m, R, kernel) && r in R
    ensures Wf(m) && Plain(m, r)
  {
  }

  /** With part of a space's frames returned, the tables still read as before. */
  lemma PartReturned(m: Mem, r: nat, a: seq<nat>, b: seq<nat>, k: Key)
    requires Wf(m) && Plain(m, r) && PoolOk(m.(pool := m.pool + (a + b)))
    ensures var n := m.(pool := m.pool + a); Wf(n) && Plain(n, r) && At(n, r, k) == At(m, r, k)
  {
    hide Wf, Trans, PathFlags, Huge, At;
    var full := m.pool + (a + b);
    var n := m.(pool := m.pool + a);
    assert forall i | 0 <= i < |n.pool| :: n.pool[i] == full[i];
    assert PoolOk(n);
    PoolWf(m, n);
    forall l | User(l) ensures PathFlags(n, r, l) == OPEN && !Huge(n, r, l) { PoolView(m, n, r, l); }
    SamePage(m, n, r, k);
  }

  lemma SamePage(m: Mem, n: Mem, r: nat, k: Key)
    requires Wf(m) && n.tables == m.tables && PoolOk(n) && r in m.tables
    ensures At(n, r, k) == At(m, r, k)
  {
    PoolView(m, n, r, k);
  }

  lemma UnmapMissing(m: Mem, r: nat, k: Key)
    requires Wf(m) && IsRoot(m, r) && !Unmap(m, r, k).1
    ensures Unmap(m, r, k).0 == m
  {
  }
}
