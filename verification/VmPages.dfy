/**
 Physical pages under several address spaces (kernel/mm/vmm.c): frames leave the
 pool when they are mapped and return when they are unmapped.

 `Isolated` says that a mapped user frame is neither free nor a page table, and
 is mapped at one place only.
 */
module VmPages {

  import opened Paging
  import opened PagingOps

  type Content = seq<int>

  function Blank(): Content { seq(4096, _ => 0) }

  datatype Phys = Phys(m: Mem, data: map<nat, Content>)

  /** The bytes of a frame; memory never written reads as zero. */
  function Read(s: Phys, f: nat): Content {
    if f in s.data then s.data[f] else Blank()
  }

  predicate User(k: Key) { k.i4 < 256 }

  // -------------------------------------------------------------- invariant

  /** The user half of a table built by this kernel: no huge pages, fully permissive upper levels. */
  ghost predicate Plain(m: Mem, r: nat)
    requires Wf(m)
  {
    IsRoot(m, r) && forall k | User(k) :: PathFlags(m, r, k) == OPEN && !Huge(m, r, k)
  }

  ghost predicate Taken(m: Mem, f: nat) {
    f !in m.pool && f !in m.tables
  }

  /** The translation of a page of a space, where there is one. */
  ghost function At(m: Mem, r: nat, k: Key): Xlat {
    if Wf(m) && r in m.tables then Trans(m, r, k) else NoMap
  }

  ghost predicate Isolated(m: Mem, R: set<nat>) {
    && (forall r, k | r in R && User(k) && At(m, r, k).Page? :: Taken(m, At(m, r, k).frame))
    && (forall r, k, s, l | r in R && s in R && User(k) && User(l) && At(m, r, k).Page? && At(m, s, l).Page?
          && At(m, r, k).frame == At(m, s, l).frame :: r == s && k == l)
  }

  ghost predicate VInv(m: Mem, R: set<nat>, kernel: nat) {
    && Wf(m) && IsRoot(m, kernel) && kernel !in R
    && (forall r | r in R :: Plain(m, r))
    && Isolated(m, R)
  }

  // ------------------------------------------------------------ pool changes

  lemma {:induction false} PoolView(m: Mem, n: Mem, g: nat, k: Key)
    requires Wf(m) && n.tables == m.tables && PoolOk(n) && g in m.tables
    ensures Wf(n) && Trans(n, g, k) == Trans(m, g, k) && PathFlags(n, g, k) == PathFlags(m, g, k)
    ensures Huge(n, g, k) == Huge(m, g, k) && Missing(n, g, k) == Missing(m, g, k)
    decreases m.tables[g].level
  {
    PoolWf(m, n);
    hide Injective;
    assert TableOk(m, g);
    var T := m.tables[g];
    if Points(T, IdxAt(k, T.level)) { PoolView(m, n, T.slots[IdxAt(k, T.level)].frame, k); }
  }

  lemma PoolWf(m: Mem, n: Mem)
    requires Wf(m) && n.tables == m.tables && PoolOk(n)
    ensures Wf(n)
  {
    forall f | f in n.tables ensures TableOk(n, f) { assert TableOk(m, f); }
  }

  /** Taking the first free frame. */
  function Pop(m: Mem): Mem
    requires m.pool != []
  {
    m.(pool := m.pool[1..])
  }

  /** Returning a frame. */
  function Push(m: Mem, f: nat): Mem {
    m.(pool := m.pool + [f])
  }

  // -------------------------------------------------------------- page steps

  /** Allocate a frame, map it and give it its contents; the frame goes back when no table can be had. */
  ghost function MapNew(s: Phys, r: nat, k: Key, flags: Flags, c: Content): (Phys, bool)
    requires Wf(s.m) && IsRoot(s.m, r)
  {
    if s.m.pool == [] then (s, false)
    else
      PoolWf(s.m, Pop(s.m));
      var f := s.m.pool[0];
      var (m, ok) := Map(Pop(s.m), r, k, f, flags);
      if ok then (Phys(m, s.data[f := c]), true) else (Phys(Push(m, f), s.data), false)
  }

  /** What `MapNew` does to one page of one space. */
  lemma MapNewPage(s: Phys, R: set<nat>, kernel: nat, r: nat, k: Key, flags: Flags, c: Content, q: nat, l: Key)
    requires VInv(s.m, R, kernel) && r in R && User(k) && IsRoot(s.m, r)
    requires IsRoot(s.m, q) && (q in R || q == kernel)
    ensures var (z, ok) := MapNew(s, r, k, flags, c);
      && Wf(z.m) && IsRoot(z.m, q)
      && Trans(z.m, q, l) == (if ok && q == r && l == k then Page(s.m.pool[0], flags) else Trans(s.m, q, l))
      && PathFlags(z.m, q, l) == PathFlags(s.m, q, l) && Huge(z.m, q, l) == Huge(s.m, q, l)
      && (ok ==> s.m.pool != [])
  {
    hide Injective, Trans, PathFlags, Huge, Isolated, Alias;
    if s.m.pool != [] {
      var m0 := Pop(s.m);
      PoolView(s.m, m0, q, l);
      var f := s.m.pool[0];
      MapSpec(m0, r, k, f, flags, q, l);
      var (m, ok) := Map(m0, r, k, f, flags);
      if k.i4 < 256 { AliasUserOnly(m0, r, q, k.i4); }
      PlainPath(s.m, r, k);
      PoolView(s.m, m0, r, k);
      assert Meet(OPEN, flags) == flags;
      if !ok {
        MapPools(s.m, r, k, f, flags);
        PoolView(m, Push(m, f), q, l);
      }
    }
  }

  lemma AliasUserOnly(m: Mem, root: nat, r: nat, i: Idx)
    requires Wf(m) && IsRoot(m, root) && IsRoot(m, r) && i < 256
    ensures Alias(m, root, r, i) <==> r == root
  {
    if Alias(m, root, r, i) && r != root { AliasIsKernel(m, root, r, i); }
  }

  lemma PlainPath(m: Mem, r: nat, k: Key)
    requires Wf(m) && Plain(m, r) && User(k)
    ensures PathFlags(m, r, k) == OPEN && !Huge(m, r, k)
  {
  }

  /** Mapping only takes frames out of the pool, for tables. */
  lemma MapFrames(m: Mem, r: nat, k: Key, f: nat, flags: Flags)
    requires Wf(m) && IsRoot(m, r)
    ensures var n := Map(m, r, k, f, flags).0;
      && Wf(n) && |n.pool| <= |m.pool|
      && (forall x | x in n.pool :: x in m.pool)
      && (forall x | x in n.tables :: x in m.tables || x in m.pool)
  {
    hide Injective, SameView, Trans, PathFlags, Huge, Alias;
    MapSpec(m, r, k, f, flags, r, k);
    EnsureSpec(m, r, k);
    EnsureTables(m, r, k);
    var e := Ensure(m, r, k);
    assert Map(m, r, k, f, flags).0.pool == e.0.pool;
    if e.1.Some? { LeafLevel(e.0, r, k); }
  }

  /** A frame that was popped before the mapping is still out of the pool after it. */
  lemma MapPools(m: Mem, r: nat, k: Key, f: nat, flags: Flags)
    requires Wf(m) && IsRoot(m, r) && m.pool != [] && f == m.pool[0]
    ensures Wf(Pop(m)) && IsRoot(Pop(m), r)
    ensures var n := Map(Pop(m), r, k, f, flags).0;
      && Wf(n) && PoolOk(Push(n, f)) && f !in n.pool && f !in n.tables
      && (forall x | x in n.pool :: x in m.pool)
      && (forall x | x in n.tables :: x in m.tables || x in m.pool)
      && |n.pool| < |m.pool|
  {
    hide Injective, Map, TableOk;
    var m0 := Pop(m);
    PoolWf(m, m0);
    MapFrames(m0, r, k, f, flags);
    assert f !in m0.pool && f !in m.tables;
    var n := Map(m0, r, k, f, flags).0;
    assert forall x | x in m0.pool :: x in m.pool;
    assert f !in n.pool;
  }

  lemma {:induction false} EnsureTables(m: Mem, f: nat, k: Key)
    requires Wf(m) && f in m.tables
    ensures forall x | x in Ensure(m, f, k).0.tables :: x in m.tables || x in m.pool
    decreases m.tables[f].level
  {
    hide Injective;
    assert TableOk(m, f);
    var T := m.tables[f];
    var i := IdxAt(k, T.level);
    if T.level == 1 {
    } else if !T.slots[i].present {
      if m.pool != [] {
        AddTableWf(m, f, i);
        EnsureTables(AddTable(m, f, i), m.pool[0], k);
      }
    } else if Points(T, i) {
      EnsureTables(m, T.slots[i].frame, k);
    }
  }

  /** Free the frame mapped at a page, if any, and unmap the page. */
  ghost function FreeAt(s: Phys, r: nat, k: Key): Phys
    requires Wf(s.m) && IsRoot(s.m, r)
  {
    if Trans(s.m, r, k).NoMap? || Huge(s.m, r, k) then s
    else s.(m := Push(Unmap(s.m, r, k).0, Trans(s.m, r, k).frame))
  }

  /** Frames in use stay in use: mapping a new page keeps every address space isolated. */
  lemma MapNewInv(s: Phys, R: set<nat>, kernel: nat, r: nat, k: Key, flags: Flags, c: Content)
    requires VInv(s.m, R, kernel) && r in R && User(k) && IsRoot(s.m, r)
    ensures VInv(MapNew(s, r, k, flags, c).0.m, R, kernel)
  {
    hide Wf, Trans, PathFlags, Huge;
    var (z, ok) := MapNew(s, r, k, flags, c);
    MapNewPage(s, R, kernel, r, k, flags, c, kernel, k);
    forall q | q in R ensures Plain(z.m, q) {
      assert Plain(s.m, q);
      MapNewPage(s, R, kernel, r, k, flags, c, q, k);
      forall l | User(l) ensures PathFlags(z.m, q, l) == OPEN && !Huge(z.m, q, l) {
        MapNewPage(s, R, kernel, r, k, flags, c, q, l);
      }
    }
    forall q, l | q in R
      ensures At(z.m, q, l) == if ok && q == r && l == k then Page(s.m.pool[0], flags) else At(s.m, q, l)
    {
      assert Plain(s.m, q);
      MapNewPage(s, R, kernel, r, k, flags, c, q, l);
    }
    MapNewFrames(s, r, k, flags, c);
    forall x | Taken(s.m, x) ensures Taken(z.m, x) {}
  }

  lemma MapNewFrames(s: Phys, r: nat, k: Key, flags: Flags, c: Content)
    requires Wf(s.m) && IsRoot(s.m, r)
    ensures var (z, ok) := MapNew(s, r, k, flags, c);
      && (forall x | x in z.m.pool :: x in s.m.pool)
      && (forall x | x in z.m.tables :: x in s.m.tables || x in s.m.pool)
      && (ok ==> s.m.pool != [] && Taken(z.m, s.m.pool[0]) && z.data == s.data[s.m.pool[0] := c] && |z.m.pool| < |s.m.pool|)
      && (!ok ==> z.data == s.data)
  {
    hide Wf, Map;
    if s.m.pool != [] {
      MapPools(s.m, r, k, s.m.pool[0], flags);
    }
  }

  /** What `FreeAt` does to one page of one space. */
  lemma FreeAtPage(s: Phys, R: set<nat>, kernel: nat, r: nat, k: Key, q: nat, l: Key)
    requires VInv(s.m, R, kernel) && r in R && User(k) && IsRoot(s.m, r)
    requires IsRoot(s.m, q) && (q in R || q == kernel)
    ensures var z := FreeAt(s, r, k);
      && Wf(z.m) && IsRoot(z.m, q) && z.data == s.data && z.m.tables.Keys == s.m.tables.Keys
      && Trans(z.m, q, l) == (if q == r && l == k then NoMap else Trans(s.m, q, l))
      && PathFlags(z.m, q, l) == PathFlags(s.m, q, l) && Huge(z.m, q, l) == Huge(s.m, q, l)
      && z.m.pool == s.m.pool + (if At(s.m, r, k).Page? then [At(s.m, r, k).frame] else [])
  {
    hide Injective, Trans, PathFlags, Huge, Alias;
    PlainPath(s.m, r, k);
    if Trans(s.m, r, k).Page? {
      UnmapSpec(s.m, r, k, q, l);
      AliasUserOnly(s.m, r, q, k.i4);
      var u := Unmap(s.m, r, k).0;
      UnmapFrames(s.m, r, k);
      assert At(s.m, r, k).Page? && Taken(s.m, At(s.m, r, k).frame);
      assert PoolOk(Push(u, At(s.m, r, k).frame));
      PoolView(u, Push(u, At(s.m, r, k).frame), q, l);
    }
  }

  lemma UnmapFrames(m: Mem, r: nat, k: Key)
    requires Wf(m) && IsRoot(m, r)
    ensures Unmap(m, r, k).0.pool == m.pool && Unmap(m, r, k).0.tables.Keys == m.tables.Keys
  {
    if Leaf(m, r, k).Some? { LeafLevel(m, r, k); }
  }

  /** A freed frame is mapped nowhere else. */
  lemma FreeAtInv(s: Phys, R: set<nat>, kernel: nat, r: nat, k: Key)
    requires VInv(s.m, R, kernel) && r in R && User(k) && IsRoot(s.m, r)
    ensures VInv(FreeAt(s, r, k).m, R, kernel)
  {
    hide Wf, Trans, PathFlags, Huge, FreeAt;
    var z := FreeAt(s, r, k);
    FreeAtPage(s, R, kernel, r, k, kernel, k);
    forall q | q in R ensures Plain(z.m, q) {
      assert Plain(s.m, q);
      FreeAtPage(s, R, kernel, r, k, q, k);
      forall l | User(l) ensures PathFlags(z.m, q, l) == OPEN && !Huge(z.m, q, l) {
        FreeAtPage(s, R, kernel, r, k, q, l);
      }
    }
    forall q, l | q in R ensures At(z.m, q, l) == if q == r && l == k then NoMap else At(s.m, q, l) {
      assert Plain(s.m, q);
      FreeAtPage(s, R, kernel, r, k, q, l);
    }
  }

  lemma RootIn(m: Mem, R: set<nat>, kernel: nat, r: nat)
    requires VInv(m, R, kernel) && (r in R || r == kernel)
    ensures Wf(m) && IsRoot(m, r) && r in m.tables
  {
    if r in R { assert Plain(m, r); }
  }

  // ------------------------------------------------------------- page loops

  /** Free and unmap a list of pages in turn. */
  ghost function FreeKeys(s: Phys, R: set<nat>, kernel: nat, r: nat, ks: seq<Key>): Phys
    requires VInv(s.m, R, kernel) && r in R && forall i | 0 <= i < |ks| :: User(ks[i])
    decreases |ks|
  {
    if ks == [] then s
    else
      RootIn(s.m, R, kernel, r);
      FreeAtInv(s, R, kernel, r, ks[0]);
      FreeKeys(FreeAt(s, r, ks[0]), R, kernel, r, ks[1..])
  }

  lemma {:induction false} FreeKeysSpec(s: Phys, R: set<nat>, kernel: nat, r: nat, ks: seq<Key>, q: nat, l: Key)
    requires VInv(s.m, R, kernel) && r in R && forall i | 0 <= i < |ks| :: User(ks[i])
    requires q in R || q == kernel
    ensures var z := FreeKeys(s, R, kernel, r, ks);
      && VInv(z.m, R, kernel) && z.data == s.data && z.m.tables.Keys == s.m.tables.Keys
      && At(z.m, q, l) == (if q == r && l in ks then NoMap else At(s.m, q, l))
    decreases |ks|
  {
    hide Wf, VInv, FreeAt, User;
    if ks != [] {
      RootIn(s.m, R, kernel, r);
      RootIn(s.m, R, kernel, q);
      FreeAtPage(s, R, kernel, r, ks[0], q, l);
      FreeAtInv(s, R, kernel, r, ks[0]);
      FreeKeysSpec(FreeAt(s, r, ks[0]), R, kernel, r, ks[1..], q, l);
    }
  }

  /** Map zeroed pages `i..n` of a region; the index of the first that fails, or `n`. */
  ghost function MapZeroed(s: Phys, R: set<nat>, kernel: nat, r: nat, virt: nat, i: nat, n: nat, flags: Flags): (Phys, nat)
    requires VInv(s.m, R, kernel) && r in R && i <= n && forall p | i <= p < n :: User(KeyAt(virt, p))
    decreases n - i
  {
    if i == n then (s, n)
    else
      RootIn(s.m, R, kernel, r);
      MapNewInv(s, R, kernel, r, KeyAt(virt, i), flags, Blank());
      var (z, ok) := MapNew(s, r, KeyAt(virt, i), flags, Blank());
      if ok then MapZeroed(z, R, kernel, r, virt, i + 1, n, flags) else (z, i)
  }

  /** Later steps take frames out of the pool only, and write only to those. */
  ghost predicate Onward(s: Phys, z: Phys) {
    && (forall x | x in z.m.pool :: x in s.m.pool)
    && (forall x | x !in s.m.pool :: Read(z, x) == Read(s, x))
  }

  lemma MapNewOnward(s: Phys, r: nat, k: Key, flags: Flags, c: Content)
    requires Wf(s.m) && IsRoot(s.m, r)
    ensures var (z, ok) := MapNew(s, r, k, flags, c);
      Onward(s, z) && (ok ==> s.m.pool != [] && s.m.pool[0] !in z.m.pool && Read(z, s.m.pool[0]) == c)
  {
    hide Wf, MapNew;
    MapNewFrames(s, r, k, flags, c);
  }

  /** The page shows a frame that was free in `s`, with these flags and contents. */
  ghost predicate Shows(s: Phys, z: Phys, x: Xlat, flags: Flags, c: Content) {
    x.Page? && x.flags == flags && x.frame in s.m.pool && Read(z, x.frame) == c
  }

  lemma {:induction false} MapZeroedSpec(s: Phys, R: set<nat>, kernel: nat, r: nat, virt: nat, i: nat, n: nat, flags: Flags, q: nat, l: Key)
    requires VInv(s.m, R, kernel) && r in R && i <= n && forall p | i <= p < n :: User(KeyAt(virt, p))
    requires q in R || q == kernel
    ensures var (z, j) := MapZeroed(s, R, kernel, r, virt, i, n, flags);
      && i <= j <= n && VInv(z.m, R, kernel) && Onward(s, z)
      && (if q == r && LastHit(virt, i, j, l).Some? then Shows(s, z, At(z.m, q, l), flags, Blank())
          else At(z.m, q, l) == At(s.m, q, l))
    decreases n - i
  {
    hide Wf, VInv, MapNew, User, KeyOf, Blank;
    if i < n {
      RootIn(s.m, R, kernel, r);
      RootIn(s.m, R, kernel, q);
      var k := KeyAt(virt, i);
      MapNewPage(s, R, kernel, r, k, flags, Blank(), q, l);
      MapNewInv(s, R, kernel, r, k, flags, Blank());
      MapNewOnward(s, r, k, flags, Blank());
      var (z, ok) := MapNew(s, r, k, flags, Blank());
      if ok { MapZeroedSpec(z, R, kernel, r, virt, i + 1, n, flags, q, l); }
    }
  }

  /** Copy the pages `ks` that `src` has into new frames of `dst`; false when memory ran out. */
  ghost function CopyKeys(s: Phys, R: set<nat>, kernel: nat, src: nat, dst: nat, ks: seq<Key>): (Phys, bool)
    requires VInv(s.m, R, kernel) && src in R && dst in R && forall i | 0 <= i < |ks| :: User(ks[i])
    decreases |ks|
  {
    if ks == [] then (s, true)
    else
      RootIn(s.m, R, kernel, dst);
      var x := At(s.m, src, ks[0]);
      if x.NoMap? then CopyKeys(s, R, kernel, src, dst, ks[1..])
      else
        MapNewInv(s, R, kernel, dst, ks[0], x.flags, Read(s, x.frame));
        var (z, ok) := MapNew(s, dst, ks[0], x.flags, Read(s, x.frame));
        if ok then CopyKeys(z, R, kernel, src, dst, ks[1..]) else (z, false)
  }

  /** The child's page after copying: a new frame with the parent's flags and bytes. */
  ghost predicate Copied(s: Phys, z: Phys, src: nat, dst: nat, l: Key) {
    At(s.m, src, l).Page? &&
    Shows(s, z, At(z.m, dst, l), At(s.m, src, l).flags, Read(s, At(s.m, src, l).frame))
  }

  lemma {:induction false} CopyKeysSpec(s: Phys, R: set<nat>, kernel: nat, src: nat, dst: nat, ks: seq<Key>, q: nat, l: Key)
    requires VInv(s.m, R, kernel) && src in R && dst in R && src != dst && forall i | 0 <= i < |ks| :: User(ks[i])
    requires q in R || q == kernel
    ensures var (z, ok) := CopyKeys(s, R, kernel, src, dst, ks);
      && VInv(z.m, R, kernel) && Onward(s, z)
      && (q != dst ==> At(z.m, q, l) == At(s.m, q, l))
      && (ok && l in ks && At(s.m, src, l).Page? ==> Copied(s, z, src, dst, l))
      && (l !in ks || At(s.m, src, l).NoMap? ==> At(z.m, dst, l) == At(s.m, dst, l))
    decreases |ks|
  {
    hide Wf, VInv, MapNew, User;
    if ks != [] {
      RootIn(s.m, R, kernel, dst);
      RootIn(s.m, R, kernel, src);
      RootIn(s.m, R, kernel, q);
      var k := ks[0];
      var x := At(s.m, src, k);
      assert l in ks <==> l == k || l in ks[1..];
      if x.NoMap? {
        CopyKeysSpec(s, R, kernel, src, dst, ks[1..], q, l);
      } else {
        var c := Read(s, x.frame);
        MapNewPage(s, R, kernel, dst, k, x.flags, c, q, l);
        MapNewPage(s, R, kernel, dst, k, x.flags, c, src, l);
        MapNewPage(s, R, kernel, dst, k, x.flags, c, dst, l);
        MapNewInv(s, R, kernel, dst, k, x.flags, c);
        MapNewOnward(s, dst, k, x.flags, c);
        var (z, ok) := MapNew(s, dst, k, x.flags, c);
        if ok {
          if At(s.m, src, l).Page? { InUse(s.m, R, kernel, src, l); }
          CopyKeysSpec(z, R, kernel, src, dst, ks[1..], q, l);
        }
      }
    }
  }

  lemma InUse(m: Mem, R: set<nat>, kernel: nat, r: nat, k: Key)
    requires VInv(m, R, kernel) && r in R && At(m, r, k).Page?
    ensures User(k) ==> Taken(m, At(m, r, k).frame)
  {
  }
}
