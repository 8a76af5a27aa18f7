/**
 The paging code as it runs: tables and the frame pool are changed in place, and
 every routine is proved against its function on values.
 */
module PagingObject {

  import opened Common
  import opened Paging
  import opened PagingOps
  import opened PagingTree

  /** The loop test, turn by turn. */
  lemma LoopTest(virt: nat, size: nat, i: nat)
    requires virt < U64 && i <= Limit(virt, size)
    ensures Counter(virt, i) < (virt + size) % U64 <==> RunsOn(virt, size) || i < Limit(virt, size)
    ensures Counter(virt, 0) == virt
  {
    hide PagesIn, RunsOn;
    if RunsOn(virt, size) { CounterAlways(virt, size, i); } else { CounterBelow(virt, size, i); }
  }

  lemma CounterNext(virt: nat, i: nat)
    ensures Counter(virt, i + 1) == (Counter(virt, i) + PAGE_SIZE) % U64
    ensures virt < U64 ==> Counter(virt, 0) == virt
  {
  }

  class PageTables {
    var tables: map<nat, Table>
    var pool: seq<nat>
    const kernel: Option<nat>

    constructor (tables: map<nat, Table>, pool: seq<nat>, kernel: Option<nat>)
      ensures Value() == Mem(tables, pool) && this.kernel == kernel
    {
      this.tables, this.pool, this.kernel := tables, pool, kernel;
    }

    ghost function Value(): Mem
      reads this
    {
      Mem(tables, pool)
    }

    /** `alloc_pt_page`: a zeroed table for the given level. */
    method AllocTable(level: nat) returns (c: Option<nat>)
      modifies this
      ensures old(pool) == [] ==> c.None? && Value() == old(Value())
      ensures old(pool) != [] ==> c == Some(old(pool)[0])
      ensures old(pool) != [] ==>
        Value() == Mem(old(tables)[old(pool)[0] := Table(level, seq(512, _ => ABSENT))], old(pool)[1..])
    {
      if pool == [] { return None; }
      c := Some(pool[0]);
      tables := tables[pool[0] := Table(level, seq(512, _ => ABSENT))];
      pool := pool[1..];
    }

    method FreeTable(f: nat)
      modifies this
      ensures Value() == Mem(old(tables) - {f}, old(pool) + [f])
    {
      tables := tables - {f};
      pool := pool + [f];
    }

    method Write(f: nat, i: Idx, e: Entry)
      requires f in tables && |tables[f].slots| == 512
      modifies this`tables
      ensures Value() == SetEntry(old(Value()), f, i, e)
    {
      tables := tables[f := tables[f].(slots := tables[f].slots[i := e])];
    }

    /** One level of `get_or_create_pte`. */
    method NextTable(f: nat, k: Key, create: bool) returns (c: Option<nat>)
      requires Wf(Value()) && f in tables && tables[f].level > 1
      modifies this
      ensures Wf(Value()) && f in tables
      ensures !create ==> Value() == old(Value())
      ensures c.Some? ==> c.value in tables && tables[c.value].level == old(tables[f].level) - 1
      ensures create ==> old(Ensure(Value(), f, k)) == if c.None? then (Value(), None) else Ensure(Value(), c.value, k)
      ensures !create ==> Leaf(Value(), f, k) == if c.None? then None else Leaf(Value(), c.value, k)
    {
      hide Injective;
      assert TableOk(Value(), f);
      var i := IdxAt(k, tables[f].level);
      var level := tables[f].level;
      var e := tables[f].slots[i];
      if !e.present {
        if !create { return None; }
        ghost var m := Value();
        c := AllocTable(level - 1);
        if c.None? { return; }
        AddTableOk(m, f, i);
        AddTableWf(m, f, i);
        Write(f, i, Entry(true, false, c.value, OPEN));
        assert tables == AddTable(m, f, i).tables;
      } else {
        if level != 4 && e.huge { return None; }
        assert Points(tables[f], i);
        c := Some(e.frame);
      }
    }

    /** `get_or_create_pte`, down to the level-1 table. */
    method FindLeaf(root: nat, k: Key, create: bool) returns (pt: Option<nat>)
      requires Wf(Value()) && IsRoot(Value(), root)
      modifies this
      ensures Wf(Value())
      ensures create ==> (Value(), pt) == old(Ensure(Value(), root, k))
      ensures !create ==> Value() == old(Value()) && pt == Leaf(Value(), root, k)
    {
      hide Wf;
      pt := NextTable(root, k, create);
      if pt.None? { return; }
      pt := NextTable(pt.value, k, create);
      if pt.None? { return; }
      pt := NextTable(pt.value, k, create);
      if pt.None? { return; }
      assert tables[pt.value].level == 1;
    }

    method MapPage(root: nat, k: Key, frame: nat, flags: Flags) returns (ok: bool)
      requires Wf(Value()) && IsRoot(Value(), root)
      modifies this
      ensures (Value(), ok) == old(Map(Value(), root, k, frame, flags))
      ensures Wf(Value()) && IsRoot(Value(), root)
    {
      hide Wf;
      EnsureSpec(Value(), root, k);
      MapSpec(Value(), root, k, frame, flags, root, k);
      var pt := FindLeaf(root, k, true);
      if pt.None? { return false; }
      LeafLevel(Value(), root, k);
      Write(pt.value, k.i1, Entry(true, false, frame, flags));
      ok := true;
    }

    method UnmapPage(root: nat, k: Key) returns (ok: bool)
      requires Wf(Value()) && IsRoot(Value(), root)
      modifies this
      ensures (Value(), ok) == old(Unmap(Value(), root, k))
      ensures Wf(Value()) && IsRoot(Value(), root)
    {
      hide Wf;
      UnmapSpec(Value(), root, k, root, k);
      var pt := FindLeaf(root, k, false);
      if pt.None? { return false; }
      LeafLevel(Value(), root, k);
      if !tables[pt.value].slots[k.i1].present { return false; }
      Write(pt.value, k.i1, ABSENT);
      ok := true;
    }

    method PhysOf(root: nat, virt: nat) returns (r: Option<nat>)
      requires Wf(Value()) && IsRoot(Value(), root)
      modifies this
      ensures Value() == old(Value()) && r == GetPhys(Value(), root, virt)
    {
      hide Wf;
      var k := KeyOf(virt);
      var pt := FindLeaf(root, k, false);
      if pt.None? { return None; }
      LeafLevel(Value(), root, k);
      var e := tables[pt.value].slots[k.i1];
      if !e.present { return None; }
      r := Some(e.frame * PAGE_SIZE + virt % PAGE_SIZE);
    }

    /**
     `paging_map_range`, with its 64-bit counters.  A loop that runs on is given up, with
     no result, once it has been through every entry: from then on no page can fail.
     */
    method MapPages(root: nat, virt: nat, frame: nat, size: nat, flags: Flags) returns (r: Option<bool>)
      requires Wf(Value()) && IsRoot(Value(), root) && virt < U64
      modifies this
      ensures var o := old(MapRange(Value(), root, virt, frame, size, flags));
        if r.None? then o.None? else o == Some((Value(), r.value))
    {
      hide Wf, Map, Unmap, KeyOf, PagesIn, RunsOn, Undone;
      ghost var m := Value();
      ghost var n := Limit(virt, size);
      var end := (virt + size) % U64;
      var addr := virt;
      var i := 0;
      LoopTest(virt, size, 0);
      while addr < end
        invariant i <= n && addr == Counter(virt, i) && (RunsOn(virt, size) || (addr < end <==> i < n))
        invariant Wf(Value()) && IsRoot(Value(), root)
        invariant MapFrom(m, root, virt, frame, 0, n, flags) == MapFrom(Value(), root, virt, frame, i, n, flags)
        decreases n - i
      {
        if i == ENTRIES && RunsOn(virt, size) { return None; }
        CounterKey(virt, i);
        var done := MapPage(root, KeyOf(addr), FrameAt(frame, i), flags);
        if !done {
          UnmapBelow(root, virt, addr, i, size);
          return Some(false);
        }
        CounterNext(virt, i);
        addr := (addr + PAGE_SIZE) % U64;
        i := i + 1;
        LoopTest(virt, size, i);
      }
      LoopTest(virt, size, i);
      r := Some(true);
    }

    /** The rollback loop. */
    method UnmapBelow(root: nat, virt: nat, addr: nat, ghost i: nat, ghost size: nat)
      requires Wf(Value()) && IsRoot(Value(), root) && virt < U64 && i < Limit(virt, size) && addr == Counter(virt, i)
      modifies this
      ensures Value() == UnmapFrom(old(Value()), root, virt, 0, Undone(virt, i))
    {
      hide Wf, Unmap, KeyOf, Undone, Limit;
      ghost var m := Value();
      ghost var n := Undone(virt, i);
      var rb := virt;
      ghost var j := 0;
      UndoneIs(virt, size, i);
      CounterNext(virt, 0);
      while rb < addr
        invariant j <= n && rb == Counter(virt, j) && Wf(Value()) && IsRoot(Value(), root)
        invariant UnmapFrom(m, root, virt, 0, n) == UnmapFrom(Value(), root, virt, j, n)
        decreases n - j
      {
        CounterKey(virt, j);
        CounterNext(virt, j);
        var gone := UnmapPage(root, KeyOf(rb));
        rb := (rb + PAGE_SIZE) % U64;
        j := j + 1;
      }
    }

    /** `paging_unmap_range`; false where the loop would never end, once it has been through every entry. */
    method UnmapPages(root: nat, virt: nat, size: nat) returns (ends: bool)
      requires Wf(Value()) && IsRoot(Value(), root) && virt < U64
      modifies this
      ensures var o := old(UnmapRange(Value(), root, virt, size)); if ends then o == Some(Value()) else o.None?
    {
      hide Wf, Unmap, KeyOf, PagesIn, RunsOn;
      ghost var m := Value();
      ghost var n := Limit(virt, size);
      var end := (virt + size) % U64;
      var addr := virt;
      var i := 0;
      LoopTest(virt, size, 0);
      while addr < end
        invariant i <= n && addr == Counter(virt, i) && (RunsOn(virt, size) || (addr < end <==> i < n))
        invariant Wf(Value()) && IsRoot(Value(), root)
        invariant UnmapFrom(m, root, virt, 0, n) == UnmapFrom(Value(), root, virt, i, n)
        decreases n - i
      {
        if i == ENTRIES && RunsOn(virt, size) { return false; }
        CounterKey(virt, i);
        CounterNext(virt, i);
        var gone := UnmapPage(root, KeyOf(addr));
        addr := (addr + PAGE_SIZE) % U64;
        i := i + 1;
        LoopTest(virt, size, i);
      }
      LoopTest(virt, size, i);
      ends := true;
    }

    /** `paging_create_pml4`: copy the kernel half entry by entry. */
    method CreateTop() returns (r: Option<nat>)
      requires Wf(Value()) && (kernel.Some? ==> IsRoot(Value(), kernel.value) && TableOk(Value(), kernel.value))
      modifies this
      ensures (Value(), r) == old(CreateRoot(Value(), kernel))
    {
      hide Injective;
      ghost var m := Value();
      r := AllocTable(4);
      if r.None? || kernel.None? { return; }
      var c := r.value;
      assert c !in m.tables;
      var i := 256;
      while i < 512
        invariant 256 <= i <= 512 && pool == m.pool[1..]
        invariant tables.Keys == m.tables.Keys + {c} && kernel.value in tables
        invariant forall f | f in m.tables :: tables[f] == m.tables[f]
        invariant tables[c].level == 4 && |tables[c].slots| == 512
        invariant forall j | 0 <= j < 256 || i <= j < 512 :: tables[c].slots[j] == ABSENT
        invariant forall j | 256 <= j < i :: tables[c].slots[j] == m.tables[kernel.value].slots[j]
      {
        Write(c, i, tables[kernel.value].slots[i]);
        i := i + 1;
      }
      assert tables[c].slots == NewSlots(m, kernel);
      assert tables == m.tables[c := Table(4, NewSlots(m, kernel))];
    }
  
    /** The innermost loop of `paging_destroy_pml4`: the level-1 tables of one directory. */
    method FreeLeaves(pd: nat, ghost m: Mem, ghost done: seq<nat>)
      requires Wf(m) && pd in m.tables && m.tables[pd].level == 2 && pd !in done && Value() == Release(m, done)
      modifies this
      ensures Value() == Release(m, done + FreedIn(m, pd, 0, 512))
    {
      hide Injective, PoolOk;
      assert TableOk(m, pd);
      var i := 0;
      assert done + FreedIn(m, pd, 0, 0) == done;
      while i < 512
        invariant 0 <= i <= 512 && Value() == Release(m, done + FreedIn(m, pd, 0, i))
      {
        FreedInOnce(m, pd, 0, i);
        FreedSplit(m, pd, 0, i);
        var e := tables[pd].slots[i];
        if e.present && !e.huge {
          assert Points(m.tables[pd], i);
          NoneBelow(m, e.frame);
          FreeTable(e.frame);
          assert done + FreedIn(m, pd, 0, i) + [e.frame] == done + FreedIn(m, pd, 0, i + 1);
        } else {
          assert done + FreedIn(m, pd, 0, i) == done + FreedIn(m, pd, 0, i + 1);
        }
        i := i + 1;
      }
    }

    /** The middle loop: the directories of one level-3 table. */
    method FreeDirectories(pdpt: nat, ghost m: Mem, ghost done: seq<nat>)
      requires Wf(m) && pdpt in m.tables && m.tables[pdpt].level == 3 && Value() == Release(m, done)
      requires forall x | Under(m, pdpt, x) :: x !in done
      modifies this
      ensures Value() == Release(m, done + FreedIn(m, pdpt, 0, 512))
    {
      hide Injective, PoolOk;
      assert TableOk(m, pdpt);
      var i := 0;
      assert done + FreedIn(m, pdpt, 0, 0) == done;
      while i < 512
        invariant 0 <= i <= 512 && Value() == Release(m, done + FreedIn(m, pdpt, 0, i))
      {
        FreedInOnce(m, pdpt, 0, i);
        FreedSplit(m, pdpt, 0, i);
        assert Under(m, pdpt, pdpt);
        ghost var q := done + FreedIn(m, pdpt, 0, i);
        var e := tables[pdpt].slots[i];
        if e.present && !e.huge {
          assert Points(m.tables[pdpt], i);
          assert Under(m, e.frame, e.frame);
          SubtreeIntact(m, pdpt, i, e.frame);
          FreeLeaves(e.frame, m, q);
          FreeTable(e.frame);
          assert q + FreedIn(m, e.frame, 0, 512) + [e.frame] == done + FreedIn(m, pdpt, 0, i + 1);
        } else {
          assert q == done + FreedIn(m, pdpt, 0, i + 1);
        }
        i := i + 1;
      }
    }

    /** `paging_destroy_pml4`. */
    method DestroyTop(root: nat)
      requires Wf(Value()) && IsRoot(Value(), root)
      modifies this
      ensures Value() == old(DestroyRoot(Value(), root))
    {
      hide Injective, PoolOk, Under;
      ghost var m := Value();
      assert TableOk(m, root);
      assert Value() == Release(m, []);
      var i := 0;
      while i < 256
        invariant 0 <= i <= 256 && Value() == Release(m, FreedIn(m, root, 0, i))
      {
        FreedInOnce(m, root, 0, i);
        FreedSplit(m, root, 0, i);
        ghost var q := FreedIn(m, root, 0, i);
        var e := tables[root].slots[i];
        if e.present {
          SubtreeUntouched(m, root, i);
          FreeDirectories(e.frame, m, q);
          FreeTable(e.frame);
          assert q + FreedIn(m, e.frame, 0, 512) + [e.frame] == FreedIn(m, root, 0, i + 1);
        }
        i := i + 1;
      }
      FreeTable(root);
    }
  }

  lemma SubtreeUntouched(m: Mem, root: nat, i: nat)
    requires Wf(m) && IsRoot(m, root) && i < 256 && TableOk(m, root) && m.tables[root].slots[i].present
    ensures Points(m.tables[root], i) && m.tables[root].slots[i].frame in m.tables
    ensures m.tables[m.tables[root].slots[i].frame].level == 3
    ensures forall x | Under(m, m.tables[root].slots[i].frame, x) :: x !in FreedIn(m, root, 0, i)
  {
    hide Injective, PoolOk;
    assert Points(m.tables[root], i);
    forall x | Under(m, m.tables[root].slots[i].frame, x) ensures x !in FreedIn(m, root, 0, i) {
      SubtreeIntact(m, root, i, x);
    }
  }

  /** A level-1 table has nothing below it. */
  lemma {:induction false} NoneBelow(m: Mem, pt: nat)
    requires Wf(m) && pt in m.tables && m.tables[pt].level == 1
    ensures FreedIn(m, pt, 0, 512) == []
  {
    NoneFrom(m, pt, 0);
  }

  lemma {:induction false} NoneFrom(m: Mem, pt: nat, lo: nat)
    requires Wf(m) && pt in m.tables && m.tables[pt].level == 1 && lo <= 512
    ensures FreedIn(m, pt, lo, 512) == []
    decreases 512 - lo
  {
    if lo < 512 { NoneFrom(m, pt, lo + 1); }
  }
}
