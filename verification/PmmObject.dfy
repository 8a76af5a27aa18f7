/**
 The physical memory manager object of kernel/mm/pmm.c: the page array, the three
 zone objects, the allocation loop over zones and the boot loop that hands maximal
 usable runs to the buddy allocator.
 */
module PmmObject {

  import opened Common
  import opened Bits
  import opened Buddy
  import opened BuddyTheory
  import opened BuddyRuns
  import opened BuddyZone
  import opened Pmm
  import opened PmmTheory
  import opened PmmRuns

  function Meta(s: State): State {
    s.(pages := [])
  }

  class MemoryManager {
    const pages: array<Page>
    const zones: seq<Zone>

    ghost predicate Valid()
      reads this, zones
    {
      && |zones| == MAX_ZONES
      && (forall i, j | 0 <= i < j < MAX_ZONES :: zones[i] != zones[j] && zones[i].areas != zones[j].areas)
    }

    ghost function Value(): Mem
      requires |zones| == MAX_ZONES
      reads this, pages, zones, zones[0].areas, zones[1].areas, zones[2].areas
    {
      Mem(pages[..], [Meta(zones[0].View(pages)), Meta(zones[1].View(pages)), Meta(zones[2].View(pages))])
    }

    /** `init_zones`: the three fixed address ranges over a page array with all marks clear. */
    constructor (pages: array<Page>, pfns: nat)
      ensures this.pages == pages && Valid()
      ensures fresh(zones) && forall z | z in zones :: fresh(z.areas)
      ensures Value().zones == [Fresh(0, DMA_END), Fresh(DMA_END, DMA32_END), Fresh(DMA32_END, pfns)]
      ensures DMA32_END <= pages.Length && pfns <= pages.Length
              && (forall p | 0 <= p < pages.Length :: !pages[p].buddy && pages[p].zone == ZoneOf(p)) ==>
                Bounds(Value(), pfns) && Holds(Value(), pfns, 0)
    {
      this.pages := pages;
      var dma := new Zone(0, DMA_END);
      var dma32 := new Zone(DMA_END, DMA32_END);
      var normal := new Zone(DMA32_END, pfns);
      zones := [dma, dma32, normal];
      new;
      hide Holds, Bounds;
      if DMA32_END <= pages.Length && pfns <= pages.Length
         && (forall p | 0 <= p < pages.Length :: !pages[p].buddy && pages[p].zone == ZoneOf(p)) {
        FreshHolds(Value(), pfns);
      }
    }

    method MarkCompound(p: nat, order: nat, on: bool)
      requires p + Pow2(order) <= pages.Length
      modifies pages
      ensures pages[..] == Compound(old(pages[..]), p, order, on)
    {
      if order > 0 {
        pages[p] := MarkPage(pages[p], true, order, on);
        var i := 1;
        while i < Pow2(order)
          invariant 1 <= i <= Pow2(order)
          invariant forall x | 0 <= x < pages.Length ::
                      pages[x] == if p <= x < p + i then MarkPage(old(pages[x]), x == p, order, on) else old(pages[x])
        {
          pages[p + i] := MarkPage(pages[p + i], false, order, on);
          i := i + 1;
        }
      }
      assert pages[..] == Compound(old(pages[..]), p, order, on) by {
        forall x: nat | x < pages.Length
          ensures pages[x] == Compound(old(pages[..]), p, order, on)[x]
        {
        }
      }
    }

    /** `alloc_pages`, from zone `start` down. */
    method AllocPages(order: nat, start: nat) returns (r: Option<nat>)
      requires Valid() && start < MAX_ZONES && MemInv(Value()) && NoDeficit(Value())
      modifies pages, zones, zones[0].areas, zones[1].areas, zones[2].areas
      ensures Valid() && (Value(), r) == Pmm.AllocPages(old(Value()), order, start)
    {
      hide Inv, Alloc, Compound, Drift;
      var z: int := start;
      r := None;
      ghost var was := Value();
      while z >= 0 && r.None?
        invariant -1 <= z <= start
        invariant r.None? ==> Value() == was && Pmm.AllocFrom(was, order, start) == Pmm.AllocFrom(was, order, z)
        invariant r.Some? ==> (Value(), r) == Pmm.AllocFrom(was, order, start)
      {
        assert At(was, z) == zones[z].View(pages);
        if zones[z].freePages >= Pow2(order) {
          AllocNone(At(was, z), order);
          r := zones[z].AllocPages(pages, order);
          assert r.Some? ==> Value() == Put(was, z, zones[z].View(pages));
          assert r.None? ==> Value() == was;
        }
        z := z - 1;
      }
      if r.Some? {
        ServedInBounds(was, order, start);
        MarkCompound(r.value, order, true);
      }
    }

    /** `add_usable_memory`: hand every maximal run of usable pages of one zone to the buddy allocator. */
    method AddUsableMemory(n: nat)
      requires Valid() && n <= pages.Length && Bounds(Value(), n) && Holds(Value(), n, 0)
      modifies pages, zones, zones[0].areas, zones[1].areas, zones[2].areas
      ensures Valid() && Holds(Value(), n, n)
      ensures forall x | 0 <= x < pages.Length :: pages[x].reserved == old(pages[x].reserved)
    {
      hide Holds, Buddy.AddPages, Inv, MaximalFrom;
      var runStart, runLength, cur := 0, 0, 0;
      var pfn := 0;
      ghost var was := Value();
      while pfn < n
        invariant 0 <= pfn <= n && 0 <= cur < MAX_ZONES && 0 <= runLength && 0 <= runStart
        invariant Bounds(Value(), n) && SameReserved(was, Value())
        invariant runLength == 0 ==> pfn == 0 || pages[pfn - 1].reserved
        invariant runLength > 0 ==> runStart + runLength == pfn && MaximalFrom(Value(), n, cur, runStart, pfn)
        invariant Holds(Value(), n, if runLength > 0 then runStart else pfn)
      {
        var zone := ZoneOf(pfn);
        if runLength > 0 { LastUsable(Value(), n, cur, runStart, pfn); }
        if !pages[pfn].reserved && zone == cur {
          if runLength == 0 {
            runStart := pfn;
            StartRun(Value(), n, cur, pfn);
          } else {
            ExtendRun(Value(), n, cur, runStart, pfn);
          }
          runLength := runLength + 1;
        } else {
          if runLength > 0 {
            Flush(n, cur, runStart, runLength);
          }
          if !pages[pfn].reserved {
            runStart, runLength, cur := pfn, 1, zone;
            StartRun(Value(), n, zone, pfn);
          } else {
            SkipPage(Value(), n, pfn);
            runLength := 0;
          }
        }
        pfn := pfn + 1;
      }
      if runLength > 0 {
        Flush(n, cur, runStart, runLength);
      }
    }

    /** Add one run to its zone. */
    method Flush(n: nat, cur: nat, runStart: nat, runLength: nat)
      requires Valid() && cur < MAX_ZONES && runStart + runLength <= n <= pages.Length && Bounds(Value(), n)
      requires Holds(Value(), n, runStart) && MaximalFrom(Value(), n, cur, runStart, runStart + runLength)
      modifies pages, zones, zones[0].areas, zones[1].areas, zones[2].areas
      ensures Valid() && Bounds(Value(), n) && Holds(Value(), n, runStart + runLength)
      ensures SameReserved(old(Value()), Value())
    {
      hide Holds, Buddy.AddPages, Inv, MaximalFrom;
      ghost var was := Value();
      FlushSpec(was, n, cur, runStart, runStart + runLength);
      assert At(was, cur) == zones[cur].View(pages);
      zones[cur].AddPages(pages, runStart, runLength);
      assert Value() == Put(was, cur, zones[cur].View(pages));
    }

    /** `free_pages` of a block that is not free. */
    method FreePages(p: nat, order: nat)
      requires Valid() && MemInv(Value()) && BlockLegal(Value(), p, order)
      modifies pages, zones, zones[0].areas, zones[1].areas, zones[2].areas
      ensures Valid() && Shape(At(old(Value()), old(pages[p].zone)))
      ensures Value() == Pmm.FreePages(old(Value()), p, order)
    {
      ghost var was := Value();
      var z := pages[p].zone;
      LegalInBounds(was, p, order);
      MarkCompound(p, order, false);
      ghost var m1 := was.(pages := Compound(was.pages, p, order, false));
      assert Value() == m1;
      assert At(m1, z) == zones[z].View(pages);
      zones[z].FreePages(pages, p, order);
      assert Value() == Put(m1, z, zones[z].View(pages));
    }
  }

  // -------------------------------------------------------------------- boot

  lemma {:induction false} AddPagesTouches(s: State, p: nat, e: nat)
    requires Shape(s) && s.start <= p && e <= s.end
    ensures Touches(s, Buddy.AddPages(s, p, e))
    decreases e - p
  {
    hide Touches, AddToFreeArea, AddOrder;
    TouchesRefl(s);
    if p < e {
      AddOneTouches(s, p, e);
      AddPagesTouches(AddOne(s, p, e), p + Pow2(AddOrder(p, e)), e);
      TouchesTrans(s, AddOne(s, p, e), Buddy.AddPages(s, p, e));
    }
  }

  lemma AddOneTouches(s: State, p: nat, e: nat)
    requires Shape(s) && s.start <= p < e <= s.end
    ensures Touches(s, AddOne(s, p, e)) && Shape(AddOne(s, p, e))
    ensures AddOne(s, p, e).start == s.start && AddOne(s, p, e).end == s.end
  {
  }

  predicate Usable(pages: seq<Page>, n: nat, z: nat, x: nat) {
    x < n && x < |pages| && !pages[x].reserved && ZoneOf(x) == z
  }

  /** The zone holds, in canonical form and exactly counted, the usable pages below `f`. */
  ghost predicate ZoneHolds(s: State, n: nat, z: nat, f: nat) {
    && Inv(s) && Drift(s) == 0
    && forall x: nat :: Covered(s, x) <==> x < f && Usable(s.pages, n, z, x)
  }

  /** Every zone holds its usable pages, zone `c` only those below `f`. */
  ghost predicate Holds(m: Mem, n: nat, f: nat) {
    && MemInv(m)
    && forall z: nat | z < MAX_ZONES :: ZoneHolds(At(m, z), n, z, f)
  }

  /** The zone ranges of `init_zones`, with metadata cells for all of them. */
  predicate Bounds(m: Mem, n: nat) {
    && |m.zones| == MAX_ZONES
    && m.zones[0].start == 0 && m.zones[0].end == DMA_END
    && m.zones[1].start == DMA_END && m.zones[1].end == DMA32_END
    && m.zones[2].start == DMA32_END && m.zones[2].end == n
  }

  predicate SameReserved(m: Mem, n: Mem) {
    |n.pages| == |m.pages| && forall x: nat | x < |m.pages| :: n.pages[x].reserved == m.pages[x].reserved
  }

  /** [a, e) is usable, lies in zone `c`, and cannot be extended downwards. */
  predicate MaximalFrom(m: Mem, n: nat, c: nat, a: nat, e: nat) {
    && a < e
    && (forall x: nat | a <= x < e :: Usable(m.pages, n, c, x))
    && (a > 0 ==> !Usable(m.pages, n, c, a - 1))
  }

  lemma LastUsable(m: Mem, n: nat, c: nat, a: nat, e: nat)
    requires MaximalFrom(m, n, c, a, e)
    ensures e > 0 && Usable(m.pages, n, c, e - 1)
  {
  }

  lemma ExtendRun(m: Mem, n: nat, c: nat, a: nat, e: nat)
    requires MaximalFrom(m, n, c, a, e) && Usable(m.pages, n, c, e)
    ensures MaximalFrom(m, n, c, a, e + 1)
  {
  }

  lemma StartRun(m: Mem, n: nat, c: nat, e: nat)
    requires Usable(m.pages, n, c, e) && (e > 0 ==> !Usable(m.pages, n, c, e - 1))
    ensures MaximalFrom(m, n, c, e, e + 1)
  {
  }

  lemma SkipPage(m: Mem, n: nat, f: nat)
    requires Holds(m, n, f) && f < |m.pages| && m.pages[f].reserved
    ensures Holds(m, n, f + 1)
  {
    hide MemInv, Inv, Covered, FreeSet;
    MemShape(m);
    forall z: nat | z < MAX_ZONES ensures ZoneHolds(At(m, z), n, z, f + 1) {
      assert ZoneHolds(At(m, z), n, z, f);
    }
  }

  /** Adding a maximal run: the flushed frontier moves to its end. */
  lemma FlushSpec(m: Mem, n: nat, c: nat, a: nat, e: nat)
    requires Bounds(m, n) && Holds(m, n, a) && c < MAX_ZONES && e <= n <= |m.pages|
    requires MaximalFrom(m, n, c, a, e)
    ensures Shape(At(m, c))
    ensures var m' := Put(m, c, Buddy.AddPages(At(m, c), a, e));
            Bounds(m', n) && Holds(m', n, e) && SameReserved(m, m')
  {
    hide Inv, Covered, FreeSet, Buddy.AddPages, MemInv;
    var s := At(m, c);
    assert ZoneHolds(s, n, c, a);
    InvShape(s);
    assert Usable(m.pages, n, c, a) && Usable(m.pages, n, c, e - 1);
    assert RunClear(s, a, e);
    assert LastAdded(s, a, e);
    AddPagesSpec(s, a, e);
    AddPagesTouches(s, a, e);
    var t := Buddy.AddPages(s, a, e);
    PutFrame(m, c, t);
    var m' := Put(m, c, t);
    forall z: nat | z < MAX_ZONES ensures ZoneHolds(At(m', z), n, z, e) {
      assert ZoneHolds(At(m, z), n, z, a);
      MemShape(m');
      forall x: nat ensures Covered(At(m', z), x) <==> x < e && Usable(m'.pages, n, z, x) {
        if a <= x < e {
          assert Usable(m.pages, n, c, x);
        }
      }
    }
  }

  lemma AllocNone(s: State, order: nat)
    requires Inv(s)
    ensures Alloc(s, order).1.None? ==> Alloc(s, order).0 == s
  {
  }

  lemma ServedInBounds(m: Mem, order: nat, z: nat)
    requires MemInv(m) && NoDeficit(m) && z < MAX_ZONES && AllocFrom(m, order, z).1.Some?
    ensures var (n, r) := AllocFrom(m, order, z); r.value + Pow2(order) <= |n.pages|
  {
    if order >= MAX_ORDER {
      AllocTooLarge(m, order, z);
    } else {
      var k := AllocFromSpec(m, order, z);
      AllocSpec(At(m, k), order);
      AllocTouches(At(m, k), order);
      InvShape(At(m, k));
    }
  }

  lemma LegalInBounds(m: Mem, p: nat, order: nat)
    requires MemInv(m) && BlockLegal(m, p, order)
    ensures p + Pow2(order) <= |m.pages| && Shape(At(m, m.pages[p].zone))
  {
    InvShape(At(m, m.pages[p].zone));
  }

  /** A zone with empty free lists. */
  function Fresh(start: nat, end: nat): State {
    State([], start, end, seq(MAX_ORDER, _ => Area([], 0)), 0, 0, 0)
  }

  lemma FreshZoneHolds(s: State, n: nat, z: nat)
    requires Shape(s) && Meta(s) == Fresh(s.start, s.end)
    requires forall p: nat | p < |s.pages| :: !s.pages[p].buddy
    ensures ZoneHolds(s, n, z, 0)
  {
    assert forall p: nat, o: nat :: !IsBlock(s, p, o);
    assert forall x: nat :: !Covered(s, x);
    assert FreeSet(s) == {};
    assert forall o | 0 <= o < MAX_ORDER :: s.areas[o] == Area([], 0);
  }

  /** What `init_zones` leaves behind is a correct start for `add_usable_memory`. */
  lemma FreshHolds(m: Mem, n: nat)
    requires m.zones == [Fresh(0, DMA_END), Fresh(DMA_END, DMA32_END), Fresh(DMA32_END, n)]
    requires DMA32_END <= |m.pages| && n <= |m.pages|
    requires forall p: nat | p < |m.pages| :: !m.pages[p].buddy && m.pages[p].zone == ZoneOf(p)
    ensures Bounds(m, n) && Holds(m, n, 0)
  {
    hide Inv;
    forall z: nat | z < MAX_ZONES ensures ZoneHolds(At(m, z), n, z, 0) && Inv(At(m, z)) {
      FreshZoneHolds(At(m, z), n, z);
    }
  }

  /** After boot the memory is a correct start for every run, and exactly the usable pages are free. */
  lemma BootIsLegalStart(m: Mem, n: nat)
    requires Bounds(m, n) && Holds(m, n, n) && n <= |m.pages|
    requires forall p: nat | p < |m.pages| :: !m.pages[p].head && !m.pages[p].tail && !m.pages[p].compound
    ensures LedgerInv(Ledger(m, map[]))
    ensures forall x: nat :: Managed(Ledger(m, map[]), x) <==> x < n && !m.pages[x].reserved
  {
    hide Inv, Covered, FreeSet, MemInv;
    MemShape(m);
    forall z: nat | z < MAX_ZONES ensures Drift(At(m, z)) >= 0 {
      assert ZoneHolds(At(m, z), n, z, n);
    }
    forall x: nat ensures Managed(Ledger(m, map[]), x) <==> x < n && !m.pages[x].reserved {
      if x < n && !m.pages[x].reserved {
        assert ZoneHolds(At(m, ZoneOf(x)), n, ZoneOf(x), n);
        assert Covered(At(m, ZoneOf(x)), x);
      }
      if FreePage(m, x) {
        var z: nat :| z < MAX_ZONES && Covered(At(m, z), x);
        assert ZoneHolds(At(m, z), n, z, n);
      }
    }
  }
}
