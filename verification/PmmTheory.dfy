/**
 What the zone front end guarantees over whole runs: a request fails only when no
 permitted zone holds a suitable run, live blocks never overlap each other or the
 free pages, compound marks describe exactly the live blocks, and free and live
 pages together never change.
 */
module PmmTheory {

  import opened Common
  import opened Bits
  import opened Buddy
  import opened BuddyTheory
  import opened Pmm

  // ----------------------------------------------------------- allocation

  lemma CoveredInZone(s: State, x: nat)
    requires Inv(s) && Covered(s, x)
    ensures s.start <= x < s.end
  {
    var p, o := CoveringBlock(s, x);
    InvBlockOk(s, p, o);
  }

  lemma {:induction false} SubsetSize<T>(a: set<T>, b: set<T>)
    requires a <= b
    ensures |a| <= |b|
  {
    if a != {} {
      var x :| x in a;
      SubsetSize(a - {x}, b - {x});
    }
  }

  /** The quick `free_pages` test of `alloc_pages` never skips a zone that could serve. */
  lemma CounterNeverHidesRun(s: State, order: nat)
    requires Inv(s) && Drift(s) >= 0 && HasRun(s, order)
    ensures s.freePages >= Pow2(order)
  {
    hide Inv, Covered;
    var p: nat :| Aligned(p, order) && AllFree(s, p, order);
    forall x: nat | x in Region(p, order) ensures x in FreeSet(s) {
      assert InBlock(x, p, order);
      CoveredInZone(s, x);
    }
    RegionSize(p, order);
    SubsetSize(Region(p, order), FreeSet(s));
  }

  ghost predicate NoDeficit(m: Mem) {
    forall z: nat | z < |m.zones| :: Drift(At(m, z)) >= 0
  }

  /** `alloc_pages` serves from the highest permitted zone that holds a run, or fails if none does. */
  lemma {:induction false} AllocFromSpec(m: Mem, order: nat, z: int) returns (k: int)
    requires MemInv(m) && NoDeficit(m) && order < MAX_ORDER && z < MAX_ZONES
    ensures -1 <= k <= z || (k == -1 && z < 0)
    ensures forall i: nat | k < i <= z :: !HasRun(At(m, i), order)
    ensures k < 0 <==> AllocFrom(m, order, z).1.None?
    ensures k < 0 ==> AllocFrom(m, order, z) == (m, None)
    ensures k >= 0 ==> HasRun(At(m, k), order) && Alloc(At(m, k), order).1.Some?
                       && AllocFrom(m, order, z) == (Put(m, k, Alloc(At(m, k), order).0), Alloc(At(m, k), order).1)
    decreases z
  {
    hide Inv, HasRun, Alloc, Drift;
    if z < 0 {
      k := -1;
    } else {
      AllocFailsIffNoRun(At(m, z), order);
      if HasRun(At(m, z), order) {
        CounterNeverHidesRun(At(m, z), order);
        k := z;
      } else {
        k := AllocFromSpec(m, order, z - 1);
      }
    }
  }

  // ------------------------------------------------- one request, one free

  /** Compound marks are invisible to the zones. */
  lemma MarkFrame(m: Mem, p: nat, order: nat, on: bool)
    requires MemInv(m) && p < |m.pages| && (on ==> !m.pages[p].buddy)
    ensures var n := m.(pages := Compound(m.pages, p, order, on));
            && MemInv(n)
            && (forall z: nat | z < MAX_ZONES ::
                  && (forall q: nat, o: nat :: IsBlock(At(n, z), q, o) <==> IsBlock(At(m, z), q, o))
                  && (forall x: nat :: Covered(At(n, z), x) <==> Covered(At(m, z), x))
                  && FreeSet(At(n, z)) == FreeSet(At(m, z)))
  {
    var n := m.(pages := Compound(m.pages, p, order, on));
    forall z: nat | z < MAX_ZONES
      ensures Inv(At(n, z))
      ensures forall q: nat, o: nat :: IsBlock(At(n, z), q, o) <==> IsBlock(At(m, z), q, o)
      ensures forall x: nat :: Covered(At(n, z), x) <==> Covered(At(m, z), x)
      ensures FreeSet(At(n, z)) == FreeSet(At(m, z))
    {
      assert SamePages(At(m, z), n.pages);
      ZoneFrame(At(m, z), n.pages);
    }
  }

  lemma NotCoveredNotMarked(s: State, x: nat)
    requires Inv(s) && s.start <= x < s.end && !Covered(s, x)
    ensures x < |s.pages| && !s.pages[x].buddy
  {
    if s.pages[x].buddy {
      BlockCovers(s, x, s.pages[x].order, x);
    }
  }

  /** Serving a request from zone `k`. */
  function ServeFrom(m: Mem, order: nat, k: nat): Mem
    requires MemInv(m) && k < MAX_ZONES && Alloc(At(m, k), order).1.Some?
  {
    var (t, r) := Alloc(At(m, k), order);
    var m1 := Put(m, k, t);
    m1.(pages := Compound(m1.pages, r.value, order, true))
  }

  /** The block's pages stop being free in zone `k`; no other page changes. */
  ghost predicate ServedZones(m: Mem, n: Mem, k: nat, p: nat, order: nat)
    requires |m.zones| == |n.zones| == MAX_ZONES && k < MAX_ZONES
  {
    var s := At(m, k);
    && (forall j: nat | j < MAX_ZONES :: n.zones[j].start == m.zones[j].start && n.zones[j].end == m.zones[j].end)
    && Aligned(p, order) && s.start <= p && p + Pow2(order) <= s.end && AllFree(s, p, order)
    && (forall x: nat :: Covered(At(n, k), x) <==> Covered(s, x) && !InBlock(x, p, order))
    && (forall j: nat, x: nat | j < MAX_ZONES && j != k :: Covered(At(n, j), x) <==> Covered(At(m, j), x))
  }

  /** A page apart from what the buddy allocator itself writes. */
  function Flags(g: Page): Page {
    g.(buddy := false, order := 0)
  }

  /** The block is marked as one compound page; pages that were not free are untouched. */
  ghost predicate ServedPages(m: Mem, n: Mem, k: nat, p: nat, order: nat)
    requires |m.zones| == MAX_ZONES && k < MAX_ZONES
  {
    && |n.pages| == |m.pages| && p < |m.pages|
    && (forall x: nat | x < |m.pages| ::
          Flags(n.pages[x]) == if order > 0 && InBlock(x, p, order) then Flags(MarkPage(m.pages[x], x == p, order, true))
                               else Flags(m.pages[x]))
    && (order > 0 ==> n.pages[p].order == order)
    && (forall x: nat | x < |m.pages| && !Covered(At(m, k), x) :: n.pages[x] == m.pages[x])
  }

  lemma ServeZonesSpec(m: Mem, order: nat, k: nat)
    requires MemInv(m) && NoDeficit(m) && order < MAX_ORDER && k < MAX_ZONES
    requires Alloc(At(m, k), order).1.Some?
    ensures var n := ServeFrom(m, order, k);
            MemInv(n) && NoDeficit(n) && ServedZones(m, n, k, Alloc(At(m, k), order).1.value, order)
  {
    hide Inv, Covered, Alloc, IsBlock, FreeSet, AllFree, Compound;
    var s := At(m, k);
    var (t, r) := Alloc(s, order);
    var p := r.value;
    InvShape(s);
    AllocSpec(s, order);
    AllocTouches(s, order);
    PutFrame(m, k, t);
    Pow2Mono(order, FirstOrder(s, order));
    assert InBlock(p, p, order);
    NotCoveredNotMarked(t, p);
    MarkFrame(Put(m, k, t), p, order, true);
  }

  /** The zone's own step leaves every page's marks alone, and pages that were not free altogether. */
  lemma AllocFlags(s: State, order: nat, x: nat)
    requires Inv(s) && x < |s.pages|
    ensures var t := Alloc(s, order).0;
            |t.pages| == |s.pages| && Flags(t.pages[x]) == Flags(s.pages[x]) && (!Covered(s, x) ==> t.pages[x] == s.pages[x])
  {
    hide Inv, Covered, Alloc;
    AllocTouches(s, order);
    if !Covered(s, x) { AllocKeeps(s, order, x); }
  }

  lemma ServePagesSpec(m: Mem, order: nat, k: nat)
    requires MemInv(m) && order < MAX_ORDER && k < MAX_ZONES
    requires Alloc(At(m, k), order).1.Some?
    ensures ServedPages(m, ServeFrom(m, order, k), k, Alloc(At(m, k), order).1.value, order)
  {
    hide Inv, Covered, Alloc, AllFree, IsBlock, FreeSet, Aligned, FirstOrder, Flags, Drift;
    var s := At(m, k);
    var (t, r) := Alloc(s, order);
    var p := r.value;
    InvShape(s);
    AllocSpec(s, order);
    AllFreeAt(s, p, order, p);
    forall x: nat | x < |m.pages|
      ensures |t.pages| == |m.pages| && Flags(t.pages[x]) == Flags(m.pages[x]) && (!Covered(s, x) ==> t.pages[x] == m.pages[x])
    {
      AllocFlags(s, order, x);
    }
    forall x: nat | x < |m.pages| && !Covered(s, x) ensures !InBlock(x, p, order) {
      if InBlock(x, p, order) { AllFreeAt(s, p, order, x); }
    }
    MarkedFlags(t.pages, p, order);
    forall x: nat | x < |m.pages|
      ensures Flags(MarkPage(t.pages[x], x == p, order, true)) == Flags(MarkPage(m.pages[x], x == p, order, true))
    {
      SameMark(t.pages[x], m.pages[x], x == p, order);
    }
  }

  lemma AllFreeAt(s: State, p: nat, order: nat, x: nat)
    requires AllFree(s, p, order) && (x == p || InBlock(x, p, order))
    ensures Covered(s, x) && InBlock(p, p, order)
  {
    hide Covered;
    assert InBlock(p, p, order);
  }

  lemma MarkedFlags(pages: seq<Page>, p: nat, order: nat)
    ensures var r := Compound(pages, p, order, true);
      forall x: nat | x < |pages| ::
        Flags(r[x]) == if order > 0 && InBlock(x, p, order) then Flags(MarkPage(pages[x], x == p, order, true)) else Flags(pages[x])
  {
    hide InBlock;
  }

  /** Marking a page sees only the page's own marks. */
  lemma SameMark(g: Page, h: Page, isHead: bool, order: nat)
    requires Flags(g) == Flags(h)
    ensures Flags(MarkPage(g, isHead, order, true)) == Flags(MarkPage(h, isHead, order, true))
  {
  }

  /** `alloc_pages` fails exactly when no permitted zone holds a run; otherwise the highest such zone serves. */
  lemma AllocPagesSpec(m: Mem, order: nat, z: nat) returns (k: int)
    requires MemInv(m) && NoDeficit(m) && order < MAX_ORDER && z < MAX_ZONES
    ensures -1 <= k <= z
    ensures forall i: nat | k < i <= z :: !HasRun(At(m, i), order)
    ensures k < 0 ==> AllocPages(m, order, z) == (m, None)
    ensures k >= 0 ==>
              && HasRun(At(m, k), order) && Alloc(At(m, k), order).1.Some?
              && AllocPages(m, order, z) == (ServeFrom(m, order, k), Alloc(At(m, k), order).1)
              && MemInv(ServeFrom(m, order, k)) && NoDeficit(ServeFrom(m, order, k))
              && ServedZones(m, ServeFrom(m, order, k), k, Alloc(At(m, k), order).1.value, order)
              && ServedPages(m, ServeFrom(m, order, k), k, Alloc(At(m, k), order).1.value, order)
  {
    hide Inv, HasRun, Alloc, ServedZones, ServedPages, Drift;
    k := AllocFromSpec(m, order, z);
    if k >= 0 {
      ServeZonesSpec(m, order, k);
      ServePagesSpec(m, order, k);
    }
  }

  /** Orders from MAX_ORDER up are refused without any change. */
  lemma {:induction false} AllocTooLarge(m: Mem, order: nat, z: int)
    requires MemInv(m) && order >= MAX_ORDER && z < MAX_ZONES
    ensures AllocFrom(m, order, z) == (m, None)
    decreases z
  {
    if z >= 0 {
      AllocTooLarge(m, order, z - 1);
    }
  }

  /** The block's pages become free in zone `k`; no other page changes. */
  ghost predicate FreedZones(m: Mem, n: Mem, k: nat, p: nat, order: nat)
    requires |m.zones| == |n.zones| == MAX_ZONES && k < MAX_ZONES
  {
    && (forall j: nat | j < MAX_ZONES :: n.zones[j].start == m.zones[j].start && n.zones[j].end == m.zones[j].end)
    && (forall x: nat :: Covered(At(n, k), x) <==> Covered(At(m, k), x) || InBlock(x, p, order))
    && (forall j: nat, x: nat | j < MAX_ZONES && j != k :: Covered(At(n, j), x) <==> Covered(At(m, j), x))
  }

  /** The compound marks of the block are gone; pages neither free nor freed are untouched. */
  ghost predicate FreedPages(m: Mem, n: Mem, k: nat, p: nat, order: nat)
    requires |m.zones| == MAX_ZONES && k < MAX_ZONES
  {
    && |n.pages| == |m.pages|
    && (forall x: nat | x < |m.pages| ::
          Flags(n.pages[x]) == if order > 0 && InBlock(x, p, order) then Flags(MarkPage(m.pages[x], x == p, order, false))
                               else Flags(m.pages[x]))
    && (forall x: nat | x < |m.pages| && !Covered(At(m, k), x) && !InBlock(x, p, order) :: n.pages[x] == m.pages[x])
  }

  ghost predicate BlockLegal(m: Mem, p: nat, order: nat) {
    && |m.zones| == MAX_ZONES && order < MAX_ORDER && p < |m.pages| && m.pages[p].zone < MAX_ZONES
    && FreeLegal(At(m, m.pages[p].zone), p, order)
  }

  lemma FreeZonesSpec(m: Mem, p: nat, order: nat)
    requires MemInv(m) && NoDeficit(m) && BlockLegal(m, p, order)
    ensures Shape(At(m, m.pages[p].zone))
    ensures var n := FreePages(m, p, order);
            MemInv(n) && NoDeficit(n) && FreedZones(m, n, m.pages[p].zone, p, order)
  {
    hide Inv, Covered, IsBlock, FreeSet, Compound, Free, Coalesce, Aligned;
    var z := m.pages[p].zone;
    InvShape(At(m, z));
    MarkFrame(m, p, order, false);
    var m1 := m.(pages := Compound(m.pages, p, order, false));
    FreeSpec(At(m1, z), p, order);
    InvShape(At(m1, z));
    Pow2Mono(order, Coalesce(At(m1, z), p, order).2);
    FreeTouches(At(m1, z), p, order);
    PutFrame(m1, z, Free(At(m1, z), p, order));
  }

  lemma FreePagesSpec(m: Mem, p: nat, order: nat)
    requires MemInv(m) && BlockLegal(m, p, order)
    ensures Shape(At(m, m.pages[p].zone))
    ensures FreedPages(m, FreePages(m, p, order), m.pages[p].zone, p, order)
  {
    hide Inv, Covered, IsBlock, FreeSet, Free, Aligned;
    var z := m.pages[p].zone;
    InvShape(At(m, z));
    MarkFrame(m, p, order, false);
    var m1 := m.(pages := Compound(m.pages, p, order, false));
    var s := At(m1, z);
    FreeTouches(s, p, order);
    var n := FreePages(m, p, order);
    forall x: nat | x < |m.pages| && !Covered(At(m, z), x) && !InBlock(x, p, order)
      ensures n.pages[x] == m.pages[x]
    {
      FreeKeeps(s, p, order, x);
    }
  }
}
