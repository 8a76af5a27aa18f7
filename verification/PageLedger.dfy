/**
 The page allocator as the rest of the kernel uses it (`get_free_pages` and
 `free_pages` of kernel/mm/pmm.c with default flags), over the ledger of blocks handed
 out; and what the marks of a page record say about that ledger.
 */
module PageLedger {

  import opened Common
  import opened Bits
  import opened Buddy
  import opened BuddyTheory
  import opened Pmm
  import opened PmmTheory
  import opened PmmRuns

  const ZONE_NORMAL: nat := 2

  /** `simple_get_free_pages`. */
  ghost function Get(y: Ledger, order: nat): (Ledger, Option<nat>)
    requires LedgerInv(y)
  {
    var (m, r) := Pmm.AllocPages(y.m, order, ZONE_NORMAL);
    (if r.None? then y.(m := m) else Ledger(m, y.live[r.value := order]), r)
  }

  /** The order a block has according to its first page's marks. */
  function MarkedOrder(g: Page): nat {
    if g.head && g.compound then g.order else 0
  }

  /** `simple_free_pages`. */
  ghost function Give(y: Ledger, p: nat, order: nat): Ledger
    requires LedgerInv(y) && p in y.live
  {
    LiveLegal(y, p);
    Ledger(FreePages(y.m, p, order), y.live - {p})
  }

  /** `page_set_flag(meta, PG_SLAB)`. */
  function MarkSlab(y: Ledger, p: nat): Ledger
    requires p < |y.m.pages|
  {
    y.(m := y.m.(pages := y.m.pages[p := y.m.pages[p].(slab := true)]))
  }

  predicate SameSlabs(y: Ledger, z: Ledger) {
    |z.m.pages| == |y.m.pages| && forall x | 0 <= x < |y.m.pages| :: z.m.pages[x].slab == y.m.pages[x].slab
  }

  /** A block that is handed out was in nobody's hands, and no slab mark changes. */
  lemma TakenSpec(y: Ledger, order: nat, zone: nat)
    requires LedgerInv(y) && zone < MAX_ZONES
    ensures var z := PmmRuns.Step(y, OpAlloc(order, zone)); var r := Pmm.AllocPages(y.m, order, zone).1;
      && LedgerInv(z) && (r.None? ==> z == y) && SameSlabs(y, z)
      && (r.Some? ==> r.value !in y.live && z.live == y.live[r.value := order] && r.value < |z.m.pages|)
  {
    hide LedgerInv, Inv, Covered, ServedZones, AllFree, HasRun;
    AllocStep(y, order, zone);
    LedgerParts(y);
    if order >= MAX_ORDER {
      AllocTooLarge(y.m, order, zone);
    } else {
      var k := AllocPagesSpec(y.m, order, zone);
      if k >= 0 {
        var p := Alloc(At(y.m, k), order).1.value;
        var n := ServeFrom(y.m, order, k);
        if p in y.live { ServedApart(y, n, k, p, order, p); }
        forall x: nat | x < |y.m.pages| ensures n.pages[x].slab == y.m.pages[x].slab {
          assert Flags(n.pages[x]).slab == Flags(y.m.pages[x]).slab;
        }
      }
    }
  }

  lemma GetSpec(y: Ledger, order: nat)
    requires LedgerInv(y)
    ensures var (z, r) := Get(y, order);
      && LedgerInv(z) && (r.None? ==> z == y) && SameSlabs(y, z)
      && (r.Some? ==> r.value !in y.live && z.live == y.live[r.value := order] && r.value < |z.m.pages|)
  {
    hide LedgerInv;
    TakenSpec(y, order, ZONE_NORMAL);
  }

  lemma LedgerParts(y: Ledger)
    requires LedgerInv(y)
    ensures MemInv(y.m) && NoDeficit(y.m) && |y.m.zones| == MAX_ZONES
  {
  }

  /** The marks of a block's first page tell the order it was handed out with. */
  lemma MarksTellOrder(y: Ledger, p: nat)
    requires LedgerInv(y) && p in y.live
    ensures p < |y.m.pages| && MarkedOrder(y.m.pages[p]) == y.live[p]
  {
    hide MemInv, NoDeficit, LiveDisjoint, TailOf, FreeLegal;
    assert BlockLegal(y.m, p, y.live[p]) && MarkOk(y.m.pages[p], y.live, p);
  }

  /** Freeing by the marks is freeing the block of the ledger. */
  lemma GiveSpec(y: Ledger, p: nat)
    requires LedgerInv(y) && p in y.live
    ensures p < |y.m.pages|
    ensures var z := Give(y, p, MarkedOrder(y.m.pages[p]));
      && z == PmmRuns.Step(y, OpFree(p)) && LedgerInv(z) && SameSlabs(y, z)
  {
    hide LedgerInv, Inv, Covered;
    MarksTellOrder(y, p);
    LiveLegal(y, p);
    FreeStep(y, p);
    LedgerParts(y);
    var z := Give(y, p, y.live[p]);
    assert z.live == (map q | q in y.live && q != p :: y.live[q]);
    FreePagesSpec(y.m, p, y.live[p]);
    forall x: nat | x < |y.m.pages| ensures z.m.pages[x].slab == y.m.pages[x].slab {
      assert Flags(z.m.pages[x]).slab == Flags(y.m.pages[x]).slab;
    }
  }

  /** The slab mark means nothing to the page allocator. */
  lemma MarkSlabSpec(y: Ledger, p: nat)
    requires LedgerInv(y) && p < |y.m.pages|
    ensures LedgerInv(MarkSlab(y, p)) && MarkSlab(y, p).live == y.live
  {
    hide Inv, Covered, FreeSet, TailOf, LiveDisjoint;
    var z := MarkSlab(y, p);
    forall i: nat | i < MAX_ZONES
      ensures Inv(At(z.m, i)) && Drift(At(z.m, i)) == Drift(At(y.m, i))
      ensures forall x: nat :: Covered(At(z.m, i), x) <==> Covered(At(y.m, i), x)
    {
      ZoneFrame(At(y.m, i), z.m.pages);
      assert At(z.m, i) == At(y.m, i).(pages := z.m.pages);
    }
    forall q: nat | q in z.live ensures BlockLegal(z.m, q, z.live[q]) {
      assert BlockLegal(y.m, q, y.live[q]);
    }
    forall x: nat | x < |z.m.pages| ensures MarkOk(z.m.pages[x], z.live, x) {
      assert MarkOk(y.m.pages[x], y.live, x);
    }
  }

  /** Blocks handed out lie side by side. */
  lemma LiveIntervals(y: Ledger, p: nat, q: nat)
    requires LedgerInv(y) && p in y.live && q in y.live && p != q
    ensures p + Pow2(y.live[p]) <= q || q + Pow2(y.live[q]) <= p
  {
    hide MemInv, NoDeficit, MarkOk;
    if p < q {
      if q < p + Pow2(y.live[p]) { LiveBlocksApart(y, p, q, q); }
    } else {
      if p < q + Pow2(y.live[q]) { LiveBlocksApart(y, p, q, p); }
    }
  }
}
