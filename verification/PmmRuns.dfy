/**
 Runs of allocations and frees over the whole memory, with the ledger of blocks
 handed out and not yet given back.
 */
module PmmRuns {

  import opened Bits
  import opened Buddy
  import opened BuddyTheory
  import opened Pmm
  import opened PmmTheory

  // --------------------------------------------------------------- ledger

  /** Memory with the blocks handed out and not yet given back (pfn to order). */
  datatype Ledger = Ledger(m: Mem, live: map<nat, nat>)

  ghost predicate LiveDisjoint(live: map<nat, nat>) {
    forall p: nat, q: nat | p in live && q in live && p != q :: !Overlap(p, live[p], q, live[q])
  }

  ghost predicate TailOf(live: map<nat, nat>, x: nat) {
    exists p: nat :: p in live && p < x && InBlock(x, p, live[p])
  }

  /** The compound marks of page `x` say exactly which live block it belongs to. */
  ghost predicate MarkOk(g: Page, live: map<nat, nat>, x: nat) {
    && (g.head <==> x in live && live[x] > 0)
    && (g.head ==> g.order == live[x])
    && (g.tail <==> TailOf(live, x))
    && (g.compound <==> g.head || g.tail)
  }

  ghost predicate LedgerInv(y: Ledger) {
    && MemInv(y.m) && NoDeficit(y.m)
    && (forall p: nat | p in y.live :: BlockLegal(y.m, p, y.live[p]))
    && LiveDisjoint(y.live)
    && (forall x: nat | x < |y.m.pages| :: MarkOk(y.m.pages[x], y.live, x))
  }

  datatype Op = OpAlloc(order: nat, zone: nat) | OpFree(pfn: nat)

  predicate Legal(y: Ledger, op: Op) {
    match op
    case OpAlloc(_, z) => z < MAX_ZONES
    case OpFree(p) => p in y.live
  }

  function Step(y: Ledger, op: Op): Ledger
    requires LedgerInv(y) && Legal(y, op)
  {
    match op
    case OpAlloc(o, z) =>
      var (m, r) := AllocPages(y.m, o, z);
      if r.None? then y.(m := m) else Ledger(m, y.live[r.value := o])
    case OpFree(p) =>
      assert BlockLegal(y.m, p, y.live[p]);
      Ledger(FreePages(y.m, p, y.live[p]), map q | q in y.live && q != p :: y.live[q])
  }

  /** The pages under management: free, or part of a live block. */
  ghost predicate Managed(y: Ledger, x: nat) {
    || FreePage(y.m, x)
    || exists p: nat :: p in y.live && InBlock(x, p, y.live[p])
  }

  // ---------------------------------------------------------- small facts

  lemma MemShape(m: Mem)
    requires MemInv(m)
    ensures |m.zones| == MAX_ZONES && forall z: nat | z < MAX_ZONES :: Inv(At(m, z))
  {
  }

  lemma PageZone(m: Mem, z: nat, p: nat)
    requires |m.zones| == MAX_ZONES && MemInv(m) && z < MAX_ZONES && m.zones[z].start <= p < m.zones[z].end
    ensures p < |m.pages| && m.pages[p].zone == z
  {
    InvShape(At(m, z));
  }

  lemma LiveNotFree(y: Ledger, q: nat, x: nat)
    requires LedgerInv(y) && q in y.live && InBlock(x, q, y.live[q])
    ensures x < |y.m.pages| && y.m.pages[x].zone < MAX_ZONES
    ensures forall j: nat | j < MAX_ZONES :: !Covered(At(y.m, j), x)
  {
    hide Inv, Covered, FreeSet, MarkOk, NoDeficit, LiveDisjoint, Aligned, MemInv;
    assert BlockLegal(y.m, q, y.live[q]);
    PageZone(y.m, y.m.pages[q].zone, x);
    forall j: nat | j < MAX_ZONES ensures !Covered(At(y.m, j), x) {
      if Covered(At(y.m, j), x) {
        CoveredPageZone(y.m, j, x);
      }
    }
  }

  lemma CoveredPageZone(m: Mem, z: nat, x: nat)
    requires |m.zones| == MAX_ZONES && MemInv(m) && z < MAX_ZONES && Covered(At(m, z), x)
    ensures x < |m.pages| && m.pages[x].zone == z
  {
    CoveredInZone(At(m, z), x);
    PageZone(m, z, x);
  }

  lemma LiveBlocksApart(y: Ledger, p: nat, q: nat, x: nat)
    requires LedgerInv(y) && p in y.live && q in y.live
    requires InBlock(x, p, y.live[p]) && InBlock(x, q, y.live[q])
    ensures p == q
  {
    hide Inv, Covered, MarkOk, MemInv;
    assert BlockLegal(y.m, p, y.live[p]) && BlockLegal(y.m, q, y.live[q]);
    SharesOverlap(p, y.live[p], q, y.live[q], x);
  }

  // ------------------------------------------------------------ allocation

  /** A served block overlaps no live block and was not live itself. */
  lemma ServedApart(y: Ledger, n: Mem, k: nat, p: nat, order: nat, q: nat)
    requires LedgerInv(y) && k < MAX_ZONES && |n.zones| == MAX_ZONES && order < MAX_ORDER
    requires ServedZones(y.m, n, k, p, order) && q in y.live
    ensures q != p && !Overlap(p, order, q, y.live[q])
    ensures forall x: nat :: !(InBlock(x, p, order) && InBlock(x, q, y.live[q]))
  {
    hide Inv, Covered, MarkOk, MemInv, Aligned;
    assert BlockLegal(y.m, q, y.live[q]);
    assert InBlock(p, p, order) && InBlock(q, q, y.live[q]);
    forall x: nat ensures !(InBlock(x, p, order) && InBlock(x, q, y.live[q])) {
      if InBlock(x, p, order) {
        assert Covered(At(y.m, k), x);
        if InBlock(x, q, y.live[q]) {
          LiveNotFree(y, q, x);
        }
      }
    }
    if Overlap(p, order, q, y.live[q]) {
      var x := OverlapShares(p, order, q, y.live[q]);
    }
  }

  lemma AllocKeepsBlocks(y: Ledger, n: Mem, k: nat, p: nat, order: nat)
    requires LedgerInv(y) && k < MAX_ZONES && order < MAX_ORDER && |n.zones| == MAX_ZONES
    requires MemInv(n) && ServedZones(y.m, n, k, p, order) && ServedPages(y.m, n, k, p, order)
    ensures p !in y.live
    ensures var live := y.live[p := order];
            LiveDisjoint(live) && forall q: nat | q in live :: BlockLegal(n, q, live[q])
  {
    hide Inv, Covered, MarkOk, Aligned, FreeSet, Overlap, MemInv, NoDeficit;
    var live := y.live[p := order];
    PageZone(n, k, p);
    forall q: nat | q in y.live
      ensures q != p && !Overlap(p, order, q, y.live[q]) && !Overlap(q, y.live[q], p, order)
      ensures BlockLegal(n, q, y.live[q])
    {
      ServedApart(y, n, k, p, order, q);
      OverlapSym(p, order, q, y.live[q]);
      assert BlockLegal(y.m, q, y.live[q]) && InBlock(q, q, y.live[q]);
      LiveNotFree(y, q, q);
    }
    assert BlockLegal(n, p, order);
  }

  lemma OverlapSym(p: nat, o: nat, q: nat, r: nat)
    ensures Overlap(p, o, q, r) == Overlap(q, r, p, o)
  {
  }

  lemma TailAfterAlloc(live: map<nat, nat>, p: nat, order: nat, x: nat)
    requires p !in live
    ensures TailOf(live[p := order], x) <==> TailOf(live, x) || (p < x && InBlock(x, p, order))
  {
    var live' := live[p := order];
    if TailOf(live, x) {
      var q: nat :| q in live && q < x && InBlock(x, q, live[q]);
      assert q in live' && live'[q] == live[q];
    }
    if p < x && InBlock(x, p, order) {
      assert p in live' && live'[p] == order;
    }
  }

  lemma AllocKeepsMarks(y: Ledger, n: Mem, k: nat, p: nat, order: nat, x: nat)
    requires LedgerInv(y) && k < MAX_ZONES && order < MAX_ORDER && |n.zones| == MAX_ZONES
    requires ServedZones(y.m, n, k, p, order) && ServedPages(y.m, n, k, p, order)
    requires p !in y.live && x < |n.pages|
    ensures MarkOk(n.pages[x], y.live[p := order], x)
  {
    hide Inv, Covered, Aligned, FreeSet, Overlap, MemInv, TailOf;
    TailAfterAlloc(y.live, p, order, x);
    assert MarkOk(y.m.pages[x], y.live, x);
    assert Flags(n.pages[x]).head == n.pages[x].head && Flags(n.pages[x]).tail == n.pages[x].tail;
    if InBlock(x, p, order) {
      ServedNotTail(y, n, k, p, order, x);
    } else if x in y.live {
      assert BlockLegal(y.m, x, y.live[x]) && InBlock(x, x, y.live[x]);
      LiveNotFree(y, x, x);
    }
  }

  lemma ServedNotTail(y: Ledger, n: Mem, k: nat, p: nat, order: nat, x: nat)
    requires LedgerInv(y) && k < MAX_ZONES && order < MAX_ORDER && |n.zones| == MAX_ZONES
    requires ServedZones(y.m, n, k, p, order) && InBlock(x, p, order)
    ensures x !in y.live && !TailOf(y.live, x)
  {
    hide Inv, Covered, Aligned, FreeSet, Overlap, MemInv;
    if x in y.live {
      assert InBlock(x, x, y.live[x]);
      ServedApart(y, n, k, p, order, x);
    }
    if TailOf(y.live, x) {
      var q: nat :| q in y.live && q < x && InBlock(x, q, y.live[q]);
      ServedApart(y, n, k, p, order, q);
    }
  }

  lemma AllocKeepsManaged(y: Ledger, n: Mem, k: nat, p: nat, order: nat, x: nat)
    requires LedgerInv(y) && k < MAX_ZONES && order < MAX_ORDER && |n.zones| == MAX_ZONES
    requires ServedZones(y.m, n, k, p, order) && p !in y.live
    ensures Managed(Ledger(n, y.live[p := order]), x) <==> Managed(y, x)
  {
    hide Inv, Covered, Aligned, MemInv, InBlock, MarkOk;
    MemShape(y.m);
    var y' := Ledger(n, y.live[p := order]);
    if FreePage(y.m, x) {
      var z: nat :| z < MAX_ZONES && Covered(At(y.m, z), x);
      if z == k && InBlock(x, p, order) {
        assert p in y'.live && InBlock(x, p, y'.live[p]);
      } else {
        assert Covered(At(n, z), x);
      }
    } else if q: nat :| q in y.live && InBlock(x, q, y.live[q]) {
      assert q in y'.live && InBlock(x, q, y'.live[q]);
    }
    if FreePage(n, x) {
      var z: nat :| z < MAX_ZONES && Covered(At(n, z), x);
      assert Covered(At(y.m, z), x);
    } else if q: nat :| q in y'.live && InBlock(x, q, y'.live[q]) {
      if q == p {
        assert Covered(At(y.m, k), x);
      } else {
        assert q in y.live && InBlock(x, q, y.live[q]);
      }
    }
  }

  lemma AllocStep(y: Ledger, order: nat, z: nat)
    requires LedgerInv(y) && z < MAX_ZONES
    ensures LedgerInv(Step(y, OpAlloc(order, z)))
    ensures forall x: nat :: Managed(Step(y, OpAlloc(order, z)), x) <==> Managed(y, x)
  {
    hide MemInv, NoDeficit, LiveDisjoint, MarkOk, BlockLegal, Managed, ServedZones, ServedPages, Alloc, HasRun, At;
    MemShape(y.m);
    if order >= MAX_ORDER {
      AllocTooLarge(y.m, order, z);
      assert Step(y, OpAlloc(order, z)) == y;
    } else {
      var k := AllocPagesSpec(y.m, order, z);
      if k < 0 {
        assert Step(y, OpAlloc(order, z)) == y;
      } else {
        var n, p := ServeFrom(y.m, order, k), Alloc(At(y.m, k), order).1.value;
        assert Step(y, OpAlloc(order, z)) == Ledger(n, y.live[p := order]);
        MemShape(n);
        AllocKeepsBlocks(y, n, k, p, order);
        forall x: nat | x < |n.pages| ensures MarkOk(n.pages[x], y.live[p := order], x) {
          AllocKeepsMarks(y, n, k, p, order, x);
        }
        forall x: nat ensures Managed(Ledger(n, y.live[p := order]), x) <==> Managed(y, x) {
          AllocKeepsManaged(y, n, k, p, order, x);
        }
      }
    }
  }

  // ---------------------------------------------------------------- freeing

  function Without(live: map<nat, nat>, p: nat): map<nat, nat> {
    map q | q in live && q != p :: live[q]
  }

  lemma FreedApart(y: Ledger, p: nat, q: nat)
    requires LedgerInv(y) && p in y.live && q in y.live && p != q
    ensures forall x: nat :: !(InBlock(x, p, y.live[p]) && InBlock(x, q, y.live[q]))
    ensures InBlock(q, q, y.live[q])
  {
    hide MemInv, NoDeficit, LiveDisjoint, MarkOk, BlockLegal, LedgerInv;
    forall x: nat ensures !(InBlock(x, p, y.live[p]) && InBlock(x, q, y.live[q])) {
      if InBlock(x, p, y.live[p]) && InBlock(x, q, y.live[q]) {
        LiveBlocksApart(y, p, q, x);
      }
    }
  }

  /** A block still live is as legal after another one is freed. */
  lemma StillLegal(y: Ledger, n: Mem, p: nat, q: nat)
    requires LedgerInv(y) && p in y.live && q in y.live && q != p && |n.zones| == MAX_ZONES
    requires BlockLegal(y.m, p, y.live[p])
    requires FreedZones(y.m, n, y.m.pages[p].zone, p, y.live[p])
    requires FreedPages(y.m, n, y.m.pages[p].zone, p, y.live[p])
    ensures BlockLegal(n, q, y.live[q])
  {
    hide Inv, Covered, MarkOk, Aligned, FreeSet, Overlap, MemInv, NoDeficit, LiveDisjoint, Pow2;
    FreedApart(y, p, q);
    LiveNotFree(y, q, q);
    assert BlockLegal(y.m, q, y.live[q]);
  }

  lemma FreeKeepsBlocks(y: Ledger, n: Mem, p: nat)
    requires LedgerInv(y) && p in y.live && |n.zones| == MAX_ZONES
    requires BlockLegal(y.m, p, y.live[p])
    requires FreedZones(y.m, n, y.m.pages[p].zone, p, y.live[p])
    requires FreedPages(y.m, n, y.m.pages[p].zone, p, y.live[p])
    ensures LiveDisjoint(Without(y.live, p))
    ensures forall q: nat | q in Without(y.live, p) :: BlockLegal(n, q, y.live[q])
  {
    hide MarkOk, Overlap, MemInv, NoDeficit, BlockLegal, FreedZones, FreedPages;
    forall q: nat | q in Without(y.live, p) ensures BlockLegal(n, q, y.live[q]) { StillLegal(y, n, p, q); }
  }

  lemma TailAfterFree(live: map<nat, nat>, p: nat, x: nat)
    requires p in live
    ensures TailOf(live, x) <==> TailOf(Without(live, p), x) || (p < x && InBlock(x, p, live[p]))
  {
    if TailOf(live, x) {
      var q: nat :| q in live && q < x && InBlock(x, q, live[q]);
      if q != p {
        assert q in Without(live, p);
      }
    }
  }

  lemma FreeKeepsMarks(y: Ledger, n: Mem, p: nat, x: nat)
    requires LedgerInv(y) && p in y.live && |n.zones| == MAX_ZONES
    requires BlockLegal(y.m, p, y.live[p])
    requires FreedZones(y.m, n, y.m.pages[p].zone, p, y.live[p])
    requires FreedPages(y.m, n, y.m.pages[p].zone, p, y.live[p])
    requires x < |n.pages|
    ensures MarkOk(n.pages[x], Without(y.live, p), x)
  {
    hide Inv, Covered, Aligned, FreeSet, Overlap, MemInv, NoDeficit, TailOf, FreedZones, FreeLegal;
    var live := Without(y.live, p);
    TailAfterFree(y.live, p, x);
    assert MarkOk(y.m.pages[x], y.live, x);
    assert Flags(n.pages[x]).head == n.pages[x].head && Flags(n.pages[x]).tail == n.pages[x].tail;
    if InBlock(x, p, y.live[p]) {
      FreedNotTail(y, p, x);
    } else if x in y.live {
      FreedApart(y, p, x);
      LiveNotFree(y, x, x);
    }
  }

  lemma FreedNotTail(y: Ledger, p: nat, x: nat)
    requires LedgerInv(y) && p in y.live && InBlock(x, p, y.live[p])
    ensures x !in Without(y.live, p) && !TailOf(Without(y.live, p), x)
  {
    hide LedgerInv;
    if x in y.live && x != p {
      FreedApart(y, p, x);
    }
    if TailOf(Without(y.live, p), x) {
      var q: nat :| q in Without(y.live, p) && q < x && InBlock(x, q, Without(y.live, p)[q]);
      FreedApart(y, p, q);
    }
  }

  lemma FreeKeepsManaged(y: Ledger, n: Mem, p: nat, x: nat)
    requires LedgerInv(y) && p in y.live && |n.zones| == MAX_ZONES
    requires BlockLegal(y.m, p, y.live[p])
    requires FreedZones(y.m, n, y.m.pages[p].zone, p, y.live[p])
    ensures Managed(Ledger(n, Without(y.live, p)), x) <==> Managed(y, x)
  {
    hide Inv, Covered, Aligned, MemInv, InBlock, MarkOk, FreeLegal;
    var y' := Ledger(n, Without(y.live, p));
    var k := y.m.pages[p].zone;
    if FreePage(y.m, x) {
      var z: nat :| z < MAX_ZONES && Covered(At(y.m, z), x);
      assert Covered(At(n, z), x);
    } else if q: nat :| q in y.live && InBlock(x, q, y.live[q]) {
      if q == p {
        assert Covered(At(n, k), x);
      } else {
        assert q in y'.live && InBlock(x, q, y'.live[q]);
      }
    }
    if FreePage(n, x) {
      var z: nat :| z < MAX_ZONES && Covered(At(n, z), x);
      if !Covered(At(y.m, z), x) {
        assert p in y.live && InBlock(x, p, y.live[p]);
      }
    } else if q: nat :| q in y'.live && InBlock(x, q, y'.live[q]) {
      assert q in y.live && InBlock(x, q, y.live[q]);
    }
  }

  lemma FreeStep(y: Ledger, p: nat)
    requires LedgerInv(y) && p in y.live
    ensures LedgerInv(Step(y, OpFree(p)))
    ensures forall x: nat :: Managed(Step(y, OpFree(p)), x) <==> Managed(y, x)
  {
    hide MemInv, NoDeficit, LiveDisjoint, MarkOk, BlockLegal, Managed, FreedZones, FreedPages, At, FreePages;
    LiveLegal(y, p);
    FreeZonesSpec(y.m, p, y.live[p]);
    FreePagesSpec(y.m, p, y.live[p]);
    var n := FreePages(y.m, p, y.live[p]);
    assert Step(y, OpFree(p)) == Ledger(n, Without(y.live, p));
    MemShape(y.m);
    MemShape(n);
    FreeKeepsBlocks(y, n, p);
    forall x: nat | x < |n.pages| ensures MarkOk(n.pages[x], Without(y.live, p), x) {
      FreeKeepsMarks(y, n, p, x);
    }
    forall x: nat ensures Managed(Ledger(n, Without(y.live, p)), x) <==> Managed(y, x) {
      FreeKeepsManaged(y, n, p, x);
    }
  }

  lemma LiveLegal(y: Ledger, p: nat)
    requires LedgerInv(y) && p in y.live
    ensures BlockLegal(y.m, p, y.live[p]) && p < |y.m.pages| && y.m.pages[p].zone < |y.m.zones|
    ensures Shape(At(y.m, y.m.pages[p].zone))
  {
    InvShape(At(y.m, y.m.pages[p].zone));
  }

  // ------------------------------------------------------------------- runs

  lemma StepKeeps(y: Ledger, op: Op)
    requires LedgerInv(y) && Legal(y, op)
    ensures LedgerInv(Step(y, op))
    ensures forall x: nat :: Managed(Step(y, op), x) <==> Managed(y, x)
  {
    hide LedgerInv, Managed;
    match op
    case OpAlloc(o, z) => AllocStep(y, o, z);
    case OpFree(p) => FreeStep(y, p);
  }

  /** Every free in the run names a block that is live at that point. */
  ghost predicate LegalRun(y: Ledger, ops: seq<Op>)
    requires LedgerInv(y)
    decreases |ops|
  {
    ops == [] || (Legal(y, ops[0]) && (StepKeeps(y, ops[0]); LegalRun(Step(y, ops[0]), ops[1..])))
  }

  ghost function Run(y: Ledger, ops: seq<Op>): Ledger
    requires LedgerInv(y) && LegalRun(y, ops)
    decreases |ops|
  {
    if ops == [] then y else StepKeeps(y, ops[0]); Run(Step(y, ops[0]), ops[1..])
  }

  /** Over every run the zones stay canonical, live blocks stay apart, and no page is lost or gained. */
  lemma {:induction false} RunKeeps(y: Ledger, ops: seq<Op>)
    requires LedgerInv(y) && LegalRun(y, ops)
    ensures LedgerInv(Run(y, ops))
    ensures forall x: nat :: Managed(Run(y, ops), x) <==> Managed(y, x)
    decreases |ops|
  {
    hide LedgerInv, Managed;
    if ops != [] {
      StepKeeps(y, ops[0]);
      RunKeeps(Step(y, ops[0]), ops[1..]);
    }
  }

  lemma RestoredBlocks(m: Mem, m1: Mem, m2: Mem, k: nat, p: nat, order: nat)
    requires |m.zones| == |m1.zones| == |m2.zones| == MAX_ZONES && k < MAX_ZONES
    requires MemInv(m) && MemInv(m2)
    requires ServedZones(m, m1, k, p, order) && FreedZones(m1, m2, k, p, order)
    ensures forall i: nat, q: nat, o: nat | i < MAX_ZONES :: IsBlock(At(m2, i), q, o) <==> IsBlock(At(m, i), q, o)
  {
    hide Inv, Covered, IsBlock, Aligned, InBlock;
    forall i: nat | i < MAX_ZONES
      ensures forall q: nat, o: nat :: IsBlock(At(m2, i), q, o) <==> IsBlock(At(m, i), q, o)
    {
      forall x: nat ensures Covered(At(m2, i), x) <==> Covered(At(m, i), x) { }
      CanonicalForm(At(m2, i), At(m, i));
    }
  }

  lemma RestoredFlags(m: Mem, m1: Mem, m2: Mem, k: nat, p: nat, order: nat)
    requires |m.zones| == |m1.zones| == MAX_ZONES && k < MAX_ZONES
    requires ServedPages(m, m1, k, p, order) && FreedPages(m1, m2, k, p, order)
    requires forall x: nat | x < |m.pages| && InBlock(x, p, order) :: !m.pages[x].compound && !m.pages[x].head && !m.pages[x].tail
    ensures |m2.pages| == |m.pages| && forall x: nat | x < |m.pages| :: Flags(m2.pages[x]) == Flags(m.pages[x])
  {
    hide Covered, InBlock;
    forall x: nat | x < |m.pages| ensures Flags(m2.pages[x]) == Flags(m.pages[x]) {
      if order > 0 && InBlock(x, p, order) {
        assert Flags(m1.pages[x]) == Flags(MarkPage(m.pages[x], x == p, order, true));
        assert Flags(m2.pages[x]) == Flags(MarkPage(m1.pages[x], x == p, order, false));
      }
    }
  }

  lemma ServedLegal(m: Mem, n: Mem, k: nat, p: nat, order: nat)
    requires |m.zones| == |n.zones| == MAX_ZONES && k < MAX_ZONES && order < MAX_ORDER
    requires MemInv(n) && ServedZones(m, n, k, p, order)
    ensures BlockLegal(n, p, order) && n.pages[p].zone == k
  {
    PageZone(n, k, p);
  }

  /** Allocating a block and freeing it again restores every free list, as a set, and every page flag. */
  lemma AllocThenFree(m: Mem, order: nat, z: nat)
    requires MemInv(m) && NoDeficit(m) && order < MAX_ORDER && z < MAX_ZONES
    requires AllocPages(m, order, z).1.Some?
    requires forall x: nat | x < |m.pages| && FreePage(m, x) :: !m.pages[x].compound && !m.pages[x].head && !m.pages[x].tail
    ensures var (m1, r) := AllocPages(m, order, z); var p := r.value;
            && BlockLegal(m1, p, order) && Shape(At(m1, m1.pages[p].zone))
            && var m2 := FreePages(m1, p, order);
            && MemInv(m2) && |m2.pages| == |m.pages|
            && (forall i: nat, q: nat, o: nat | i < MAX_ZONES :: IsBlock(At(m2, i), q, o) <==> IsBlock(At(m, i), q, o))
            && (forall x: nat | x < |m.pages| :: Flags(m2.pages[x]) == Flags(m.pages[x]))
  {
    hide MemInv, NoDeficit, Alloc, HasRun, IsBlock, FreePages, ServedZones, ServedPages, FreedZones, FreedPages, Flags;
    MemShape(m);
    var k := AllocPagesSpec(m, order, z);
    var (m1, r) := AllocPages(m, order, z);
    var p := r.value;
    MemShape(m1);
    ServedLegal(m, m1, k, p, order);
    FreeZonesSpec(m1, p, order);
    FreePagesSpec(m1, p, order);
    MemShape(FreePages(m1, p, order));
    RestoredBlocks(m, m1, FreePages(m1, p, order), k, p, order);
    ServedWasFree(m, m1, k, p, order);
    RestoredFlags(m, m1, FreePages(m1, p, order), k, p, order);
  }

  lemma ServedWasFree(m: Mem, n: Mem, k: nat, p: nat, order: nat)
    requires |m.zones| == |n.zones| == MAX_ZONES && k < MAX_ZONES && ServedZones(m, n, k, p, order)
    ensures forall x: nat :: InBlock(x, p, order) ==> FreePage(m, x)
  {
    hide Covered, Aligned;
    forall x: nat | InBlock(x, p, order) ensures FreePage(m, x) {
      assert Covered(At(m, k), x);
    }
  }
}
