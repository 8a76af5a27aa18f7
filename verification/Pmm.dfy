/**
 The zone front end (kernel/mm/pmm.c): three zones over one page array, the
 downward zone fallback of `alloc_pages`, compound page marks, and the ledger of
 blocks that are allocated and not yet freed.
 */
module Pmm {

  import opened Common
  import opened Bits
  import opened Buddy
  import opened BuddyTheory

  const MAX_ZONES: nat := 3
  const DMA_END: nat := 4096         // 16 MiB in pages
  const DMA32_END: nat := 1048576    // 4 GiB in pages

  function ZoneOf(pfn: nat): nat {
    if pfn < DMA_END then 0 else if pfn < DMA32_END then 1 else 2
  }

  /** The page array and the three zones; a zone's own `pages` component is left empty. */
  datatype Mem = Mem(pages: seq<Page>, zones: seq<State>)

  function At(m: Mem, z: nat): State
    requires z < |m.zones|
  {
    m.zones[z].(pages := m.pages)
  }

  function Put(m: Mem, z: nat, s: State): Mem
    requires z < |m.zones|
  {
    Mem(s.pages, m.zones[z := s.(pages := [])])
  }

  /** Try the zones from `z` down to zone 0. */
  function AllocFrom(m: Mem, order: nat, z: int): (Mem, Option<nat>)
    requires z < |m.zones| && forall i: nat | i < |m.zones| :: Inv(At(m, i))
    decreases z
  {
    if z < 0 then (m, None)
    else if At(m, z).freePages < Pow2(order) then AllocFrom(m, order, z - 1)
    else
      var (s, r) := Alloc(At(m, z), order);
      if r.Some? then (Put(m, z, s), r) else AllocFrom(m, order, z - 1)
  }

  function MarkPage(g: Page, isHead: bool, order: nat, on: bool): Page {
    if !isHead then g.(tail := on, compound := on)
    else if on then g.(head := true, compound := true, order := order)
    else g.(head := false, compound := false)
  }

  /** Mark or unmark the 2^order pages from `p` on as one compound block. */
  function Compound(pages: seq<Page>, p: nat, order: nat, on: bool): (r: seq<Page>)
    ensures |r| == |pages|
    ensures forall i: nat | i < |pages| ::
              r[i] == if order > 0 && InBlock(i, p, order) then MarkPage(pages[i], i == p, order, on) else pages[i]
  {
    seq(|pages|, i requires 0 <= i < |pages| =>
      if order > 0 && InBlock(i, p, order) then MarkPage(pages[i], i == p, order, on) else pages[i])
  }

  function AllocPages(m: Mem, order: nat, z: nat): (Mem, Option<nat>)
    requires z < |m.zones| && forall i: nat | i < |m.zones| :: Inv(At(m, i))
  {
    var (m1, r) := AllocFrom(m, order, z);
    if r.None? then (m1, r) else (m1.(pages := Compound(m1.pages, r.value, order, true)), r)
  }

  function FreePages(m: Mem, p: nat, order: nat): Mem
    requires p < |m.pages| && m.pages[p].zone < |m.zones|
    requires Shape(At(m, m.pages[p].zone))
  {
    var m1 := m.(pages := Compound(m.pages, p, order, false));
    Put(m1, m.pages[p].zone, Free(At(m1, m.pages[p].zone), p, order))
  }

  // ------------------------------------------------------------ invariant

  ghost predicate MemInv(m: Mem) {
    && |m.zones| == MAX_ZONES
    && (forall z: nat | z < MAX_ZONES :: Inv(At(m, z)))
    && m.zones[0].end <= m.zones[1].start && m.zones[1].end <= m.zones[2].start
    && m.zones[0].end <= m.zones[2].start
    && (forall z: nat, p: nat | z < MAX_ZONES && p < |m.pages| && m.zones[z].start <= p < m.zones[z].end ::
          m.pages[p].zone == z)
  }

  ghost predicate FreePage(m: Mem, x: nat) {
    exists z: nat :: z < |m.zones| && Covered(At(m, z), x)
  }

  predicate SameMark(a: Page, b: Page) {
    a.buddy == b.buddy && (a.buddy ==> a.order == b.order)
  }

  /** The page array changed only where the zone does not look, or in fields it ignores. */
  ghost predicate SamePages(s: State, pages: seq<Page>) {
    && |pages| == |s.pages|
    && forall p: nat | p < |pages| && s.start <= p < s.end :: SameMark(s.pages[p], pages[p])
  }

  lemma ZoneFrame(s: State, pages: seq<Page>)
    requires Inv(s) && SamePages(s, pages)
    ensures Inv(s.(pages := pages))
    ensures forall p: nat, o: nat :: IsBlock(s.(pages := pages), p, o) <==> IsBlock(s, p, o)
    ensures forall x: nat :: Covered(s.(pages := pages), x) <==> Covered(s, x)
    ensures FreeSet(s.(pages := pages)) == FreeSet(s)
  {
    var t := s.(pages := pages);
    assert forall p: nat, o: nat :: IsBlock(t, p, o) <==> IsBlock(s, p, o);
    assert forall x: nat :: Covered(t, x) <==> Covered(s, x);
    forall p: nat, o: nat | IsBlock(t, p, o) ensures BlockOk(t, p, o) {
      assert BlockOk(s, p, o);
      assert SameMark(s.pages[p], pages[p]);
    }
    assert Lists(t) && Marks(t) && Disjoint(t) && Coalesced(t);
  }

  // -------------------------------------------- what an operation touches

  /** Only buddy marks of pages inside the zone may differ. */
  ghost predicate Touches(s: State, t: State) {
    && s.start == t.start && s.end == t.end && |t.pages| == |s.pages|
    && forall p: nat | p < |s.pages| ::
         t.pages[p] == if s.start <= p < s.end
                       then s.pages[p].(buddy := t.pages[p].buddy, order := t.pages[p].order)
                       else s.pages[p]
  }

  lemma TouchesRefl(s: State)
    ensures Touches(s, s)
  {
  }

  lemma TouchesTrans(s: State, t: State, u: State)
    requires Touches(s, t) && Touches(t, u)
    ensures Touches(s, u)
  {
    forall p: nat | p < |s.pages|
      ensures u.pages[p] == if s.start <= p < s.end
                            then s.pages[p].(buddy := u.pages[p].buddy, order := u.pages[p].order)
                            else s.pages[p]
    {
      assert t.pages[p] == t.pages[p];
    }
  }

  lemma SplitTouches(s: State, p: nat, h: nat)
    requires Shape(s) && h < MAX_ORDER && s.start <= p && p + Pow2(h) < s.end
    ensures Touches(s, SplitOff(s, p, h)) && Shape(SplitOff(s, p, h))
    ensures SplitOff(s, p, h).start == s.start && SplitOff(s, p, h).end == s.end
  {
  }

  lemma {:induction false} ExpandTouches(s: State, p: nat, low: nat, high: nat)
    requires Shape(s) && high <= MAX_ORDER && s.start <= p && p + Pow2(high) <= s.end
    ensures Touches(s, Expand(s, p, low, high))
    decreases high
  {
    hide Touches, AddToFreeArea;
    TouchesRefl(s);
    if high > low {
      var t := SplitOff(s, p, high - 1);
      SplitTouches(s, p, high - 1);
      ExpandTouches(t, p, low, high - 1);
      TouchesTrans(s, t, Expand(t, p, low, high - 1));
    }
  }

  lemma AllocTouches(s: State, order: nat)
    requires Inv(s)
    ensures Touches(s, Alloc(s, order).0)
  {
    if Alloc(s, order).1.Some? {
      var c := FirstOrder(s, order);
      var p := s.areas[c].list[0];
      InvBlockOk(s, p, c);
      var t := RemoveFromFreeArea(s, p, c);
      assert Touches(s, t);
      ExpandTouches(t, p, order, c);
      TouchesTrans(s, t, Expand(t, p, order, c));
    }
  }

  lemma {:induction false} CoalesceTouches(s: State, p: nat, o: nat)
    requires Shape(s) && p < |s.pages| && o < MAX_ORDER
    ensures Touches(s, Coalesce(s, p, o).0)
    decreases MAX_ORDER - o
  {
    if o < MAX_ORDER - 1 && PageIsBuddy(s, BuddyPfn(p, o), o) {
      AndNotPow2(p, o);
      var t := RemoveFromFreeArea(s, BuddyPfn(p, o), o);
      assert Touches(s, t);
      CoalesceTouches(t, CombinedPfn(p, o), o + 1);
      TouchesTrans(s, t, Coalesce(t, CombinedPfn(p, o), o + 1).0);
    }
  }

  lemma FreeTouches(s: State, p: nat, o: nat)
    requires Inv(s) && o < MAX_ORDER && FreeLegal(s, p, o)
    ensures Touches(s, Free(s, p, o))
  {
    ClearIff(s, p, o);
    CoalesceTouches(s, p, o);
    CoalesceSpec(s, p, o);
    var (t, q, r) := Coalesce(s, p, o);
    assert Touches(t, Free(s, p, o));
    TouchesTrans(s, t, Free(s, p, o));
  }

  lemma {:induction false} ExpandKeeps(s: State, p: nat, low: nat, high: nat, x: nat)
    requires Shape(s) && high <= MAX_ORDER && p + Pow2(high) <= |s.pages| && x < |s.pages|
    requires !InBlock(x, p, high)
    ensures Expand(s, p, low, high).pages[x] == s.pages[x]
    decreases high
  {
    if high > low {
      assert Expand(s, p, low, high) == Expand(SplitOff(s, p, high - 1), p, low, high - 1);
      ExpandKeeps(SplitOff(s, p, high - 1), p, low, high - 1, x);
    }
  }

  /** Allocation leaves pages alone that were not free. */
  lemma AllocKeeps(s: State, order: nat, x: nat)
    requires Inv(s) && x < |s.pages| && !Covered(s, x)
    ensures |Alloc(s, order).0.pages| == |s.pages| && Alloc(s, order).0.pages[x] == s.pages[x]
  {
    if Alloc(s, order).1.Some? {
      var c := FirstOrder(s, order);
      var p := s.areas[c].list[0];
      InvBlockOk(s, p, c);
      if InBlock(x, p, c) {
        BlockCovers(s, p, c, x);
      }
      ExpandKeeps(RemoveFromFreeArea(s, p, c), p, order, c, x);
    }
  }

  lemma {:induction false} CoalesceKeeps(s: State, p: nat, o: nat, x: nat)
    requires Inv(s) && o < MAX_ORDER && Aligned(p, o) && Clear(s, p, o)
    requires s.start <= p && p + Pow2(o) <= s.end
    requires x < |s.pages| && !Covered(s, x)
    ensures Coalesce(s, p, o).0.pages[x] == s.pages[x]
    decreases MAX_ORDER - o
  {
    hide Inv, Clear, Aligned, Covered, IsBlock;
    InvShape(s);
    var b := BuddyPfn(p, o);
    BuddyFlagIsBlock(s, b, o);
    if o < MAX_ORDER - 1 && PageIsBuddy(s, b, o) {
      MergeSpec(s, p, o);
      RemoveUncovers(s, b, o);
      InvBlockOk(s, b, o);
      if x == b {
        BlockCovers(s, b, o, b);
      }
      CoalesceKeeps(RemoveFromFreeArea(s, b, o), CombinedPfn(p, o), o + 1, x);
    }
  }

  /** Freeing leaves pages alone that were not free and are not being freed. */
  lemma FreeKeeps(s: State, p: nat, o: nat, x: nat)
    requires Inv(s) && o < MAX_ORDER && FreeLegal(s, p, o)
    requires x < |s.pages| && !Covered(s, x) && !InBlock(x, p, o)
    ensures |Free(s, p, o).pages| == |s.pages| && Free(s, p, o).pages[x] == s.pages[x]
  {
    hide Inv, Clear, Aligned, Covered, IsBlock;
    InvShape(s);
    ClearIff(s, p, o);
    CoalesceKeeps(s, p, o, x);
    CoalesceSpec(s, p, o);
    var (t, q, r) := Coalesce(s, p, o);
    assert InBlock(q, q, r);
  }

  /** Replacing one zone by the result of an operation on it leaves the other zones alone. */
  lemma PutFrame(m: Mem, z: nat, s: State)
    requires MemInv(m) && z < MAX_ZONES && Inv(s) && Touches(At(m, z), s)
    ensures MemInv(Put(m, z, s)) && At(Put(m, z, s), z) == s
    ensures forall j: nat | j < MAX_ZONES && j != z ::
              && At(Put(m, z, s), j) == At(m, j).(pages := s.pages)
              && (forall p: nat, o: nat :: IsBlock(At(Put(m, z, s), j), p, o) <==> IsBlock(At(m, j), p, o))
              && (forall x: nat :: Covered(At(Put(m, z, s), j), x) <==> Covered(At(m, j), x))
              && FreeSet(At(Put(m, z, s), j)) == FreeSet(At(m, j))
  {
    var n := Put(m, z, s);
    assert At(n, z) == s;
    forall j: nat | j < MAX_ZONES && j != z
      ensures Inv(At(n, j))
      ensures At(n, j) == At(m, j).(pages := s.pages)
      ensures forall p: nat, o: nat :: IsBlock(At(n, j), p, o) <==> IsBlock(At(m, j), p, o)
      ensures forall x: nat :: Covered(At(n, j), x) <==> Covered(At(m, j), x)
      ensures FreeSet(At(n, j)) == FreeSet(At(m, j))
    {
      assert SamePages(At(m, j), s.pages);
      ZoneFrame(At(m, j), s.pages);
    }
  }
}
