/**
 The zone object of kernel/mm/buddy.c: free lists and counters updated in place,
 page metadata in the shared page array.  Every method is proved to compute the
 function of the same name in module `Buddy`.
 */
module BuddyZone {

  import opened Common
  import opened Bits
  import opened Buddy
  import opened BuddyTheory

  /** One round of the splitting loop. */
  lemma ExpandStep(s: State, p: nat, low: nat, high: nat)
    requires Shape(s) && high <= MAX_ORDER && p + Pow2(high) <= |s.pages|
    ensures high <= low ==> Buddy.Expand(s, p, low, high) == s
    ensures high > low ==> Buddy.Expand(s, p, low, high) == Buddy.Expand(SplitOff(s, p, high - 1), p, low, high - 1)
  {
  }

  class Zone {
    var start: nat
    var end: nat
    const areas: array<Area>
    var freePages: int
    var allocCount: nat
    var freeCount: nat

    /** The zone and the page array as one value. */
    ghost function View(pages: array<Page>): State
      reads this, areas, pages
    {
      State(pages[..], start, end, areas[..], freePages, allocCount, freeCount)
    }

    constructor (start: nat, end: nat)
      ensures this.start == start && this.end == end && fresh(areas)
      ensures areas[..] == seq(MAX_ORDER, _ => Area([], 0))
      ensures freePages == 0 && allocCount == 0 && freeCount == 0
    {
      this.start, this.end := start, end;
      areas := new Area[MAX_ORDER](_ => Area([], 0));
      freePages, allocCount, freeCount := 0, 0, 0;
    }

    method AddToFreeArea(pages: array<Page>, p: nat, o: nat)
      requires Shape(View(pages)) && o < MAX_ORDER && p < pages.Length
      modifies areas, pages
      ensures View(pages) == Buddy.AddToFreeArea(old(View(pages)), p, o)
    {
      areas[o] := Area([p] + areas[o].list, areas[o].nrFree + 1);
      pages[p] := pages[p].(order := o, buddy := true);
    }

    method RemoveFromFreeArea(pages: array<Page>, p: nat, o: nat)
      requires Shape(View(pages)) && o < MAX_ORDER && p < pages.Length
      modifies areas, pages
      ensures View(pages) == Buddy.RemoveFromFreeArea(old(View(pages)), p, o)
    {
      var l := Unlinked(areas[o].list, p);
      areas[o] := Area(l, areas[o].nrFree - 1);
      pages[p] := pages[p].(buddy := false);
    }

    method Expand(pages: array<Page>, p: nat, low: nat, high: nat)
      requires Shape(View(pages)) && high <= MAX_ORDER && p + Pow2(high) <= pages.Length
      modifies this`freePages, areas, pages
      ensures View(pages) == Buddy.Expand(old(View(pages)), p, low, high)
    {
      hide Buddy.AddToFreeArea, Buddy.Expand;
      var h: nat := high;
      var size := Pow2(high);
      while h > low
        invariant h <= high && size == Pow2(h) && p + Pow2(h) <= pages.Length
        invariant Shape(View(pages))
        invariant Buddy.Expand(View(pages), p, low, h) == Buddy.Expand(old(View(pages)), p, low, high)
      {
        ghost var s := View(pages);
        h := h - 1;
        size := size / 2;
        AddToFreeArea(pages, p + size, h);
        freePages := freePages + Pow2(h);
        assert View(pages) == SplitOff(s, p, h);
        ExpandStep(s, p, low, h + 1);
      }
      ExpandStep(View(pages), p, low, h);
    }

    method AllocPages(pages: array<Page>, order: nat) returns (r: Option<nat>)
      requires Inv(View(pages))
      modifies this`freePages, this`allocCount, areas, pages
      ensures (View(pages), r) == Alloc(old(View(pages)), order)
    {
      if order >= MAX_ORDER {
        return None;
      }
      var c := order;
      while c < MAX_ORDER && areas[c].list == []
        invariant order <= c <= MAX_ORDER
        invariant FirstOrder(View(pages), order) == FirstOrder(View(pages), c)
      {
        c := c + 1;
      }
      if c == MAX_ORDER {
        return None;
      }
      var p := areas[c].list[0];
      assert IsBlock(View(pages), p, c);
      RemoveFromFreeArea(pages, p, c);
      if c > order {
        Expand(pages, p, order, c);
      }
      freePages := freePages - Pow2(order);
      allocCount := allocCount + 1;
      r := Some(p);
    }

    method FreePages(pages: array<Page>, pfn: nat, order: nat)
      requires Shape(View(pages)) && pfn < pages.Length
      modifies this`freePages, this`freeCount, areas, pages
      ensures View(pages) == Free(old(View(pages)), pfn, order)
    {
      if order >= MAX_ORDER {
        return;
      }
      var p: nat, o: nat := pfn, order;
      while o < MAX_ORDER - 1
        invariant Shape(View(pages)) && p < pages.Length && o < MAX_ORDER
        invariant Coalesce(View(pages), p, o) == Coalesce(old(View(pages)), pfn, order)
        invariant unchanged(this)
      {
        var b := BuddyPfn(p, o);
        if !(start <= b < end && pages[b].buddy && pages[b].order == o) {
          break;
        }
        RemoveFromFreeArea(pages, b, o);
        AndNotPow2(p, o);
        p := CombinedPfn(p, o);
        o := o + 1;
      }
      AddToFreeArea(pages, p, o);
      freePages := freePages + Pow2(o);
      freeCount := freeCount + 1;
    }

    method LargestFit(p: nat, e: nat) returns (o: nat)
      ensures o == AddOrder(p, e) && o < MAX_ORDER
    {
      o := MAX_ORDER - 1;
      while o > 0 && !(Aligned(p, o) && p + Pow2(o) <= e)
        invariant o < MAX_ORDER && FitOrder(p, e, o) == AddOrder(p, e)
      {
        o := o - 1;
      }
    }

    method AddPages(pages: array<Page>, startPfn: nat, nrPages: nat)
      requires Shape(View(pages)) && startPfn + nrPages <= pages.Length
      modifies this`freePages, areas, pages
      ensures View(pages) == Buddy.AddPages(old(View(pages)), startPfn, startPfn + nrPages)
    {
      hide Buddy.AddToFreeArea, AddOrder;
      var p: nat, e := startPfn, startPfn + nrPages;
      while p < e
        invariant Shape(View(pages))
        invariant Buddy.AddPages(View(pages), p, e) == Buddy.AddPages(old(View(pages)), startPfn, e)
        decreases e - p
      {
        var o := LargestFit(p, e);
        AddToFreeArea(pages, p, o);
        freePages := freePages + Pow2(o);
        p := p + Pow2(o);
      }
    }
  }
}
