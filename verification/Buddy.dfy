/**
 The buddy allocator of one memory zone (kernel/mm/buddy.c), as functions on a
 zone state.  `BuddyZone` holds the class that performs the same steps in place.

 A block is a pair (pfn, order).  The state the C code keeps (free lists, page
 flags, per-page orders, counters) is kept here field by field; everything that
 is proved is about that state.
 */
module Buddy {

  import opened Common
  import opened Bits

  const MAX_ORDER: nat := 11

  /** The fields of `struct page` the allocators read or write. */
  datatype Page = Page(reserved: bool, buddy: bool, slab: bool, compound: bool, head: bool, tail: bool, order: nat, zone: nat)

  /** One `struct free_area`. */
  datatype Area = Area(list: seq<nat>, nrFree: int)

  /** One `struct zone` together with the page array it indexes. */
  datatype State = State(
    pages: seq<Page>, start: nat, end: nat, areas: seq<Area>,
    freePages: int, allocCount: nat, freeCount: nat)

  // ---------------------------------------------------------------- steps

  /** Metadata of every page of the zone can be read, and there is one area per order. */
  predicate Shape(s: State) {
    |s.areas| == MAX_ORDER && s.end <= |s.pages|
  }

  /** Everything but the page marks and the free lists is as before. */
  predicate SameBounds(s: State, t: State) {
    && s.start == t.start && s.end == t.end && |s.pages| == |t.pages|
    && s.freePages == t.freePages && s.allocCount == t.allocCount && s.freeCount == t.freeCount
  }

  function BuddyPfn(pfn: nat, order: nat): nat {
    Xor(pfn, Pow2(order))
  }

  function CombinedPfn(pfn: nat, order: nat): nat {
    AndNot(pfn, Pow2(order))
  }

  predicate PageIsBuddy(s: State, pfn: nat, order: nat)
    requires Shape(s)
  {
    && s.start <= pfn < s.end
    && s.pages[pfn].buddy
    && s.pages[pfn].order == order
  }

  function AddToFreeArea(s: State, p: nat, o: nat): (r: State)
    requires Shape(s) && o < MAX_ORDER && p < |s.pages|
    ensures Shape(r) && SameBounds(r, s)
  {
    s.(areas := s.areas[o := Area([p] + s.areas[o].list, s.areas[o].nrFree + 1)],
       pages := s.pages[p := s.pages[p].(order := o, buddy := true)])
  }

  function RemoveFromFreeArea(s: State, p: nat, o: nat): (r: State)
    requires Shape(s) && o < MAX_ORDER && p < |s.pages|
    ensures Shape(r) && SameBounds(r, s)
  {
    s.(areas := s.areas[o := Area(Drop(s.areas[o].list, p), s.areas[o].nrFree - 1)],
       pages := s.pages[p := s.pages[p].(buddy := false)])
  }

  /** Give the upper halves of the block (p, high) back until it has order `low`. */
  function Expand(s: State, p: nat, low: nat, high: nat): (r: State)
    requires Shape(s) && high <= MAX_ORDER && p + Pow2(high) <= |s.pages|
    ensures Shape(r) && |r.pages| == |s.pages|
    decreases high
  {
    if high > low then
      var h := high - 1;
      var s1 := AddToFreeArea(s, p + Pow2(h), h);
      Expand(s1.(freePages := s1.freePages + Pow2(h)), p, low, h)
    else s
  }

  /** The smallest order from `o` up whose free list is not empty, or MAX_ORDER. */
  function FirstOrder(s: State, o: nat): (r: nat)
    requires Shape(s) && o <= MAX_ORDER
    ensures o <= r <= MAX_ORDER
    ensures r < MAX_ORDER ==> s.areas[r].list != []
    ensures forall k | o <= k < r :: s.areas[k].list == []
    decreases MAX_ORDER - o
  {
    if o == MAX_ORDER || s.areas[o].list != [] then o else FirstOrder(s, o + 1)
  }

  function Alloc(s: State, order: nat): (State, Option<nat>)
    requires Inv(s)
  {
    if order >= MAX_ORDER then (s, None)
    else
      var c := FirstOrder(s, order);
      if c == MAX_ORDER then (s, None)
      else
        var p := s.areas[c].list[0];
        assert IsBlock(s, p, c);
        var s2 := Expand(RemoveFromFreeArea(s, p, c), p, order, c);
        (s2.(freePages := s2.freePages - Pow2(order), allocCount := s2.allocCount + 1), Some(p))
  }

  /** Merge (p, o) upwards for as long as its buddy is free. */
  function Coalesce(s: State, p: nat, o: nat): (r: (State, nat, nat))
    requires Shape(s) && p < |s.pages| && o < MAX_ORDER
    ensures Shape(r.0) && r.1 <= p && o <= r.2 < MAX_ORDER
    ensures |r.0.pages| == |s.pages|
    decreases MAX_ORDER - o
  {
    if o < MAX_ORDER - 1 && PageIsBuddy(s, BuddyPfn(p, o), o) then
      AndNotPow2(p, o);
      Coalesce(RemoveFromFreeArea(s, BuddyPfn(p, o), o), CombinedPfn(p, o), o + 1)
    else (s, p, o)
  }

  function Free(s: State, p: nat, o: nat): State
    requires Shape(s) && p < |s.pages|
  {
    if o >= MAX_ORDER then s
    else
      var (s1, p1, o1) := Coalesce(s, p, o);
      var s2 := AddToFreeArea(s1, p1, o1);
      s2.(freePages := s2.freePages + Pow2(o1), freeCount := s2.freeCount + 1)
  }

  /** The largest order from `o` down that is aligned at `p` and fits before `end`. */
  function FitOrder(p: nat, end: nat, o: nat): (r: nat)
    ensures r <= o
    ensures r > 0 ==> Aligned(p, r) && p + Pow2(r) <= end
    ensures forall k | r < k <= o :: !(Aligned(p, k) && p + Pow2(k) <= end)
  {
    if o > 0 && !(Aligned(p, o) && p + Pow2(o) <= end) then FitOrder(p, end, o - 1) else o
  }

  function AddOrder(p: nat, end: nat): nat {
    FitOrder(p, end, MAX_ORDER - 1)
  }

  function AddPages(s: State, p: nat, end: nat): State
    requires Shape(s) && end <= |s.pages|
    decreases end - p
  {
    if p < end then
      var o := AddOrder(p, end);
      var s1 := AddToFreeArea(s, p, o);
      AddPages(s1.(freePages := s1.freePages + Pow2(o)), p + Pow2(o), end)
    else s
  }

  // ----------------------------------------------------------- invariant

  predicate IsBlock(s: State, p: nat, o: nat) {
    o < |s.areas| && p in s.areas[o].list
  }

  /** Two naturally aligned blocks share a page. */
  predicate Overlap(p: nat, o: nat, q: nat, r: nat) {
    var m := if o <= r then r else o;
    Idx(p, m) == Idx(q, m)
  }

  /** The block is naturally aligned, lies in the zone, and its head page is marked. */
  predicate BlockOk(s: State, p: nat, o: nat) {
    && Aligned(p, o)
    && s.start <= p && p + Pow2(o) <= s.end <= |s.pages|
    && p < |s.pages| && s.pages[p].buddy && s.pages[p].order == o
  }

  ghost predicate Lists(s: State) {
    && Shape(s)
    && (forall o | 0 <= o < MAX_ORDER :: NoDup(s.areas[o].list) && s.areas[o].nrFree == |s.areas[o].list|)
    && (forall p: nat, o: nat :: IsBlock(s, p, o) ==> BlockOk(s, p, o))
  }

  /** PG_BUDDY marks only heads of listed blocks. */
  ghost predicate Marks(s: State)
    requires Shape(s)
  {
    forall p: nat :: s.start <= p < s.end && s.pages[p].buddy ==> IsBlock(s, p, s.pages[p].order)
  }

  ghost predicate Disjoint(s: State) {
    forall p: nat, o: nat, q: nat, r: nat ::
      IsBlock(s, p, o) && IsBlock(s, q, r) && Overlap(p, o, q, r) ==> p == q && o == r
  }

  ghost predicate Coalesced(s: State) {
    forall p: nat, q: nat, o: nat ::
      IsBlock(s, p, o) && IsBlock(s, q, o) && o < MAX_ORDER - 1 ==> q != BuddyPfn(p, o)
  }

  ghost predicate Inv(s: State) {
    Lists(s) && Marks(s) && Disjoint(s) && Coalesced(s)
  }

  /** No free block shares a page with (p, o). */
  ghost predicate Clear(s: State, p: nat, o: nat) {
    forall q: nat, r: nat :: IsBlock(s, q, r) ==> !Overlap(q, r, p, o)
  }

  /** Page `x` lies in some free block. */
  ghost predicate Covered(s: State, x: nat) {
    exists o: nat :: o < MAX_ORDER && IsBlock(s, Base(x, o), o)
  }

  ghost predicate AllFree(s: State, p: nat, o: nat) {
    forall x: nat :: InBlock(x, p, o) ==> Covered(s, x)
  }

  ghost function FreeSet(s: State): set<nat> {
    set x | 0 <= x < s.end && Covered(s, x)
  }

  ghost function Region(p: nat, o: nat): set<nat> {
    set x: nat | p <= x < p + Pow2(o) && InBlock(x, p, o)
  }

  // ------------------------------------------------------ small geometry

  lemma BuddyFacts(p: nat, o: nat)
    requires Aligned(p, o)
    ensures var b := BuddyPfn(p, o);
            && Aligned(b, o) && b != p && BuddyPfn(b, o) == p
            && Idx(b, o + 1) == Idx(p, o + 1) && Idx(b, o) != Idx(p, o)
            && (p < b ==> b == p + Pow2(o))
            && (b < p ==> p == b + Pow2(o))
            && CombinedPfn(p, o) == Base(p, o + 1) == (if p < b then p else b)
  {
    XorPow2(p, o);
    AndNotPow2(p, o);
    BaseUp(p, o);
    NextBlock(p, o);
    XorPow2(BuddyPfn(p, o), o);
    IdxNext(p, o);
    IdxNext(BuddyPfn(p, o), o);
  }

  /** Overlapping aligned blocks share the start of the smaller one. */
  lemma OverlapShares(p: nat, o: nat, q: nat, r: nat) returns (x: nat)
    requires Aligned(p, o) && Aligned(q, r) && Overlap(p, o, q, r)
    ensures InBlock(x, p, o) && InBlock(x, q, r)
  {
    if o <= r {
      x := p;
      BlockIsInterval(q, r, p);
    } else {
      x := q;
      BlockIsInterval(p, o, q);
    }
  }

  lemma SharesOverlap(p: nat, o: nat, q: nat, r: nat, x: nat)
    requires Aligned(p, o) && Aligned(q, r) && InBlock(x, p, o) && InBlock(x, q, r)
    ensures Overlap(p, o, q, r)
  {
    BlockIsInterval(p, o, x);
    BlockIsInterval(q, r, x);
    if o <= r { IdxCoarser(x, p, o, r); } else { IdxCoarser(x, q, r, o); }
  }

  /** A page of a free block is covered by it. */
  lemma BlockCovers(s: State, p: nat, o: nat, x: nat)
    requires o < MAX_ORDER && IsBlock(s, p, o) && Aligned(p, o) && InBlock(x, p, o)
    ensures Covered(s, x)
  {
    BlockIsInterval(p, o, x);
    assert IsBlock(s, Base(x, o), o);
  }

  lemma CoveringBlock(s: State, x: nat) returns (p: nat, o: nat)
    requires Covered(s, x)
    ensures o < MAX_ORDER && IsBlock(s, p, o) && p == Base(x, o) && Aligned(p, o) && InBlock(x, p, o)
  {
    o :| o < MAX_ORDER && IsBlock(s, Base(x, o), o);
    p := Base(x, o);
    BaseFacts(x, o);
  }

  // ---------------------------------------------------- the two primitives

  /** Listing an unused, unmergeable block keeps the invariant. */
  lemma AddBlock(s: State, p: nat, o: nat)
    requires Inv(s) && o < MAX_ORDER && Aligned(p, o)
    requires s.start <= p && p + Pow2(o) <= s.end
    requires Clear(s, p, o)
    requires o < MAX_ORDER - 1 ==> !IsBlock(s, BuddyPfn(p, o), o)
    ensures Inv(AddToFreeArea(s, p, o))
    ensures var t := AddToFreeArea(s, p, o);
            forall q: nat, r: nat :: IsBlock(t, q, r) <==> IsBlock(s, q, r) || (q == p && r == o)
  {
    var t := AddToFreeArea(s, p, o);
    assert !IsBlock(s, p, o) by {
      if IsBlock(s, p, o) { assert Overlap(p, o, p, o); }
    }
    forall q: nat, r: nat
      ensures IsBlock(t, q, r) <==> IsBlock(s, q, r) || (q == p && r == o)
    {
    }
    assert !s.pages[p].buddy by {
      if s.pages[p].buddy {
        assert IsBlock(s, p, s.pages[p].order);
        assert Overlap(p, s.pages[p].order, p, o);
      }
    }
    forall q: nat, r: nat | IsBlock(t, q, r)
      ensures BlockOk(t, q, r)
    {
      if IsBlock(s, q, r) {
        assert BlockOk(s, q, r);
        if q == p { assert false; }
      }
    }
    forall q: nat, r: nat | IsBlock(t, q, r) && Overlap(q, r, p, o)
      ensures q == p && r == o
    {
    }
    assert Disjoint(t) by {
      forall a: nat, b: nat, q: nat, r: nat | IsBlock(t, a, b) && IsBlock(t, q, r) && Overlap(a, b, q, r)
        ensures a == q && b == r
      {
        assert Overlap(q, r, a, b) by { if b != r { } }
      }
    }
    assert Coalesced(t) by {
      forall q: nat, q': nat, r: nat | IsBlock(t, q, r) && IsBlock(t, q', r) && r < MAX_ORDER - 1
        ensures q' != BuddyPfn(q, r)
      {
        assert BlockOk(t, q, r);
        BuddyFacts(q, r);
      }
    }
  }

  /** Unlisting a block keeps the invariant and leaves its pages unused. */
  lemma RemoveBlock(s: State, p: nat, o: nat)
    requires Inv(s) && IsBlock(s, p, o)
    ensures BlockOk(s, p, o)
    ensures Inv(RemoveFromFreeArea(s, p, o))
    ensures Clear(RemoveFromFreeArea(s, p, o), p, o)
    ensures var t := RemoveFromFreeArea(s, p, o);
            forall q: nat, r: nat :: IsBlock(t, q, r) <==> IsBlock(s, q, r) && !(q == p && r == o)
  {
    assert BlockOk(s, p, o);
    var t := RemoveFromFreeArea(s, p, o);
    DropSpec(s.areas[o].list, p);
    forall q: nat, r: nat
      ensures IsBlock(t, q, r) <==> IsBlock(s, q, r) && !(q == p && r == o)
    {
    }
    forall q: nat, r: nat | IsBlock(t, q, r)
      ensures BlockOk(t, q, r)
    {
      assert BlockOk(s, q, r);
      if q == p { assert false; }
    }
  }

  lemma AddCovers(s: State, p: nat, o: nat)
    requires Shape(s) && o < MAX_ORDER && p < |s.pages| && Aligned(p, o) && p + Pow2(o) <= s.end
    ensures var t := AddToFreeArea(s, p, o);
            && (forall x: nat :: Covered(t, x) <==> Covered(s, x) || InBlock(x, p, o))
            && FreeSet(t) == FreeSet(s) + Region(p, o)
  {
    var t := AddToFreeArea(s, p, o);
    forall x: nat
      ensures Covered(t, x) <==> Covered(s, x) || InBlock(x, p, o)
    {
      BlockIsInterval(p, o, x);
      if Covered(s, x) {
        var q, k := CoveringBlock(s, x);
        assert IsBlock(t, Base(x, k), k);
      }
      if InBlock(x, p, o) {
        assert IsBlock(t, Base(x, o), o);
      }
    }
  }

  lemma RemoveUncovers(s: State, p: nat, o: nat)
    requires Inv(s) && IsBlock(s, p, o)
    ensures var t := RemoveFromFreeArea(s, p, o);
            && (forall x: nat :: Covered(t, x) <==> Covered(s, x) && !InBlock(x, p, o))
            && FreeSet(t) == FreeSet(s) - Region(p, o)
    ensures Region(p, o) <= FreeSet(s)
  {
    var t := RemoveFromFreeArea(s, p, o);
    RemoveBlock(s, p, o);
    ClearIff(t, p, o);
    forall x: nat
      ensures InBlock(x, p, o) ==> Covered(s, x)
      ensures Covered(t, x) <==> Covered(s, x) && !InBlock(x, p, o)
    {
      if InBlock(x, p, o) {
        BlockCovers(s, p, o, x);
      } else if Covered(s, x) {
        var q, k := CoveringBlock(s, x);
        assert IsBlock(t, Base(x, k), k);
      }
    }
  }

  /** Aligned pages none of which is free are clear of every block, and conversely. */
  lemma ClearIff(s: State, p: nat, o: nat)
    requires Inv(s) && Aligned(p, o)
    ensures Clear(s, p, o) <==> forall x: nat :: InBlock(x, p, o) ==> !Covered(s, x)
  {
    forall x: nat | Clear(s, p, o) && InBlock(x, p, o)
      ensures !Covered(s, x)
    {
      if Covered(s, x) {
        var q, k := CoveringBlock(s, x);
        SharesOverlap(q, k, p, o, x);
        assert false;
      }
    }
    forall q: nat, r: nat | (forall x: nat :: InBlock(x, p, o) ==> !Covered(s, x)) && IsBlock(s, q, r)
      ensures !Overlap(q, r, p, o)
    {
      assert BlockOk(s, q, r);
      if Overlap(q, r, p, o) {
        var x := OverlapShares(q, r, p, o);
        BlockCovers(s, q, r, x);
        assert false;
      }
    }
  }
}
