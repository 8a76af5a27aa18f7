/**
 What the buddy allocator guarantees: every operation keeps the canonical form,
 the canonical form is determined by the set of free pages alone, allocation
 fails only when no aligned run exists, and the page counter drifts upwards by
 an exactly known amount.
 */
module BuddyTheory {

  import opened Common
  import opened Bits
  import opened Buddy

  lemma InvShape(s: State)
    requires Inv(s)
    ensures Shape(s)
  {
  }

  lemma InvBlockOk(s: State, p: nat, o: nat)
    requires Inv(s) && IsBlock(s, p, o)
    ensures o < MAX_ORDER && BlockOk(s, p, o)
  {
  }

  // ------------------------------------------------------ canonical form

  /** A fully free aligned run lies inside one free block. */
  lemma {:induction false} Coverage(s: State, p: nat, o: nat) returns (r: nat)
    requires Inv(s) && o < MAX_ORDER && Aligned(p, o) && AllFree(s, p, o)
    ensures o <= r < MAX_ORDER && IsBlock(s, Base(p, r), r)
    decreases o
  {
    if o == 0 {
      assert InBlock(p, p, 0);
      var q;
      q, r := CoveringBlock(s, p);
    } else {
      var h := p + Pow2(o - 1);
      Halves(p, o - 1);
      assert BuddyPfn(p, o - 1) == h;
      r := Coverage(s, p, o - 1);
      if r == o - 1 {
        var r2 := Coverage(s, h, o - 1);
        if r2 == o - 1 {
          assert false;
        }
        BlockIsInterval(p, o, h);
        IdxCoarser(p, h, o, r2);
        BaseFacts(p, r2);
        BaseFacts(h, r2);
        BlockIsInterval(Base(h, r2), r2, p);
        r := r2;
      }
    }
  }

  /** Being a free block, said without the free lists. */
  ghost predicate MaximalRun(s: State, p: nat, o: nat) {
    && o < MAX_ORDER && Aligned(p, o) && AllFree(s, p, o)
    && (o == MAX_ORDER - 1 || !AllFree(s, Base(p, o + 1), o + 1))
  }

  /** The free blocks are exactly the maximal aligned runs of free pages. */
  lemma BlockIsMaximalRun(s: State, p: nat, o: nat)
    requires Inv(s)
    ensures IsBlock(s, p, o) <==> MaximalRun(s, p, o)
  {
    if IsBlock(s, p, o) {
      assert BlockOk(s, p, o);
      forall x: nat | InBlock(x, p, o) ensures Covered(s, x) { BlockCovers(s, p, o, x); }
      var u := Base(p, o + 1);
      BaseFacts(p, o + 1);
      if o < MAX_ORDER - 1 && AllFree(s, u, o + 1) {
        var r := Coverage(s, u, o + 1);
        IdxCoarser(u, p, o + 1, r);
        BaseFacts(u, r);
        assert Overlap(p, o, Base(u, r), r);
        assert false;
      }
    }
    if MaximalRun(s, p, o) {
      var r := Coverage(s, p, o);
      if r > o {
        var u := Base(p, o + 1);
        BaseFacts(p, o + 1);
        forall x: nat | InBlock(x, u, o + 1) ensures Covered(s, x) {
          BlockIsInterval(u, o + 1, x);
          IdxCoarser(x, p, o + 1, r);
          BaseFacts(p, r);
          BlockIsInterval(Base(p, r), r, x);
          BlockCovers(s, Base(p, r), r, x);
        }
        assert false;
      }
    }
  }

  /** The free blocks are a function of the free pages: equal free pages, equal blocks and counts. */
  lemma CanonicalForm(s: State, t: State)
    requires Inv(s) && Inv(t)
    requires forall x: nat :: Covered(s, x) <==> Covered(t, x)
    ensures forall p: nat, o: nat :: IsBlock(s, p, o) <==> IsBlock(t, p, o)
    ensures forall o | 0 <= o < MAX_ORDER :: s.areas[o].nrFree == t.areas[o].nrFree
  {
    forall p: nat, o: nat ensures IsBlock(s, p, o) <==> IsBlock(t, p, o) {
      BlockIsMaximalRun(s, p, o);
      BlockIsMaximalRun(t, p, o);
    }
    forall o | 0 <= o < MAX_ORDER ensures s.areas[o].nrFree == t.areas[o].nrFree {
      var a, b := s.areas[o].list, t.areas[o].list;
      forall x: nat ensures x in a <==> x in b {
        assert x in a <==> IsBlock(s, x, o);
        assert x in b <==> IsBlock(t, x, o);
      }
      NoDupSameLength(a, b);
    }
  }

  lemma {:induction false} NoDupSameLength(a: seq<nat>, b: seq<nat>)
    requires NoDup(a) && NoDup(b)
    requires forall x :: x in a <==> x in b
    ensures |a| == |b|
  {
    assert b != [] ==> b[0] in b;
    if a != [] {
      assert a[0] in a;
      DropSpec(b, a[0]);
      forall x ensures x in a[1..] <==> x in Drop(b, a[0]) {
        if x in a[1..] {
          var i :| 1 <= i < |a| && a[i] == x;
        }
        if x in a && x != a[0] {
          var i :| 0 <= i < |a| && a[i] == x;
          assert a[1..][i - 1] == x;
        }
      }
      NoDupSameLength(a[1..], Drop(b, a[0]));
    }
  }

  // ---------------------------------------------------------- page counts

  ghost function Range(a: nat, n: nat): (r: set<nat>)
    ensures |r| == n
    ensures forall x: nat :: x in r <==> a <= x < a + n
  {
    if n == 0 then {} else Range(a, n - 1) + {a + n - 1}
  }

  lemma RegionSize(p: nat, o: nat)
    ensures |Region(p, o)| == Pow2(o)
  {
    assert Region(p, o) == Range(p, Pow2(o));
  }

  /** By how much `free_pages` exceeds the number of free pages. */
  ghost function Drift(s: State): int {
    s.freePages - |FreeSet(s)|
  }

  lemma AddCount(s: State, p: nat, o: nat)
    requires Inv(s) && o < MAX_ORDER && Aligned(p, o) && p + Pow2(o) <= s.end && Clear(s, p, o)
    ensures |FreeSet(AddToFreeArea(s, p, o))| == |FreeSet(s)| + Pow2(o)
  {
    AddCovers(s, p, o);
    ClearIff(s, p, o);
    RegionSize(p, o);
    assert FreeSet(s) !! Region(p, o);
  }

  lemma RemoveCount(s: State, p: nat, o: nat)
    requires Inv(s) && IsBlock(s, p, o)
    ensures |FreeSet(RemoveFromFreeArea(s, p, o))| == |FreeSet(s)| - Pow2(o)
  {
    RemoveUncovers(s, p, o);
    RegionSize(p, o);
    assert FreeSet(s) == (FreeSet(s) - Region(p, o)) + Region(p, o);
  }

  /** Counters play no part in the invariant or in what is free. */
  lemma CountersIrrelevant(s: State, t: State)
    requires t == s.(freePages := t.freePages, allocCount := t.allocCount, freeCount := t.freeCount)
    ensures Inv(s) == Inv(t)
    ensures forall p: nat, o: nat :: IsBlock(s, p, o) == IsBlock(t, p, o)
    ensures forall x: nat :: Covered(s, x) == Covered(t, x)
    ensures FreeSet(s) == FreeSet(t)
  {
    assert forall p: nat, o: nat :: IsBlock(s, p, o) == IsBlock(t, p, o);
    assert forall p: nat, o: nat :: BlockOk(s, p, o) == BlockOk(t, p, o);
    assert Lists(s) == Lists(t);
    assert Lists(s) ==> Marks(s) == Marks(t);
    assert Disjoint(s) == Disjoint(t);
    assert Coalesced(s) == Coalesced(t);
    assert forall x: nat :: Covered(s, x) == Covered(t, x);
  }

  // --------------------------------------------------------------- expand

  /** One round of splitting: list the upper half of a clear block. */
  function SplitOff(s: State, p: nat, h: nat): State
    requires Shape(s) && h < MAX_ORDER && p + Pow2(h) < |s.pages|
  {
    var s1 := AddToFreeArea(s, p + Pow2(h), h);
    s1.(freePages := s1.freePages + Pow2(h))
  }

  lemma SplitGeometry(p: nat, h: nat, start: nat, end: nat)
    requires Aligned(p, h + 1) && start <= p && p + Pow2(h + 1) <= end
    ensures var u := p + Pow2(h);
            && Aligned(p, h) && Aligned(u, h) && start <= u && u + Pow2(h) <= end
            && BuddyPfn(u, h) == p && InBlock(p, p, h)
            && forall x: nat :: InBlock(x, p, h + 1) <==> InBlock(x, p, h) || InBlock(x, u, h)
    ensures forall x: nat :: !(InBlock(x, p, h) && InBlock(x, p + Pow2(h), h))
  {
    Halves(p, h);
  }

  lemma SplitOffSpec(s: State, p: nat, h: nat)
    requires Inv(s) && h < MAX_ORDER - 1 && Aligned(p, h + 1)
    requires s.start <= p && p + Pow2(h + 1) <= s.end
    requires Clear(s, p, h + 1)
    ensures var t := SplitOff(s, p, h);
            && Inv(t) && Clear(t, p, h) && Aligned(p, h) && t.start == s.start && t.end == s.end
            && Drift(t) == Drift(s)
            && (forall x: nat :: Covered(t, x) <==> Covered(s, x) || (InBlock(x, p, h + 1) && !InBlock(x, p, h)))
  {
    hide Inv, Clear, BlockOk, Covered, IsBlock, FreeSet, Aligned, InBlock, BuddyPfn, AddToFreeArea, Pow2;
    InvShape(s);
    var u := p + Pow2(h);
    SplitGeometry(p, h, s.start, s.end);
    ClearIff(s, p, h + 1);
    ClearIff(s, u, h);
    AddCovers(s, u, h);
    AddCount(s, u, h);
    assert !IsBlock(s, p, h) by {
      if IsBlock(s, p, h) {
        BlockCovers(s, p, h, p);
      }
    }
    AddBlock(s, u, h);
    CountersIrrelevant(AddToFreeArea(s, u, h), SplitOff(s, p, h));
    ClearIff(SplitOff(s, p, h), p, h);
  }

  lemma BlockMono(p: nat, a: nat, b: nat)
    requires a <= b
    ensures forall x: nat :: InBlock(x, p, a) ==> InBlock(x, p, b)
  {
    Pow2Mono(a, b);
  }

  /** Splitting a removed block gives back everything but its first 2^low pages. */
  lemma {:induction false} ExpandSpec(s: State, p: nat, low: nat, high: nat)
    requires Inv(s) && low <= high < MAX_ORDER && Aligned(p, high)
    requires s.start <= p && p + Pow2(high) <= s.end
    requires Clear(s, p, high)
    ensures var t := Expand(s, p, low, high);
            && Inv(t) && Clear(t, p, low) && t.start == s.start && t.end == s.end
            && Drift(t) == Drift(s)
            && t.allocCount == s.allocCount && t.freeCount == s.freeCount
            && (forall x: nat :: Covered(t, x) <==> Covered(s, x) || (InBlock(x, p, high) && !InBlock(x, p, low)))
    decreases high
  {
    hide Inv, Clear, Covered, IsBlock, FreeSet, Aligned, InBlock, AddToFreeArea;
    InvShape(s);
    if high > low {
      SplitOffSpec(s, p, high - 1);
      ExpandSpec(SplitOff(s, p, high - 1), p, low, high - 1);
      BlockMono(p, low, high - 1);
      BlockMono(p, high - 1, high);
      assert Expand(s, p, low, high) == Expand(SplitOff(s, p, high - 1), p, low, high - 1);
    }
  }

  // ---------------------------------------------------------------- alloc

  ghost predicate HasRun(s: State, order: nat) {
    exists p: nat :: Aligned(p, order) && AllFree(s, p, order)
  }

  /** Allocation succeeds exactly when an aligned run of 2^order free pages exists. */
  lemma AllocFailsIffNoRun(s: State, order: nat)
    requires Inv(s) && order < MAX_ORDER
    ensures Alloc(s, order).1.None? <==> !HasRun(s, order)
  {
    var c := FirstOrder(s, order);
    if c < MAX_ORDER {
      var p := s.areas[c].list[0];
      assert IsBlock(s, p, c);
      BlockIsMaximalRun(s, p, c);
      AlignedFiner(p, c, order);
      BlockMono(p, order, c);
      assert AllFree(s, p, order);
    } else if HasRun(s, order) {
      var p: nat :| Aligned(p, order) && AllFree(s, p, order);
      var r := Coverage(s, p, order);
      assert false;
    }
  }

  lemma {:induction false} Pow2Mono(a: nat, b: nat)
    requires a <= b
    ensures Pow2(a) <= Pow2(b)
  {
    if a < b {
      Pow2Mono(a, b - 1);
    }
  }

  /** A successful allocation hands out 2^order free aligned pages and changes nothing else. */
  lemma AllocSpec(s: State, order: nat)
    requires Inv(s) && order < MAX_ORDER && Alloc(s, order).1.Some?
    ensures var (t, r) := Alloc(s, order); var p := r.value;
            && Inv(t) && t.start == s.start && t.end == s.end
            && Aligned(p, order) && s.start <= p && p + Pow2(order) <= s.end
            && AllFree(s, p, order)
            && (forall x: nat :: Covered(t, x) <==> Covered(s, x) && !InBlock(x, p, order))
            && t.allocCount == s.allocCount + 1 && t.freeCount == s.freeCount
    ensures var (t, r) := Alloc(s, order);
            Drift(t) == Drift(s) + Pow2(FirstOrder(s, order)) - Pow2(order)
  {
    var c := FirstOrder(s, order);
    var p := s.areas[c].list[0];
    assert IsBlock(s, p, c);
    RemoveBlock(s, p, c);
    RemoveUncovers(s, p, c);
    RemoveCount(s, p, c);
    Pow2Mono(order, c);
    AlignedFiner(p, c, order);
    forall x: nat | InBlock(x, p, c) ensures Covered(s, x) { BlockCovers(s, p, c, x); }
    var s1 := RemoveFromFreeArea(s, p, c);
    ExpandSpec(s1, p, order, c);
    var s2 := Expand(s1, p, order, c);
    CountersIrrelevant(s2, Alloc(s, order).0);
  }

  // ----------------------------------------------------------------- free

  /** The caller gives back an aligned block of the zone none of whose pages is free. */
  ghost predicate FreeLegal(s: State, p: nat, o: nat) {
    && Aligned(p, o) && s.start <= p && p + Pow2(o) <= s.end
    && forall x: nat :: InBlock(x, p, o) ==> !Covered(s, x)
  }

  lemma BuddyFlagIsBlock(s: State, b: nat, o: nat)
    requires Inv(s) && o < MAX_ORDER
    ensures PageIsBuddy(s, b, o) <==> IsBlock(s, b, o)
  {
    if IsBlock(s, b, o) { assert BlockOk(s, b, o); }
  }

  /** A block and its buddy make up the block of the next order. */
  lemma MergeGeometry(p: nat, o: nat, start: nat, end: nat)
    requires Aligned(p, o) && start <= p && p + Pow2(o) <= end
    requires start <= BuddyPfn(p, o) && BuddyPfn(p, o) + Pow2(o) <= end
    ensures var u := CombinedPfn(p, o);
            && Aligned(u, o + 1) && start <= u && u + Pow2(o + 1) <= end
            && forall x: nat :: InBlock(x, u, o + 1) <==> InBlock(x, p, o) || InBlock(x, BuddyPfn(p, o), o)
  {
    BuddyFacts(p, o);
    BaseFacts(p, o + 1);
    Halves(CombinedPfn(p, o), o);
  }

  /** Absorbing a free buddy. */
  lemma MergeSpec(s: State, p: nat, o: nat)
    requires Inv(s) && o < MAX_ORDER - 1 && Aligned(p, o) && Clear(s, p, o)
    requires s.start <= p && p + Pow2(o) <= s.end
    requires IsBlock(s, BuddyPfn(p, o), o)
    ensures var b := BuddyPfn(p, o); var t := RemoveFromFreeArea(s, b, o); var u := CombinedPfn(p, o);
            && Inv(t) && Aligned(u, o + 1) && Clear(t, u, o + 1) && s.start <= u && u + Pow2(o + 1) <= s.end
            && |FreeSet(t)| == |FreeSet(s)| - Pow2(o)
            && (forall x: nat :: Covered(t, x) || InBlock(x, u, o + 1) <==> Covered(s, x) || InBlock(x, p, o))
  {
    hide Inv, Clear, Covered, IsBlock, FreeSet, InBlock, Aligned, BuddyPfn, CombinedPfn, RemoveFromFreeArea, Pow2;
    var b, u := BuddyPfn(p, o), CombinedPfn(p, o);
    InvShape(s);
    InvBlockOk(s, b, o);
    var t := RemoveFromFreeArea(s, b, o);
    MergeGeometry(p, o, s.start, s.end);
    RemoveBlock(s, b, o);
    RemoveUncovers(s, b, o);
    RemoveCount(s, b, o);
    ClearIff(s, p, o);
    forall x: nat | InBlock(x, b, o) ensures Covered(s, x) { BlockCovers(s, b, o, x); }
    ClearIff(t, u, o + 1);
  }

  /** Merging removes the buddies it absorbs and keeps the rest of the free pages. */
  lemma {:induction false} CoalesceSpec(s: State, p: nat, o: nat)
    requires Inv(s) && o < MAX_ORDER && Aligned(p, o) && Clear(s, p, o)
    requires s.start <= p && p + Pow2(o) <= s.end
    ensures var (t, q, r) := Coalesce(s, p, o);
            && Inv(t) && t.start == s.start && t.end == s.end
            && Aligned(q, r) && Clear(t, q, r) && s.start <= q && q + Pow2(r) <= s.end
            && (r < MAX_ORDER - 1 ==> !IsBlock(t, BuddyPfn(q, r), r))
            && t.freePages == s.freePages && t.allocCount == s.allocCount && t.freeCount == s.freeCount
            && |FreeSet(t)| + Pow2(r) == |FreeSet(s)| + Pow2(o)
            && (forall x: nat :: Covered(t, x) || InBlock(x, q, r) <==> Covered(s, x) || InBlock(x, p, o))
    decreases MAX_ORDER - o
  {
    var b := BuddyPfn(p, o);
    BuddyFlagIsBlock(s, b, o);
    if o < MAX_ORDER - 1 && PageIsBuddy(s, b, o) {
      MergeSpec(s, p, o);
      CoalesceSpec(RemoveFromFreeArea(s, b, o), CombinedPfn(p, o), o + 1);
    }
  }

  /** Freeing makes exactly the block's pages free again, in canonical form. */
  lemma FreeSpec(s: State, p: nat, o: nat)
    requires Inv(s) && o < MAX_ORDER && FreeLegal(s, p, o)
    ensures var t := Free(s, p, o);
            && Inv(t) && t.start == s.start && t.end == s.end
            && (forall x: nat :: Covered(t, x) <==> Covered(s, x) || InBlock(x, p, o))
            && t.freeCount == s.freeCount + 1 && t.allocCount == s.allocCount
    ensures Drift(Free(s, p, o)) == Drift(s) + Pow2(Coalesce(s, p, o).2) - Pow2(o)
  {
    ClearIff(s, p, o);
    CoalesceSpec(s, p, o);
    var (s1, q, r) := Coalesce(s, p, o);
    AddBlock(s1, q, r);
    AddCovers(s1, q, r);
    AddCount(s1, q, r);
    CountersIrrelevant(AddToFreeArea(s1, q, r), Free(s, p, o));
  }

  /** Allocating and freeing the same block restores every free list as a set. */
  lemma AllocFreeRestores(s: State, order: nat)
    requires Inv(s) && order < MAX_ORDER && Alloc(s, order).1.Some?
    ensures var (t, r) := Alloc(s, order);
            && FreeLegal(t, r.value, order)
            && Inv(Free(t, r.value, order))
            && (forall p: nat, o: nat :: IsBlock(Free(t, r.value, order), p, o) <==> IsBlock(s, p, o))
  {
    AllocSpec(s, order);
    var (t, r) := Alloc(s, order);
    FreeSpec(t, r.value, order);
    CanonicalForm(Free(t, r.value, order), s);
  }

  /** The order in which two blocks are freed does not matter. */
  lemma FreesCommute(s: State, p: nat, o: nat, q: nat, r: nat)
    requires Inv(s) && o < MAX_ORDER && r < MAX_ORDER
    requires FreeLegal(s, p, o) && FreeLegal(s, q, r) && !Overlap(p, o, q, r)
    ensures FreeLegal(Free(s, p, o), q, r) && FreeLegal(Free(s, q, r), p, o)
    ensures forall a: nat, b: nat ::
              IsBlock(Free(Free(s, p, o), q, r), a, b) <==> IsBlock(Free(Free(s, q, r), p, o), a, b)
  {
    forall x: nat | InBlock(x, p, o) && InBlock(x, q, r) ensures false { SharesOverlap(p, o, q, r, x); }
    FreeSpec(s, p, o);
    FreeSpec(s, q, r);
    FreeSpec(Free(s, p, o), q, r);
    FreeSpec(Free(s, q, r), p, o);
    CanonicalForm(Free(Free(s, p, o), q, r), Free(Free(s, q, r), p, o));
  }
}
