/**
 Adding boot memory, and runs: whatever sequence of additions, allocations and
 frees a zone goes through, it stays in canonical form and `free_pages` never
 falls below the number of free pages.
 */
module BuddyRuns {

  import opened Bits
  import opened Buddy
  import opened BuddyTheory

  // ------------------------------------------------------------ add pages

  ghost predicate RunClear(s: State, p: nat, e: nat) {
    forall x: nat :: p <= x < e ==> !Covered(s, x)
  }

  /** The page before `p` is not free, or it ends the block this addition listed last. */
  ghost predicate LastAdded(s: State, p: nat, e: nat) {
    || p == 0
    || !Covered(s, p - 1)
    || exists b: nat :: IsBlock(s, b, AddOrder(b, e)) && b + Pow2(AddOrder(b, e)) == p
  }

  lemma AddOrderFits(p: nat, e: nat)
    requires p < e
    ensures var o := AddOrder(p, e); o < MAX_ORDER && Aligned(p, o) && p + Pow2(o) <= e
    ensures var o := AddOrder(p, e); o < MAX_ORDER - 1 ==> !(Aligned(p, o + 1) && p + Pow2(o + 1) <= e)
  {
  }

  /** A greedily chosen block never follows a free lower buddy. */
  lemma LowerBuddyNotFree(s: State, b: nat, o: nat, p: nat, e: nat)
    requires Inv(s) && LastAdded(s, p, e) && o < MAX_ORDER - 1
    requires Aligned(b, o) && Aligned(b, o + 1) && b + Pow2(o) == p && p + Pow2(o) <= e
    ensures !IsBlock(s, b, o)
  {
    hide Inv, Covered, Aligned, AddOrder;
    if IsBlock(s, b, o) {
      BlockCovers(s, b, o, p - 1);
      var b': nat :| IsBlock(s, b', AddOrder(b', e)) && b' + Pow2(AddOrder(b', e)) == p;
      InvBlockOk(s, b', AddOrder(b', e));
      SharesOverlap(b, o, b', AddOrder(b', e), p - 1);
      InvDisjoint(s, b, o, b', AddOrder(b', e));
      AddOrderFits(b, e);
    }
  }

  lemma InvDisjoint(s: State, p: nat, o: nat, q: nat, r: nat)
    requires Inv(s) && IsBlock(s, p, o) && IsBlock(s, q, r) && Overlap(p, o, q, r)
    ensures p == q && o == r
  {
  }

  /** A greedily chosen block never sits next to a free buddy. */
  lemma AddedBuddyNotFree(s: State, p: nat, e: nat)
    requires Inv(s) && p < e && RunClear(s, p, e) && !Covered(s, e) && LastAdded(s, p, e)
    ensures AddOrder(p, e) < MAX_ORDER - 1 ==> !IsBlock(s, BuddyPfn(p, AddOrder(p, e)), AddOrder(p, e))
  {
    hide Inv, Covered, Idx, Base, AddOrder, BuddyPfn, IsBlock, LastAdded;
    var o := AddOrder(p, e);
    var b := BuddyPfn(p, o);
    AddOrderFits(p, e);
    BuddyFacts(p, o);
    BaseFacts(p, o + 1);
    if o < MAX_ORDER - 1 && b < p {
      LowerBuddyNotFree(s, b, o, p, e);
    } else if o < MAX_ORDER - 1 && IsBlock(s, b, o) {
      BlockCovers(s, b, o, b);
    }
  }

  function AddOne(s: State, p: nat, e: nat): State
    requires Shape(s) && p < e <= |s.pages|
  {
    var s1 := AddToFreeArea(s, p, AddOrder(p, e));
    s1.(freePages := s1.freePages + Pow2(AddOrder(p, e)))
  }

  lemma AddOneSpec(s: State, p: nat, e: nat)
    requires Inv(s) && s.start <= p < e <= s.end
    requires RunClear(s, p, e) && !Covered(s, e) && LastAdded(s, p, e)
    ensures Shape(s)
    ensures var t := AddOne(s, p, e); var q := p + Pow2(AddOrder(p, e));
            && Inv(t) && t.start == s.start && t.end == s.end && q <= e
            && t.allocCount == s.allocCount && t.freeCount == s.freeCount
            && RunClear(t, q, e) && !Covered(t, e) && LastAdded(t, q, e)
            && Drift(t) == Drift(s)
            && (forall x: nat :: Covered(t, x) <==> Covered(s, x) || p <= x < q)
  {
    hide Inv, Covered, FreeSet, Aligned, BuddyPfn, AddToFreeArea, Pow2, FitOrder;
    InvShape(s);
    var o := AddOrder(p, e);
    AddOrderFits(p, e);
    assert Clear(s, p, o) by { ClearIff(s, p, o); }
    AddedBuddyNotFree(s, p, e);
    AddCovers(s, p, o);
    AddCount(s, p, o);
    AddBlock(s, p, o);
    CountersIrrelevant(AddToFreeArea(s, p, o), AddOne(s, p, e));
    assert IsBlock(AddOne(s, p, e), p, AddOrder(p, e));
  }

  /** Adding a run whose neighbours are not free keeps the canonical form. */
  lemma {:induction false} AddPagesSpec(s: State, p: nat, e: nat)
    requires Inv(s) && s.start <= p <= e <= s.end
    requires RunClear(s, p, e) && !Covered(s, e) && LastAdded(s, p, e)
    ensures Shape(s)
    ensures var t := AddPages(s, p, e);
            && Inv(t) && t.start == s.start && t.end == s.end
            && t.allocCount == s.allocCount && t.freeCount == s.freeCount
            && Drift(t) == Drift(s)
            && (forall x: nat :: Covered(t, x) <==> Covered(s, x) || p <= x < e)
    decreases e - p
  {
    hide Inv, Covered, FreeSet, RunClear, LastAdded, AddToFreeArea, Pow2, FitOrder;
    InvShape(s);
    if p < e {
      AddOneSpec(s, p, e);
      AddPagesSpec(AddOne(s, p, e), p + Pow2(AddOrder(p, e)), e);
    }
  }

  // ----------------------------------------------------------------- runs

  datatype Op = OpAdd(first: nat, past: nat) | OpAlloc(order: nat) | OpFree(pfn: nat, order: nat)

  /** Added runs are unused with no free neighbour; freed blocks are aligned, in the zone and not free. */
  ghost predicate Legal(s: State, op: Op) {
    match op
    case OpAdd(p, e) =>
      && s.start <= p <= e <= s.end && RunClear(s, p, e)
      && !Covered(s, e) && (p > 0 ==> !Covered(s, p - 1))
    case OpAlloc(_) => true
    case OpFree(p, o) => o < MAX_ORDER && FreeLegal(s, p, o)
  }

  ghost function Step(s: State, op: Op): State
    requires Inv(s) && Legal(s, op)
  {
    match op
    case OpAdd(p, e) => AddPages(s, p, e)
    case OpAlloc(o) => Alloc(s, o).0
    case OpFree(p, o) => Free(s, p, o)
  }

  /** How far one operation moves `free_pages` away from the truth. */
  ghost function DriftOf(s: State, op: Op): int
    requires Inv(s) && Legal(s, op)
  {
    match op
    case OpAdd(p, e) => 0
    case OpAlloc(o) => if Alloc(s, o).1.None? then 0 else Pow2(FirstOrder(s, o)) - Pow2(o)
    case OpFree(p, o) => Pow2(Coalesce(s, p, o).2) - Pow2(o)
  }

  lemma StepKeeps(s: State, op: Op)
    requires Inv(s) && Legal(s, op)
    ensures Inv(Step(s, op)) && Step(s, op).start == s.start && Step(s, op).end == s.end
    ensures Drift(Step(s, op)) == Drift(s) + DriftOf(s, op) && DriftOf(s, op) >= 0
  {
    hide Inv, Covered, FreeSet, Expand, Coalesce, RunClear, AddPages;
    InvShape(s);
    match op
    case OpAdd(p, e) =>
      AddPagesSpec(s, p, e);
    case OpAlloc(o) =>
      if Alloc(s, o).1.Some? {
        AllocSpec(s, o);
        Pow2Mono(o, FirstOrder(s, o));
      }
    case OpFree(p, o) =>
      FreeSpec(s, p, o);
      Pow2Mono(o, Coalesce(s, p, o).2);
  }

  ghost predicate LegalRun(s: State, ops: seq<Op>)
    requires Inv(s)
    decreases |ops|
  {
    ops == [] || (Legal(s, ops[0]) && (StepKeeps(s, ops[0]); LegalRun(Step(s, ops[0]), ops[1..])))
  }

  ghost function Run(s: State, ops: seq<Op>): (r: (State, int))
    requires Inv(s) && LegalRun(s, ops)
    decreases |ops|
  {
    if ops == [] then (s, 0)
    else
      StepKeeps(s, ops[0]);
      var (t, d) := Run(Step(s, ops[0]), ops[1..]);
      (t, d + DriftOf(s, ops[0]))
  }

  /** Every run keeps the canonical form; the page counter is off by the sum of the drifts, never negative. */
  lemma {:induction false} ZoneRunKeeps(s: State, ops: seq<Op>)
    requires Inv(s) && LegalRun(s, ops)
    ensures Inv(Run(s, ops).0)
    ensures Drift(Run(s, ops).0) == Drift(s) + Run(s, ops).1 && Run(s, ops).1 >= 0
    decreases |ops|
  {
    hide Inv, Legal, Step, Drift, DriftOf;
    if ops != [] {
      StepKeeps(s, ops[0]);
      ZoneRunKeeps(Step(s, ops[0]), ops[1..]);
    }
  }

  /** Two pages, never added to the zone. */
  function TwoPages(): State {
    State(seq(2, _ => Page(false, false, false, false, false, false, 0, 0)), 0, 2, seq(MAX_ORDER, _ => Area([], 0)), 0, 0, 0)
  }

  lemma TwoPagesInv()
    ensures Inv(TwoPages()) && Drift(TwoPages()) == 0 && forall x: nat :: !Covered(TwoPages(), x)
  {
    var s := TwoPages();
    assert forall o: nat | o < MAX_ORDER :: s.areas[o] == Area([], 0);
    assert forall p: nat, o: nat :: !IsBlock(s, p, o);
    assert FreeSet(s) == {};
  }

  lemma TwoPagesAdded()
    ensures var s := AddPages(TwoPages(), 0, 2); |s.areas| == MAX_ORDER && s.areas[0].list == [] && s.areas[1].list == [0]
  {
    hide FitOrder, AddOrder, Pow2, Idx;
    OrderOfTwo();
    var t := AddOne(TwoPages(), 0, 2);
    assert AddPages(t, 2, 2) == t;
    assert AddPages(TwoPages(), 0, 2) == AddPages(t, 0 + Pow2(1), 2);
  }

  lemma {:induction false} FitTwo(o: nat)
    requires 1 <= o
    ensures FitOrder(0, 2, o) == 1
  {
    assert Pow2(1) == 2;
    if o > 1 {
      Pow2Mono(2, o);
      assert Pow2(2) == 4;
      FitTwo(o - 1);
    }
  }

  lemma OrderOfTwo()
    ensures AddOrder(0, 2) == 1 && Pow2(1) == 2
  {
    FitTwo(MAX_ORDER - 1);
  }

  /** Two pages are added and one is handed out: one is free, and the counter says two. */
  lemma CounterDrifts()
    ensures Legal(TwoPages(), OpAdd(0, 2)) && Inv(TwoPages()) && Inv(AddPages(TwoPages(), 0, 2))
    ensures var s := AddPages(TwoPages(), 0, 2); var t := Alloc(s, 0).0;
            s.freePages == |FreeSet(s)| && t.freePages == |FreeSet(t)| + 1
  {
    hide Inv, Covered, FreeSet, IsBlock;
    TwoPagesInv();
    var s0 := TwoPages();
    AddPagesSpec(s0, 0, 2);
    var s := AddPages(s0, 0, 2);
    TwoPagesAdded();
    assert FirstOrder(s, 0) == 1;
    AllocSpec(s, 0);
    assert Pow2(1) == 2 && Pow2(0) == 1;
  }

}
