/**
 Whole address spaces (kernel/mm/vmm.c): what is kept of them, and unmapping a
 region, which frees the pages and the records of areas that go, and takes a frame
 for the record of an area that is cut in two.
 */
module VmSpaces {

  import opened Common
  import opened Paging
  import opened PagingTree
  import opened VmPages
  import opened VmRecords
  import opened Vmm
  import V = Vma

  /** An address space: its areas, the frames of their records in the same order, and the frame of the structure itself. */
  datatype Space = Space(areas: seq<V.Area>, recs: seq<nat>, frame: nat)

  datatype Vm = Vm(s: Phys, spaces: map<nat, Space>, kernel: nat)

  /** The frames behind an address space's own bookkeeping. */
  function Own(p: Space): seq<nat> { [p.frame] + p.recs }

  ghost predicate SpaceOk(m: Mem, R: set<nat>, p: Space) {
    AreasOk(p.areas) && |p.recs| == |p.areas| && Held(m, R, Own(p))
  }

  /** No two address spaces keep records in one frame. */
  predicate Apart(spaces: map<nat, Space>) {
    forall r, t, f | r in spaces && t in spaces && f in Own(spaces[r]) && f in Own(spaces[t]) :: r == t
  }

  ghost predicate VmOk(v: Vm) {
    && VInv(v.s.m, v.spaces.Keys, v.kernel)
    && (forall r | r in v.spaces :: SpaceOk(v.s.m, v.spaces.Keys, v.spaces[r]))
    && Apart(v.spaces)
  }

  lemma AreasOf(v: Vm, r: nat)
    requires VmOk(v) && r in v.spaces
    ensures VInv(v.s.m, v.spaces.Keys, v.kernel) && SpaceOk(v.s.m, v.spaces.Keys, v.spaces[r])
    ensures AreasOk(v.spaces[r].areas) && V.Ok(v.spaces[r].areas)
    ensures |v.spaces[r].recs| == |v.spaces[r].areas| && Held(v.s.m, v.spaces.Keys, v.spaces[r].recs)
    ensures Off(v.s.m, v.spaces.Keys, v.spaces[r].frame) && v.spaces[r].frame !in v.spaces[r].recs
  {
    hide Off, VInv, Apart;
    assert SpaceOk(v.s.m, v.spaces.Keys, v.spaces[r]);
    HeldParts(v.s.m, v.spaces.Keys, v.spaces[r]);
  }

  lemma HeldParts(m: Mem, R: set<nat>, p: Space)
    ensures Held(m, R, Own(p)) <==> Off(m, R, p.frame) && p.frame !in p.recs && Held(m, R, p.recs)
  {
    hide Off;
    var c := Own(p);
    assert c[0] == p.frame && forall i | 0 <= i < |p.recs| :: c[i + 1] == p.recs[i];
    if Held(m, R, c) {
      assert Off(m, R, c[0]);
      forall i | 0 <= i < |p.recs| ensures p.recs[i] != p.frame && Off(m, R, p.recs[i]) { assert c[0] != c[i + 1]; }
      forall i, j | 0 <= i < j < |p.recs| ensures p.recs[i] != p.recs[j] { assert c[i + 1] != c[j + 1]; }
    }
  }

  lemma AreasHead(q: seq<V.Area>)
    requires AreasOk(q) && q != []
    ensures AreasOk(q[1..]) && q[0].end <= USER_TOP && AreaOk(q[0]) && q[0].start < q[0].end
  {
    assert AreaOk(q[0]);
    forall i | 0 <= i < |q[1..]| ensures AreaOk(q[1..][i]) { assert AreaOk(q[i + 1]); }
  }

  lemma HeldHead(m: Mem, R: set<nat>, c: seq<nat>)
    requires Held(m, R, c) && c != []
    ensures Held(m, R, c[1..]) && Off(m, R, c[0]) && c[0] !in c[1..]
  {
    hide Off;
    assert Off(m, R, c[0]);
  }

  lemma HeldJoin(m: Mem, R: set<nat>, c: seq<nat>, d: seq<nat>)
    requires Held(m, R, c) && Held(m, R, d) && forall f | f in c :: f !in d
    ensures Held(m, R, c + d)
  {
    hide Off;
    NoDupConcat(c, d);
  }

  lemma HeldKept(m: Mem, n: Mem, R: set<nat>, c: seq<nat>)
    requires Held(m, R, c) && OffKept(m, n, R)
    ensures Held(n, R, c)
  {
    hide Off;
  }

  /** One space replaced by a good one that takes no frame another keeps. */
  lemma Replaced(v: Vm, w: Vm, r: nat)
    requires VmOk(v) && r in v.spaces && w.kernel == v.kernel && r in w.spaces && w.spaces == v.spaces[r := w.spaces[r]]
    requires VInv(w.s.m, v.spaces.Keys, v.kernel) && SpaceOk(w.s.m, v.spaces.Keys, w.spaces[r])
    requires forall g | Off(v.s.m, v.spaces.Keys, g) && g !in Own(v.spaces[r]) ::
      Off(w.s.m, v.spaces.Keys, g) && g !in Own(w.spaces[r])
    ensures VmOk(w) && w.spaces.Keys == v.spaces.Keys
  {
    hide VInv, AreasOk, Off, Own;
    var R := v.spaces.Keys;
    assert w.spaces.Keys == R;
    forall t, f | t in R && t != r && f in Own(v.spaces[t]) ensures Off(w.s.m, R, f) && f !in Own(w.spaces[r]) {
      assert SpaceOk(v.s.m, R, v.spaces[t]);
    }
    forall t | t in R ensures SpaceOk(w.s.m, R, w.spaces[t]) {
      if t != r { assert SpaceOk(v.s.m, R, v.spaces[t]); }
    }
  }

  // ---------------------------------------------------------------- unmap

  /** The pages of the range that one area has. */
  function OverlapKeys(v: V.Area, lo: nat, hi: nat): seq<Key> {
    PageKeys(Max(v.start, lo), Min(v.end, hi))
  }

  /**
   One overlapping area of `vmm_unmap_region`: its pages of the range are freed; then
   its record is freed if nothing is left of it, and a frame is taken for a second
   record if it falls in two and there is one.
   */
  ghost function UnmapOne(s: Phys, R: set<nat>, kernel: nat, r: nat, v: V.Area, f: nat, lo: nat, hi: nat): (Phys, seq<V.Area>, seq<nat>)
    requires VInv(s.m, R, kernel) && r in R && v.end <= USER_TOP
  {
    PageKeysUser(Max(v.start, lo), Min(v.end, hi));
    var z := FreeKeys(s, R, kernel, r, OverlapKeys(v, lo, hi));
    var p := V.Pieces(v, lo, hi, z.m.pool != []);
    if p == [] then (z.(m := Push(z.m, f)), [], [])
    else if |p| == 2 then (z.(m := Pop(z.m)), p, [f, z.m.pool[0]])
    else (z, p, [f])
  }

  lemma OnePages(s: Phys, R: set<nat>, kernel: nat, r: nat, v: V.Area, lo: nat, hi: nat)
    requires VInv(s.m, R, kernel) && r in R && v.end <= USER_TOP
    ensures forall i | 0 <= i < |OverlapKeys(v, lo, hi)| :: User(OverlapKeys(v, lo, hi)[i])
    ensures var z := FreeKeys(s, R, kernel, r, OverlapKeys(v, lo, hi)); VInv(z.m, R, kernel) && OffKept(s.m, z.m, R)
  {
    hide VInv, User, PageKeys, Off;
    PageKeysUser(Max(v.start, lo), Min(v.end, hi));
    FreeKeysSpec(s, R, kernel, r, OverlapKeys(v, lo, hi), r, Key(0, 0, 0, 0));
    FreeKeysOff(s, R, kernel, r, OverlapKeys(v, lo, hi));
  }

  lemma UnmapOneInv(s: Phys, R: set<nat>, kernel: nat, r: nat, v: V.Area, f: nat, lo: nat, hi: nat)
    requires VInv(s.m, R, kernel) && r in R && v.end <= USER_TOP && Off(s.m, R, f)
    ensures var (z, p, d) := UnmapOne(s, R, kernel, r, v, f, lo, hi);
      && VInv(z.m, R, kernel) && |d| == |p| && Held(z.m, R, d)
      && forall g | Off(s.m, R, g) && g != f :: Off(z.m, R, g) && g !in d
  {
    hide VInv, FreeKeys, OverlapKeys, User, Off;
    OnePages(s, R, kernel, r, v, lo, hi);
    var z := FreeKeys(s, R, kernel, r, OverlapKeys(v, lo, hi));
    PushInv(z.m, R, kernel, f);
    if z.m.pool != [] {
      PopInv(z.m, R, kernel);
      OffNotFree(z.m, R, z.m.pool[0]);
    }
  }

  lemma OffNotFree(m: Mem, R: set<nat>, f: nat)
    requires f in m.pool
    ensures !Off(m, R, f)
  {
  }

  lemma UnmapOnePage(s: Phys, R: set<nat>, kernel: nat, r: nat, v: V.Area, f: nat, lo: nat, hi: nat, t: nat, l: Key)
    requires VInv(s.m, R, kernel) && r in R && v.end <= USER_TOP && Off(s.m, R, f) && (t in R || t == kernel)
    ensures var z := UnmapOne(s, R, kernel, r, v, f, lo, hi).0;
      && At(z.m, t, l) == (if t == r && l in OverlapKeys(v, lo, hi) then NoMap else At(s.m, t, l))
      && z.data == s.data
  {
    hide VInv, FreeKeys, OverlapKeys, User, Off, At;
    OnePages(s, R, kernel, r, v, lo, hi);
    var z := FreeKeys(s, R, kernel, r, OverlapKeys(v, lo, hi));
    FreeKeysSpec(s, R, kernel, r, OverlapKeys(v, lo, hi), t, l);
    PushInv(z.m, R, kernel, f);
    if z.m.pool != [] { PopInv(z.m, R, kernel); }
  }

  /** The walk of `vmm_unmap_region` over the list: what is left of the areas and of their records. */
  ghost function UnmapWalk(s: Phys, R: set<nat>, kernel: nat, r: nat, q: seq<V.Area>, c: seq<nat>, lo: nat, hi: nat): (Phys, seq<V.Area>, seq<nat>)
    requires VInv(s.m, R, kernel) && r in R && AreasOk(q) && |c| == |q| && Held(s.m, R, c)
    decreases |q|
  {
    if q == [] || q[0].start >= hi then (s, q, c)
    else
      AreasHead(q);
      HeldHead(s.m, R, c);
      if q[0].end <= lo then
        var (z, p, d) := UnmapWalk(s, R, kernel, r, q[1..], c[1..], lo, hi);
        (z, [q[0]] + p, [c[0]] + d)
      else
        UnmapOneInv(s, R, kernel, r, q[0], c[0], lo, hi);
        var (x, p, d) := UnmapOne(s, R, kernel, r, q[0], c[0], lo, hi);
        RestHeld(s.m, x.m, R, c);
        var (z, p', d') := UnmapWalk(x, R, kernel, r, q[1..], c[1..], lo, hi);
        (z, p + p', d + d')
  }

  lemma RestHeld(m: Mem, n: Mem, R: set<nat>, c: seq<nat>)
    requires Held(m, R, c) && c != [] && forall g | Off(m, R, g) && g != c[0] :: Off(n, R, g)
    ensures Held(n, R, c[1..])
  {
    hide Off;
    HeldHead(m, R, c);
  }

  /** A frame that is off and no record of this list stays off and becomes none. */
  lemma {:induction false} WalkOff(s: Phys, R: set<nat>, kernel: nat, r: nat, q: seq<V.Area>, c: seq<nat>, lo: nat, hi: nat, g: nat)
    requires VInv(s.m, R, kernel) && r in R && AreasOk(q) && |c| == |q| && Held(s.m, R, c)
    requires Off(s.m, R, g) && g !in c
    ensures var (z, p, d) := UnmapWalk(s, R, kernel, r, q, c, lo, hi); Off(z.m, R, g) && g !in d
    decreases |q|
  {
    hide VInv, AreaOk, Off, UnmapOne;
    if q != [] && q[0].start < hi {
      AreasHead(q);
      HeldHead(s.m, R, c);
      if q[0].end <= lo {
        WalkOff(s, R, kernel, r, q[1..], c[1..], lo, hi, g);
      } else {
        UnmapOneInv(s, R, kernel, r, q[0], c[0], lo, hi);
        var x := UnmapOne(s, R, kernel, r, q[0], c[0], lo, hi).0;
        RestHeld(s.m, x.m, R, c);
        WalkOff(x, R, kernel, r, q[1..], c[1..], lo, hi, g);
      }
    }
  }

  /** After the walk every area left has a record of its own. */
  lemma {:induction false} WalkInv(s: Phys, R: set<nat>, kernel: nat, r: nat, q: seq<V.Area>, c: seq<nat>, lo: nat, hi: nat)
    requires VInv(s.m, R, kernel) && r in R && AreasOk(q) && |c| == |q| && Held(s.m, R, c)
    ensures var (z, p, d) := UnmapWalk(s, R, kernel, r, q, c, lo, hi);
      VInv(z.m, R, kernel) && |d| == |p| && Held(z.m, R, d)
    decreases |q|
  {
    hide VInv, AreaOk, Off, UnmapOne;
    if q != [] && q[0].start < hi {
      AreasHead(q);
      HeldHead(s.m, R, c);
      var x, d := s, [c[0]];
      if q[0].end > lo {
        UnmapOneInv(s, R, kernel, r, q[0], c[0], lo, hi);
        var o := UnmapOne(s, R, kernel, r, q[0], c[0], lo, hi);
        x, d := o.0, o.2;
        RestHeld(s.m, x.m, R, c);
        NewNotHeld(s.m, R, c, d);
      }
      WalkInv(x, R, kernel, r, q[1..], c[1..], lo, hi);
      var (z, p', d') := UnmapWalk(x, R, kernel, r, q[1..], c[1..], lo, hi);
      forall i | 0 <= i < |d| ensures Off(z.m, R, d[i]) && d[i] !in d' {
        WalkOff(x, R, kernel, r, q[1..], c[1..], lo, hi, d[i]);
      }
      HeldJoin(z.m, R, d, d');
    }
  }

  lemma NewNotHeld(m: Mem, R: set<nat>, c: seq<nat>, d: seq<nat>)
    requires Held(m, R, c) && c != [] && forall g | Off(m, R, g) && g != c[0] :: g !in d
    ensures forall f | f in d :: f !in c[1..]
  {
    hide Off;
    HeldHead(m, R, c);
  }

  /** The pages `vmm_unmap_region` visits. */
  function UnmapKeys(q: seq<V.Area>, lo: nat, hi: nat): seq<Key> {
    if q == [] || q[0].start >= hi then []
    else if q[0].end <= lo then UnmapKeys(q[1..], lo, hi)
    else OverlapKeys(q[0], lo, hi) + UnmapKeys(q[1..], lo, hi)
  }

  lemma {:induction false} UnmapKeysIff(q: seq<V.Area>, lo: nat, hi: nat, a: nat)
    requires AreasOk(q) && PageAligned(lo) && PageAligned(hi) && PageAligned(a) && a < USER_TOP
    ensures KeyOf(a) in UnmapKeys(q, lo, hi) <==> lo <= a < hi && V.FlagsAt(q, a).Some?
  {
    hide KeyOf, PageKeys, PageAligned;
    if q != [] {
      assert AreaOk(q[0]);
      if q[0].start >= hi {
        if a < hi { V.FlagsAtBelow(q, a); }
      } else {
        UnmapKeysIff(q[1..], lo, hi, a);
        if q[0].end > lo { PageKeysIff(Max(q[0].start, lo), Min(q[0].end, hi), a); }
      }
    }
  }

  lemma {:induction false} WalkPage(s: Phys, R: set<nat>, kernel: nat, r: nat, q: seq<V.Area>, c: seq<nat>, lo: nat, hi: nat, t: nat, l: Key)
    requires VInv(s.m, R, kernel) && r in R && AreasOk(q) && |c| == |q| && Held(s.m, R, c) && (t in R || t == kernel)
    ensures var z := UnmapWalk(s, R, kernel, r, q, c, lo, hi).0;
      && At(z.m, t, l) == (if t == r && l in UnmapKeys(q, lo, hi) then NoMap else At(s.m, t, l))
      && z.data == s.data
    decreases |q|
  {
    hide VInv, AreaOk, Off, UnmapOne, OverlapKeys, At;
    if q != [] && q[0].start < hi {
      AreasHead(q);
      HeldHead(s.m, R, c);
      if q[0].end <= lo {
        WalkPage(s, R, kernel, r, q[1..], c[1..], lo, hi, t, l);
      } else {
        UnmapOneInv(s, R, kernel, r, q[0], c[0], lo, hi);
        UnmapOnePage(s, R, kernel, r, q[0], c[0], lo, hi, t, l);
        var x := UnmapOne(s, R, kernel, r, q[0], c[0], lo, hi).0;
        RestHeld(s.m, x.m, R, c);
        WalkPage(x, R, kernel, r, q[1..], c[1..], lo, hi, t, l);
      }
    }
  }

  // ------------------------------------------------------- room for a split

  ghost predicate Mapped(m: Mem, r: nat, ks: seq<Key>) {
    exists i :: 0 <= i < |ks| && At(m, r, ks[i]).Page?
  }

  /** A frame for the second record can be had: one is free, or the unmap frees one first. */
  ghost predicate CanSplit(m: Mem, r: nat, lo: nat, hi: nat) {
    m.pool != [] || Mapped(m, r, PageKeys(lo, hi))
  }

  /** Beyond the start of the range nothing is split. */
  lemma {:induction false} RemoveLater(q: seq<V.Area>, lo: nat, hi: nat, mem: bool, mem': bool)
    requires V.Ok(q) && (q != [] ==> lo <= q[0].start)
    ensures V.Remove(q, lo, hi, mem) == V.Remove(q, lo, hi, mem')
  {
    if q != [] && q[0].start < hi {
      RemoveLater(q[1..], lo, hi, mem, mem');
    }
  }

  /** The list part of the walk is the list operation, its memory told from the state before. */
  lemma {:induction false} WalkAreas(s: Phys, R: set<nat>, kernel: nat, r: nat, q: seq<V.Area>, c: seq<nat>, lo: nat, hi: nat)
    requires VInv(s.m, R, kernel) && r in R && AreasOk(q) && |c| == |q| && Held(s.m, R, c) && lo <= hi
    ensures UnmapWalk(s, R, kernel, r, q, c, lo, hi).1 == V.Remove(q, lo, hi, CanSplit(s.m, r, lo, hi))
    decreases |q|
  {
    hide VInv, AreaOk, Off, UnmapOne, OverlapKeys, CanSplit;
    if q != [] && q[0].start < hi {
      AreasHead(q);
      HeldHead(s.m, R, c);
      var mem := CanSplit(s.m, r, lo, hi);
      if q[0].end <= lo {
        WalkAreas(s, R, kernel, r, q[1..], c[1..], lo, hi);
      } else {
        UnmapOneInv(s, R, kernel, r, q[0], c[0], lo, hi);
        var x := UnmapOne(s, R, kernel, r, q[0], c[0], lo, hi).0;
        RestHeld(s.m, x.m, R, c);
        WalkAreas(x, R, kernel, r, q[1..], c[1..], lo, hi);
        OnePieces(s, R, kernel, r, q[0], c[0], lo, hi);
        RemoveLater(q[1..], lo, hi, mem, CanSplit(x.m, r, lo, hi));
      }
    }
  }

  lemma OnePieces(s: Phys, R: set<nat>, kernel: nat, r: nat, v: V.Area, f: nat, lo: nat, hi: nat)
    requires VInv(s.m, R, kernel) && r in R && v.end <= USER_TOP
    ensures UnmapOne(s, R, kernel, r, v, f, lo, hi).1 == V.Pieces(v, lo, hi, CanSplit(s.m, r, lo, hi))
  {
    hide VInv, FreeKeys, User, PageKeys, At;
    OnePages(s, R, kernel, r, v, lo, hi);
    FreeKeysPool(s, R, kernel, r, OverlapKeys(v, lo, hi));
    if V.Spans(v, lo, hi) { assert OverlapKeys(v, lo, hi) == PageKeys(lo, hi); }
  }

  // ------------------------------------------------------------ whole spaces

  /** The list, record and page effects of an unmap up to address `hi`. */
  ghost function UnmapTo(v: Vm, r: nat, lo: nat, hi: nat): Vm
    requires VmOk(v) && r in v.spaces
  {
    AreasOf(v, r);
    var (z, q, c) := UnmapWalk(v.s, v.spaces.Keys, v.kernel, r, v.spaces[r].areas, v.spaces[r].recs, lo, hi);
    v.(s := z, spaces := v.spaces[r := Space(q, c, v.spaces[r].frame)])
  }

  /** `vmm_unmap_region`. */
  ghost function UnmapRegion(v: Vm, r: nat, lo: nat, size: nat): Vm
    requires VmOk(v) && r in v.spaces
  {
    UnmapTo(v, r, lo, (lo + size) % V.U64)
  }

  /** Trimming and splitting at page boundaries keeps areas on page boundaries. */
  lemma {:induction false} RemoveAligned(q: seq<V.Area>, lo: nat, hi: nat, mem: bool)
    requires AreasOk(q) && PageAligned(lo) && PageAligned(hi) && lo <= hi
    ensures forall x | x in V.Remove(q, lo, hi, mem) :: AreaOk(x)
  {
    hide PageAligned;
    if q != [] && q[0].start < hi {
      assert AreaOk(q[0]);
      RemoveAligned(q[1..], lo, hi, mem);
    }
  }

  /** A page-aligned unmap takes away exactly the pages of the range that some area has, in this space only. */
  lemma UnmapPages(v: Vm, r: nat, lo: nat, hi: nat, t: nat, a: nat)
    requires VmOk(v) && r in v.spaces && (t in v.spaces || t == v.kernel)
    requires PageAligned(lo) && PageAligned(hi) && PageAligned(a) && a < USER_TOP
    ensures var z := UnmapTo(v, r, lo, hi);
      && At(z.s.m, t, KeyOf(a)) ==
           (if t == r && lo <= a < hi && V.FlagsAt(v.spaces[r].areas, a).Some? then NoMap else At(v.s.m, t, KeyOf(a)))
      && z.s.data == v.s.data
  {
    hide KeyOf, V.FlagsAt, VInv, PageAligned, V.Ok, Held, UnmapWalk;
    AreasOf(v, r);
    var p := v.spaces[r];
    UnmapKeysIff(p.areas, lo, hi, a);
    WalkPage(v.s, v.spaces.Keys, v.kernel, r, p.areas, p.recs, lo, hi, t, KeyOf(a));
  }

  lemma AlignedSum(a: nat, b: nat)
    requires PageAligned(a) && PageAligned(b)
    ensures PageAligned(a + b)
  {
  }

  lemma UnmapOk(v: Vm, r: nat, lo: nat, hi: nat)
    requires VmOk(v) && r in v.spaces && PageAligned(lo) && PageAligned(hi) && lo <= hi
    ensures VmOk(UnmapTo(v, r, lo, hi))
    ensures UnmapTo(v, r, lo, hi).spaces.Keys == v.spaces.Keys
    ensures UnmapTo(v, r, lo, hi).spaces[r].areas == V.Remove(v.spaces[r].areas, lo, hi, CanSplit(v.s.m, r, lo, hi))
  {
    hide VmOk, VInv, Held, PageAligned, V.Ok, CanSplit, V.Remove, Off, UnmapWalk;
    AreasOf(v, r);
    var p := v.spaces[r];
    var R := v.spaces.Keys;
    var mem := CanSplit(v.s.m, r, lo, hi);
    WalkInv(v.s, R, v.kernel, r, p.areas, p.recs, lo, hi);
    WalkAreas(v.s, R, v.kernel, r, p.areas, p.recs, lo, hi);
    V.RemoveWithin(p.areas, lo, hi, mem);
    RemoveAligned(p.areas, lo, hi, mem);
    var w := UnmapTo(v, r, lo, hi);
    forall g | Off(v.s.m, R, g) && g !in p.recs ensures Off(w.s.m, R, g) && g !in w.spaces[r].recs {
      WalkOff(v.s, R, v.kernel, r, p.areas, p.recs, lo, hi, g);
    }
    HeldParts(w.s.m, R, w.spaces[r]);
    Replaced(v, w, r);
  }

  /**
   Unmapping a range makes the space's address map exactly the old one outside the
   range if and only if no area has to be cut in two, or a frame is free, or some
   page of the range was mapped, which the unmap frees before it needs the frame.
   */
  lemma UnmapAddresses(v: Vm, r: nat, lo: nat, hi: nat)
    requires VmOk(v) && r in v.spaces && PageAligned(lo) && PageAligned(hi) && lo < hi
    ensures var q := v.spaces[r].areas; var z := UnmapTo(v, r, lo, hi);
      && r in z.spaces
      && ((forall a :: V.FlagsAt(z.spaces[r].areas, a) == if V.InRange(lo, hi, a) then None else V.FlagsAt(q, a))
          <==> v.s.m.pool != [] || Mapped(v.s.m, r, PageKeys(lo, hi)) || forall i | 0 <= i < |q| :: !V.Spans(q[i], lo, hi))
  {
    hide VmOk, UnmapTo, V.Remove, V.Ok, V.FlagsAt, V.Spans, V.InRange, Mapped, PageKeys;
    AreasOf(v, r);
    UnmapOk(v, r, lo, hi);
    V.RemoveSpec(v.spaces[r].areas, lo, hi, CanSplit(v.s.m, r, lo, hi));
  }
}
