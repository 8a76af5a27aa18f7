/**
 Small states in which memory runs short: what mapping two pages leaves behind for
 every number of free frames, a hole that cannot be cut, and the clone of a two-page
 space that loses a frame.
 */
module VmShortage {

  import opened Common
  import opened Paging
  import opened PagingOps
  import opened PagingNeed
  import opened VmPages
  import opened VmNeed
  import opened Vmm
  import opened VmSpaces
  import opened VmRegions
  import opened VmClone
  import opened VmFrames
  import opened VmDemand
  import V = Vma

  function EmptyRoot(): Table { Table(4, seq(512, _ => ABSENT)) }

  /** One address space beside the kernel's, its tables empty, and these free frames. */
  function Lone(p: Space, pool: seq<nat>): Vm {
    Vm(Phys(Mem(map[0 := EmptyRoot(), 1 := EmptyRoot()], pool), map[]), map[1 := p], 0)
  }

  predicate FreshFrames(pool: seq<nat>) {
    NoDup(pool) && forall i | 0 <= i < |pool| :: pool[i] > 1
  }

  lemma LoneTables(p: Space, pool: seq<nat>, k: Key)
    requires FreshFrames(pool)
    ensures var m := Lone(p, pool).s.m;
      && Wf(m) && IsRoot(m, 0) && IsRoot(m, 1)
      && forall r | r == 0 || r == 1 ::
           Missing(m, r, k) == 3 && !Huge(m, r, k) && Trans(m, r, k) == NoMap && PathFlags(m, r, k) == OPEN
  {
    var m := Lone(p, pool).s.m;
    assert forall i | 0 <= i < 512 :: m.tables[0].slots[i] == ABSENT && m.tables[1].slots[i] == ABSENT;
    assert TableOk(m, 0) && TableOk(m, 1);
    assert PoolOk(m);
  }

  lemma LoneOk(p: Space, pool: seq<nat>)
    requires FreshFrames(pool) && AreasOk(p.areas) && |p.recs| == |p.areas|
    requires FreshFrames(Own(p)) && forall i | 0 <= i < |Own(p)| :: Own(p)[i] !in pool
    ensures VmOk(Lone(p, pool))
    ensures forall k :: At(Lone(p, pool).s.m, 1, k) == NoMap
  {
    hide Wf, Trans, Missing, Huge, PathFlags, AreasOk;
    var m := Lone(p, pool).s.m;
    forall k: Key ensures Wf(m) && IsRoot(m, 0) && IsRoot(m, 1) && PathFlags(m, 1, k) == OPEN && !Huge(m, 1, k) && Trans(m, 1, k) == NoMap {
      LoneTables(p, pool, k);
    }
    LoneTables(p, pool, KeyOf(0));
    assert Lone(p, pool).spaces.Keys == {1};
  }

  /** An empty space whose structure is in frame 2, and `n` free frames. */
  function Fresh(n: nat): Vm {
    Lone(Space([], [], 2), seq(n, i requires 0 <= i => 3 + i))
  }

  lemma FreshOk(n: nat)
    ensures VmOk(Fresh(n))
  {
    LoneOk(Space([], [], 2), seq(n, i requires 0 <= i => 3 + i));
  }

  /**
   Mapping two pages into an empty space takes six frames: one for the area's record,
   three for tables and two for the pages.  With none nothing happens; with one to
   four not even the first page can be mapped and the whole area stays behind; with
   five the first page is mapped and taken back, and the rest of the area stays.
   */
  lemma AreaLeftBehind(n: nat, f: V.VFlags)
    ensures VmOk(Fresh(n)) && 1 in Fresh(n).spaces && AreaOk(V.Area(0x1000, 0x3000, f))
    ensures var (z, ok) := MapRegion(Fresh(n), 1, V.Area(0x1000, 0x3000, f));
      && (ok <==> n >= 6)
      && 1 in z.spaces
      && z.spaces[1].areas ==
           if n == 0 then [] else if n == 5 then [V.Area(0x2000, 0x3000, f)] else [V.Area(0x1000, 0x3000, f)]
  {
    hide VmOk, Filled, MapRegion;
    FreshOk(n);
    var x := V.Area(0x1000, 0x3000, f);
    MapRegionAreas(Fresh(n), 1, x);
    if n > 0 { HowMany(n, f); }
  }

  lemma HowMany(n: nat, f: V.VFlags)
    requires n > 0 && VmOk(Fresh(n)) && 1 in Fresh(n).spaces && Fresh(n).s.m.pool != []
    ensures Filled(Fresh(n), 1, V.Area(0x1000, 0x3000, f)) == if n < 5 then 0 else if n == 5 then 1 else 2
    ensures PageCount(0x1000, 0x3000) == 2
  {
    hide VmOk, Wf, Missing, FirstShort;
    var p, pool := Space([], [], 2), Fresh(n).s.m.pool[1..];
    assert Pop(Fresh(n).s.m) == Lone(p, pool).s.m;
    forall k ensures Wf(Lone(p, pool).s.m) && IsRoot(Lone(p, pool).s.m, 1) && Missing(Lone(p, pool).s.m, 1, k) == 3 {
      LoneTables(p, pool, k);
    }
    LoneTables(p, pool, Key(0, 0, 0, 0));
    TwoPages(Lone(p, pool).s.m);
  }

  lemma TwoPages(m: Mem)
    requires Wf(m) && IsRoot(m, 1) && forall k :: Missing(m, 1, k) == 3
    ensures FirstShort(m, 1, 0x1000, 0, 0, 2) == if |m.pool| < 4 then 0 else if |m.pool| == 4 then 1 else 2
  {
    hide Wf, Missing;
    var k, l := KeyAt(0x1000, 0), KeyAt(0x1000, 1);
    assert k == Key(0, 0, 0, 1) && l == Key(0, 0, 0, 2);
    AbsentSize(m, 1, k);
    assert forall level | 1 <= level <= 3 :: SpotOf(k, level) == SpotOf(l, level);
    assert Absent(m, 1, k) == Absent(m, 1, l);
    assert Need(m, 1, 0x1000, 0, 1) == Absent(m, 1, k);
    assert Need(m, 1, 0x1000, 0, 2) == Absent(m, 1, k);
    assert Short(m, 1, 0x1000, 0, 0) <==> |m.pool| < 4;
    assert Short(m, 1, 0x1000, 0, 1) <==> |m.pool| < 5;
  }

  /** A three-page area without pages, such as a failed map leaves, and no free frame: a hole in its middle is not cut. */
  lemma HoleNotCut(f: V.VFlags)
    ensures var p := Space([V.Area(0, 0x3000, f)], [3], 2);
      && VmOk(Lone(p, [])) && 1 in Lone(p, []).spaces
      && UnmapTo(Lone(p, []), 1, 0x1000, 0x2000).spaces[1].areas == p.areas
  {
    hide VmOk, UnmapTo, PageKeys;
    var p := Space([V.Area(0, 0x3000, f)], [3], 2);
    LoneOk(p, []);
    UnmapOk(Lone(p, []), 1, 0x1000, 0x2000);
    V.RefusedSplit(f);
  }

  /** The space with two pages mapped. */
  ghost function TwoMapped(n: nat, f: V.VFlags): Vm {
    FreshOk(n);
    MapRegion(Fresh(n), 1, V.Area(0x1000, 0x3000, f)).0
  }

  lemma TwoKeys()
    ensures PageKeys(0x1000, 0x3000) == [Key(0, 0, 0, 1), Key(0, 0, 0, 2)]
    ensures KeyOf(0x1000) == Key(0, 0, 0, 1) && KeyOf(0x2000) == Key(0, 0, 0, 2)
    ensures Tables([Key(0, 0, 0, 1)]) == PathSpots(Key(0, 0, 0, 1)) == Tables([Key(0, 0, 0, 1), Key(0, 0, 0, 2)])
    ensures |PathSpots(Key(0, 0, 0, 1))| == 3
  {
    var k, l := Key(0, 0, 0, 1), Key(0, 0, 0, 2);
    assert KeyAt(0x1000, 0) == k && KeyAt(0x1000, 1) == l && PageCount(0x1000, 0x3000) == 2;
    assert PathSpots(k) == PathSpots(l) == {Spot(1, 0, 0, 0), Spot(2, 0, 0, 0), Spot(3, 0, 0, 0)};
    assert [k][1..] == [] && [k, l][1..] == [l] && [l][1..] == [];
  }

  lemma TwoMappedOk(n: nat, f: V.VFlags)
    requires n >= 6
    ensures var v := TwoMapped(n, f);
      && VmOk(v) && 1 in v.spaces && v.spaces[1].areas == [V.Area(0x1000, 0x3000, f)] && |v.s.m.pool| == n - 6
      && At(v.s.m, 1, Key(0, 0, 0, 1)).Page? && At(v.s.m, 1, Key(0, 0, 0, 2)).Page?
  {
    hide VmOk, MapRegion, At, KeyOf, Filled, Blank, Wf, Missing;
    FreshOk(n);
    var x := V.Area(0x1000, 0x3000, f);
    var m := Fresh(n).s.m;
    TwoKeys();
    AreaLeftBehind(n, f);
    MapRegionAreas(Fresh(n), 1, x);
    MapRegionTakes(Fresh(n), 1, x);
    forall k ensures Wf(m) && IsRoot(m, 1) && Missing(m, 1, k) == 3 { LoneTables(Space([], [], 2), m.pool, k); }
    TwoNeed(m);
    HowMany(n, f);
    MapRegionPages(Fresh(n), 1, x, 1, 0x1000);
    MapRegionPages(Fresh(n), 1, x, 1, 0x2000);
  }

  lemma TwoNeed(m: Mem)
    requires Wf(m) && IsRoot(m, 1) && forall k :: Missing(m, 1, k) == 3
    ensures |Need(m, 1, 0x1000, 0, 2)| == 3
  {
    hide Wf, Missing;
    var k, l := KeyAt(0x1000, 0), KeyAt(0x1000, 1);
    assert k == Key(0, 0, 0, 1) && l == Key(0, 0, 0, 2);
    AbsentSize(m, 1, k);
    assert forall level | 1 <= level <= 3 :: SpotOf(k, level) == SpotOf(l, level);
    assert Absent(m, 1, k) == Absent(m, 1, l);
    assert Need(m, 1, 0x1000, 0, 2) == Absent(m, 1, k);
  }

  lemma BothLive(m: Mem, r: nat, k: Key, l: Key)
    requires At(m, r, k).Page? && At(m, r, l).Page?
    ensures Live(m, r, [k, l]) == [k, l]
  {
    hide At;
    assert [k, l][1..] == [l] && [l][1..] == [];
    assert Live(m, r, [l]) == [l] + Live(m, r, []);
  }

  /**
   Cloning a space of two pages takes eight frames: structure, top table, record, two
   pages and three tables.  With exactly seven left the first page is copied and the
   second is not, and the copy is lost.
   */
  lemma CopyLost(n: nat, f: V.VFlags)
    requires n >= 6
    ensures var v := TwoMapped(n, f);
      && VmOk(v) && 1 in v.spaces
      && (Clone(v, 1).1.Some? <==> n >= 14)
      && ((exists g: nat :: Lost(Clone(v, 1).0, g) && !Lost(v, g)) <==> n == 13)
  {
    hide VmOk, Clone, At, KeyOf, Lost, Stranded, TwoMapped, PageKeys, Tables, PathSpots;
    TwoMappedOk(n, f);
    TwoKeys();
    var v := TwoMapped(n, f);
    var x, k, l := V.Area(0x1000, 0x3000, f), Key(0, 0, 0, 1), Key(0, 0, 0, 2);
    BothLive(v.s.m, 1, k, l);
    assert Here(v.s.m, 1, x) == [k, l];
    assert [x][1..] == [] && AreaKeys([x]) == [k, l] + [] == [k, l];
    assert [x][..0] == [] && AreaKeys([]) == [] && [] + [k] == [k] && [] + [k, l] == [k, l];
    CloneIff(v, 1);
    assert BreaksAt(v, 1, 0) <==> |v.s.m.pool| == 7;
    StrandsIff(v, 1);
    forall g: nat ensures Lost(Clone(v, 1).0, g) <==> Lost(v, g) || Stranded(v, 1, g) { CloneLoses(v, 1, g); }
    forall g: nat ensures Stranded(v, 1, g) ==> !Lost(v, g) { if Stranded(v, 1, g) { StrandedNotLost(v, 1, g); } }
  }
}
