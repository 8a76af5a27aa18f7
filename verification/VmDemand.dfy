/**
 How many frames a clone takes (kernel/mm/vmm.c), told from the state before: when it
 succeeds, and when it fails in the middle of an area and strands what it had copied.
 */
module VmDemand {

  import opened Common
  import opened Paging
  import opened PagingOps
  import opened PagingTree
  import opened PagingNeed
  import opened VmPages
  import opened VmRecords
  import opened VmNeed
  import opened Vmm
  import opened VmSpaces
  import opened VmRegions
  import opened VmLife
  import opened VmClone
  import opened VmFrames
  import V = Vma

  /** The pages of the list that are mapped. */
  ghost function Live(m: Mem, src: nat, ks: seq<Key>): seq<Key> {
    if ks == [] then []
    else (if At(m, src, ks[0]).Page? then [ks[0]] else []) + Live(m, src, ks[1..])
  }

  /** The tables missing on the paths to these pages. */
  ghost function KeyNeed(m: Mem, dst: nat, ks: seq<Key>): set<Spot>
    requires Wf(m) && IsRoot(m, dst)
  {
    if ks == [] then {} else Absent(m, dst, ks[0]) + KeyNeed(m, dst, ks[1..])
  }

  /** Frames for `a` records, for these pages and for the tables they miss. */
  ghost function Demand(m: Mem, dst: nat, a: nat, ks: seq<Key>): nat
    requires Wf(m) && IsRoot(m, dst)
  {
    a + |ks| + |KeyNeed(m, dst, ks)|
  }

  lemma {:induction false} KeyNeedConcat(m: Mem, dst: nat, a: seq<Key>, b: seq<Key>)
    requires Wf(m) && IsRoot(m, dst)
    ensures KeyNeed(m, dst, a + b) == KeyNeed(m, dst, a) + KeyNeed(m, dst, b)
  {
    hide Wf, Absent;
    if a == [] {
      assert a + b == b;
    } else {
      assert (a + b)[1..] == a[1..] + b;
      KeyNeedConcat(m, dst, a[1..], b);
    }
  }

  lemma {:induction false} LiveConcat(m: Mem, src: nat, a: seq<Key>, b: seq<Key>)
    ensures Live(m, src, a + b) == Live(m, src, a) + Live(m, src, b)
  {
    hide At;
    if a == [] {
      assert a + b == b;
    } else {
      assert (a + b)[1..] == a[1..] + b;
      LiveConcat(m, src, a[1..], b);
    }
  }

  lemma {:induction false} LiveSame(m: Mem, n: Mem, src: nat, ks: seq<Key>)
    requires forall k :: At(n, src, k) == At(m, src, k)
    ensures Live(n, src, ks) == Live(m, src, ks)
  {
    hide At;
    if ks != [] { LiveSame(m, n, src, ks[1..]); }
  }

  /** The tables in `gone` are there now. */
  ghost predicate Built(m: Mem, n: Mem, dst: nat, gone: set<Spot>)
    requires Wf(m) && IsRoot(m, dst) && Wf(n) && IsRoot(n, dst)
  {
    forall l :: Absent(n, dst, l) == Absent(m, dst, l) - gone
  }

  lemma {:induction false} NeedLeft(m: Mem, n: Mem, dst: nat, gone: set<Spot>, ks: seq<Key>)
    requires Wf(m) && IsRoot(m, dst) && Wf(n) && IsRoot(n, dst) && Built(m, n, dst, gone)
    ensures KeyNeed(n, dst, ks) == KeyNeed(m, dst, ks) - gone
  {
    hide Wf, Absent;
    if ks != [] { NeedLeft(m, n, dst, gone, ks[1..]); }
  }

  /** What is demanded after part of it has been met. */
  lemma DemandLeft(m: Mem, n: Mem, dst: nat, a: nat, ks: seq<Key>, b: nat, ls: seq<Key>)
    requires Wf(m) && IsRoot(m, dst) && Wf(n) && IsRoot(n, dst) && Built(m, n, dst, KeyNeed(m, dst, ks))
    ensures Demand(m, dst, a + b, ks + ls) == Demand(m, dst, a, ks) + Demand(n, dst, b, ls)
  {
    hide Wf, Absent, KeyNeed;
    KeyNeedConcat(m, dst, ks, ls);
    NeedLeft(m, n, dst, KeyNeed(m, dst, ks), ls);
    var x, y := KeyNeed(m, dst, ks), KeyNeed(m, dst, ls);
    assert x + y == x + (y - x) && x * (y - x) == {};
  }

  // -------------------------------------------------------------- one area

  /** Copying succeeds exactly when the pool meets the demand, and takes exactly that. */
  lemma {:induction false} CopyTakes(s: Phys, R: set<nat>, kernel: nat, src: nat, dst: nat, ks: seq<Key>)
    requires VInv(s.m, R, kernel) && src in R && dst in R && src != dst && forall i | 0 <= i < |ks| :: User(ks[i])
    ensures Wf(s.m) && IsRoot(s.m, dst)
    ensures var (z, ok) := CopyKeys(s, R, kernel, src, dst, ks); var live := Live(s.m, src, ks);
      && (ok <==> |s.m.pool| >= Demand(s.m, dst, 0, live))
      && (ok ==> Wf(z.m) && IsRoot(z.m, dst) && Built(s.m, z.m, dst, KeyNeed(s.m, dst, live))
                 && |z.m.pool| == |s.m.pool| - Demand(s.m, dst, 0, live))
    decreases |ks|
  {
    hide Wf, VInv, MapNew, User, At, Absent, Huge;
    RootIn(s.m, R, kernel, dst);
    if ks != [] {
      var x := At(s.m, src, ks[0]);
      if x.NoMap? {
        assert Live(s.m, src, ks) == Live(s.m, src, ks[1..]);
        CopyTakes(s, R, kernel, src, dst, ks[1..]);
      } else {
        CopyOne(s, R, kernel, src, dst, ks);
        var (z, ok) := MapNew(s, dst, ks[0], x.flags, Read(s, x.frame));
        var live, rest := Live(s.m, src, ks), Live(s.m, src, ks[1..]);
        assert live == [ks[0]] + rest && live[1..] == rest;
        DemandHead(s.m, dst, ks[0], rest);
        if ok {
          CopyTakes(z, R, kernel, src, dst, ks[1..]);
          LiveSame(s.m, z.m, src, ks[1..]);
          DemandLeft(s.m, z.m, dst, 0, [ks[0]], 0, rest);
          assert [ks[0]] + rest == live;
          BuiltOn(s.m, z.m, CopyKeys(z, R, kernel, src, dst, ks[1..]).0.m, dst, [ks[0]], rest, CopyKeys(z, R, kernel, src, dst, ks[1..]).1);
        }
      }
    }
  }

  lemma BuiltOn(m: Mem, n: Mem, z: Mem, dst: nat, ks: seq<Key>, ls: seq<Key>, ok: bool)
    requires Wf(m) && IsRoot(m, dst) && Wf(n) && IsRoot(n, dst) && Built(m, n, dst, KeyNeed(m, dst, ks))
    requires ok ==> Wf(z) && IsRoot(z, dst) && Built(n, z, dst, KeyNeed(n, dst, ls))
    ensures ok ==> Built(m, z, dst, KeyNeed(m, dst, ks + ls))
  {
    hide Wf, Absent, KeyNeed;
    KeyNeedConcat(m, dst, ks, ls);
    NeedLeft(m, n, dst, KeyNeed(m, dst, ks), ls);
  }

  lemma DemandHead(m: Mem, dst: nat, k: Key, rest: seq<Key>)
    requires Wf(m) && IsRoot(m, dst)
    ensures KeyNeed(m, dst, [k]) == Absent(m, dst, k) && Demand(m, dst, 0, [k]) == 1 + |Absent(m, dst, k)|
    ensures Demand(m, dst, 0, [k] + rest) >= Demand(m, dst, 0, [k])
  {
    hide Wf, Absent;
    assert [k][1..] == [];
    assert KeyNeed(m, dst, [k]) == Absent(m, dst, k) + {};
    KeyNeedConcat(m, dst, [k], rest);
    var x, y := KeyNeed(m, dst, [k]), KeyNeed(m, dst, rest);
    assert x + y == x + (y - x) && x * (y - x) == {};
  }

  /** One page copied: its frame and the tables it misses. */
  lemma CopyOne(s: Phys, R: set<nat>, kernel: nat, src: nat, dst: nat, ks: seq<Key>)
    requires VInv(s.m, R, kernel) && src in R && dst in R && src != dst && ks != [] && User(ks[0]) && At(s.m, src, ks[0]).Page?
    ensures Wf(s.m) && IsRoot(s.m, dst)
    ensures var x := At(s.m, src, ks[0]); var (z, ok) := MapNew(s, dst, ks[0], x.flags, Read(s, x.frame));
      && VInv(z.m, R, kernel)
      && (ok <==> |s.m.pool| >= Demand(s.m, dst, 0, [ks[0]]))
      && (forall l :: At(z.m, src, l) == At(s.m, src, l))
      && (forall l :: At(z.m, dst, l) == if ok && l == ks[0] then Page(s.m.pool[0], x.flags) else At(s.m, dst, l))
      && (ok ==> Wf(z.m) && IsRoot(z.m, dst) && Built(s.m, z.m, dst, KeyNeed(s.m, dst, [ks[0]]))
                 && |z.m.pool| == |s.m.pool| - Demand(s.m, dst, 0, [ks[0]]))
  {
    hide Wf, VInv, MapNew, User, Absent, Huge, Trans;
    var k := ks[0];
    var x := At(s.m, src, k);
    var c := Read(s, x.frame);
    RootIn(s.m, R, kernel, dst);
    RootIn(s.m, R, kernel, src);
    NotHuge(s.m, R, kernel, dst, k);
    MapNewInv(s, R, kernel, dst, k, x.flags, c);
    MapNewTakes(s, dst, k, x.flags, c, k);
    MapNewOnward(s, dst, k, x.flags, c);
    var (z, ok) := MapNew(s, dst, k, x.flags, c);
    DemandHead(s.m, dst, k, []);
    forall l ensures ok ==> Absent(z.m, dst, l) == Absent(s.m, dst, l) - Absent(s.m, dst, k) {
      MapNewTakes(s, dst, k, x.flags, c, l);
    }
    forall l ensures At(z.m, src, l) == At(s.m, src, l) { MapNewPage(s, R, kernel, dst, k, x.flags, c, src, l); }
    forall l ensures At(z.m, dst, l) == if ok && l == k then Page(s.m.pool[0], x.flags) else At(s.m, dst, l) {
      MapNewPage(s, R, kernel, dst, k, x.flags, c, dst, l);
    }
  }

  /** Some page of the list is mapped in the copy. */
  ghost predicate AnyCopied(m: Mem, dst: nat, ks: seq<Key>) {
    exists k :: k in ks && At(m, dst, k).Page?
  }

  /** A copying leaves a page mapped exactly when the first page that is there to copy can be. */
  lemma {:induction false} CopyStarts(s: Phys, R: set<nat>, kernel: nat, src: nat, dst: nat, ks: seq<Key>)
    requires VInv(s.m, R, kernel) && src in R && dst in R && src != dst && forall i | 0 <= i < |ks| :: User(ks[i])
    requires Distinct(ks) && forall i | 0 <= i < |ks| :: At(s.m, dst, ks[i]).NoMap?
    ensures Wf(s.m) && IsRoot(s.m, dst)
    ensures var z := CopyKeys(s, R, kernel, src, dst, ks).0; var live := Live(s.m, src, ks);
      AnyCopied(z.m, dst, ks) <==> live != [] && |s.m.pool| >= Demand(s.m, dst, 0, [live[0]])
    decreases |ks|
  {
    hide Wf, VInv, MapNew, User, At, Demand, Built;
    RootIn(s.m, R, kernel, dst);
    if ks != [] {
      var k := ks[0];
      var x := At(s.m, src, k);
      assert forall i | 0 <= i < |ks[1..]| :: ks[1..][i] == ks[i + 1] && ks[i + 1] != k;
      if x.NoMap? {
        CopyStarts(s, R, kernel, src, dst, ks[1..]);
        CopyKeysSpec(s, R, kernel, src, dst, ks[1..], src, k);
        var z := CopyKeys(s, R, kernel, src, dst, ks).0;
        assert At(z.m, dst, k) == At(s.m, dst, k);
        HeadNotCopied(z.m, dst, ks);
        assert Live(s.m, src, ks) == Live(s.m, src, ks[1..]);
      } else {
        CopyOne(s, R, kernel, src, dst, ks);
        var (n, ok) := MapNew(s, dst, k, x.flags, Read(s, x.frame));
        var z := CopyKeys(s, R, kernel, src, dst, ks).0;
        assert Live(s.m, src, ks)[0] == k;
        if ok {
          CopyKeysSpec(n, R, kernel, src, dst, ks[1..], src, k);
          assert k in ks && At(z.m, dst, k).Page?;
        } else {
          assert forall l | l in ks :: At(z.m, dst, l) == At(s.m, dst, l);
        }
      }
    }
  }

  lemma HeadNotCopied(m: Mem, dst: nat, ks: seq<Key>)
    requires ks != [] && At(m, dst, ks[0]).NoMap?
    ensures AnyCopied(m, dst, ks) <==> AnyCopied(m, dst, ks[1..])
  {
    hide At;
    assert forall k :: k in ks <==> k == ks[0] || k in ks[1..];
  }

  /** More records and pages demand no less. */
  lemma DemandGrows(m: Mem, dst: nat, a: nat, ks: seq<Key>, b: nat, ls: seq<Key>)
    requires Wf(m) && IsRoot(m, dst)
    ensures Demand(m, dst, a, ks) + b + |ls| <= Demand(m, dst, a + b, ks + ls)
  {
    hide Wf, Absent, KeyNeed;
    KeyNeedConcat(m, dst, ks, ls);
    var x, y := KeyNeed(m, dst, ks), KeyNeed(m, dst, ls);
    assert x + y == x + (y - x) && x * (y - x) == {};
  }

  lemma AbsentPopped(m: Mem, dst: nat, k: Key)
    requires Wf(m) && IsRoot(m, dst) && m.pool != [] && Wf(Pop(m)) && IsRoot(Pop(m), dst)
    ensures Absent(Pop(m), dst, k) == Absent(m, dst, k)
  {
    hide Wf, Missing;
    PoolPopped(m);
    PoolView(m, Pop(m), dst, k);
  }

  lemma DemandPopped(m: Mem, dst: nat, ks: seq<Key>)
    requires Wf(m) && IsRoot(m, dst) && m.pool != [] && Wf(Pop(m)) && IsRoot(Pop(m), dst)
    ensures KeyNeed(Pop(m), dst, ks) == KeyNeed(m, dst, ks)
    ensures Demand(m, dst, 1, ks) == 1 + Demand(Pop(m), dst, 0, ks)
  {
    hide Wf, Absent;
    forall k ensures Absent(Pop(m), dst, k) == Absent(m, dst, k) { AbsentPopped(m, dst, k); }
    NeedLeft(m, Pop(m), dst, {}, ks);
  }

  /** The pages of one area that the parent has. */
  ghost function Here(m: Mem, src: nat, x: V.Area): seq<Key> {
    Live(m, src, PageKeys(x.start, x.end))
  }

  /** An area is cloned exactly when the pool has a frame for its record, its pages and their tables, and takes exactly those. */
  lemma AreaTakes(v: Vm, src: nat, dst: nat, x: V.Area)
    requires VmOk(v) && src in v.spaces && dst in v.spaces && src != dst && AreaOk(x) && x.start < x.end
    ensures Wf(v.s.m) && IsRoot(v.s.m, dst)
    ensures var (w, ok) := CloneArea(v, src, dst, x); var here := Here(v.s.m, src, x);
      && (ok <==> |v.s.m.pool| >= Demand(v.s.m, dst, 1, here))
      && (ok ==> Wf(w.s.m) && IsRoot(w.s.m, dst) && Built(v.s.m, w.s.m, dst, KeyNeed(v.s.m, dst, here))
                 && |w.s.m.pool| == |v.s.m.pool| - Demand(v.s.m, dst, 1, here))
      && (forall k :: At(w.s.m, src, k) == At(v.s.m, src, k))
  {
    hide VmOk, VInv, Wf, User, PageKeys, CopyKeys, AddRecord, At, Absent, KeyNeed, AreaOk, Demand;
    UserEnd(x);
    AreasOf(v, dst);
    var R := v.spaces.Keys;
    RootIn(v.s.m, R, v.kernel, dst);
    forall k ensures At(CloneArea(v, src, dst, x).0.s.m, src, k) == At(v.s.m, src, k) {
      CloneAreaOthers(v, src, dst, x, src, k);
    }
    if v.s.m.pool != [] {
      PopInv(v.s.m, R, v.kernel);
      PageKeysUser(x.start, x.end);
      var s := v.s.(m := Pop(v.s.m));
      var ks := PageKeys(x.start, x.end);
      RootIn(s.m, R, v.kernel, dst);
      CopyTakes(s, R, v.kernel, src, dst, ks);
      LiveSame(v.s.m, s.m, src, ks);
      DemandPopped(v.s.m, dst, Here(v.s.m, src, x));
      BuiltPopped(v.s.m, CopyKeys(s, R, v.kernel, src, dst, ks).0.m, dst, KeyNeed(v.s.m, dst, Here(v.s.m, src, x)), CopyKeys(s, R, v.kernel, src, dst, ks).1);
    } else {
      AtLeastOne(v.s.m, dst, Here(v.s.m, src, x));
    }
  }

  lemma AtLeastOne(m: Mem, dst: nat, ks: seq<Key>)
    requires Wf(m) && IsRoot(m, dst)
    ensures Demand(m, dst, 1, ks) >= 1
  {
  }

  lemma BuiltPopped(m: Mem, z: Mem, dst: nat, gone: set<Spot>, ok: bool)
    requires Wf(m) && IsRoot(m, dst) && m.pool != [] && Wf(Pop(m)) && IsRoot(Pop(m), dst)
    requires ok ==> Wf(z) && IsRoot(z, dst) && Built(Pop(m), z, dst, gone)
    ensures ok ==> Built(m, z, dst, gone)
  {
    hide Wf, Absent;
    forall k ensures Absent(Pop(m), dst, k) == Absent(m, dst, k) { AbsentPopped(m, dst, k); }
  }

  // -------------------------------------------------------------- all areas

  lemma LiveAreas(m: Mem, src: nat, q: seq<V.Area>)
    requires q != []
    ensures Live(m, src, AreaKeys(q)) == Here(m, src, q[0]) + Live(m, src, AreaKeys(q[1..]))
  {
    LiveConcat(m, src, PageKeys(q[0].start, q[0].end), AreaKeys(q[1..]));
  }

  lemma {:induction false} CloneAreasTake(v: Vm, src: nat, dst: nat, todo: seq<V.Area>)
    requires VmOk(v) && src in v.spaces && dst in v.spaces && src != dst && AreasOk(v.spaces[dst].areas + todo)
    ensures Wf(v.s.m) && IsRoot(v.s.m, dst)
    ensures CloneAreas(v, src, dst, todo).1 <==>
      |v.s.m.pool| >= Demand(v.s.m, dst, |todo|, Live(v.s.m, src, AreaKeys(todo)))
    decreases |todo|
  {
    hide VmOk, VInv, CloneArea, AreasOk, V.Intersect, V.Insert, AreaOk, At, Wf, Demand, Here, Built, Live;
    PoolIn(v);
    RootIn(v.s.m, v.spaces.Keys, v.kernel, dst);
    if todo == [] {
      NoDemand(v.s.m, src, dst);
    } else {
      AreaNext(v.spaces[dst].areas, todo);
      CloneAreaOk(v, src, dst, todo[0]);
      AreaTakes(v, src, dst, todo[0]);
      var (w, ok) := CloneArea(v, src, dst, todo[0]);
      var here, rest := Here(v.s.m, src, todo[0]), Live(v.s.m, src, AreaKeys(todo[1..]));
      LiveAreas(v.s.m, src, todo);
      DemandGrows(v.s.m, dst, 1, here, |todo| - 1, rest);
      if ok {
        CloneAreasTake(w, src, dst, todo[1..]);
        LiveSame(v.s.m, w.s.m, src, AreaKeys(todo[1..]));
        DemandLeft(v.s.m, w.s.m, dst, 1, here, |todo| - 1, rest);
      }
    }
  }

  lemma NoDemand(m: Mem, src: nat, dst: nat)
    requires Wf(m) && IsRoot(m, dst)
    ensures Demand(m, dst, 0, Live(m, src, AreaKeys([]))) == 0
  {
  }

  /** The pool lasts into area `i` of the list, past the first of its pages, but not to its end. */
  ghost predicate Breaks(m: Mem, src: nat, dst: nat, todo: seq<V.Area>, i: nat)
    requires Wf(m) && IsRoot(m, dst)
  {
    && i < |todo|
    && var before, here := Live(m, src, AreaKeys(todo[..i])), Here(m, src, todo[i]);
       here != [] && Demand(m, dst, i + 1, before + [here[0]]) <= |m.pool| < Demand(m, dst, i + 1, before + here)
  }

  /** With the first area done the pool breaks in the rest where it would have. */
  lemma BreaksRest(m: Mem, n: Mem, src: nat, dst: nat, todo: seq<V.Area>, i: nat)
    requires Wf(m) && IsRoot(m, dst) && Wf(n) && IsRoot(n, dst) && todo != [] && (forall k :: At(n, src, k) == At(m, src, k))
    requires Built(m, n, dst, KeyNeed(m, dst, Here(m, src, todo[0]))) && |n.pool| == |m.pool| - Demand(m, dst, 1, Here(m, src, todo[0]))
    ensures Breaks(n, src, dst, todo[1..], i) <==> Breaks(m, src, dst, todo, i + 1)
  {
    hide Wf, At, KeyNeed, Built, Live;
    if i + 1 < |todo| {
      assert todo[1..][i] == todo[i + 1] && todo[..i + 1][1..] == todo[1..][..i] && todo[..i + 1][0] == todo[0];
      var x := todo[i + 1];
      var first, before, here := Here(m, src, todo[0]), Live(m, src, AreaKeys(todo[1..][..i])), Here(m, src, x);
      LiveSame(m, n, src, AreaKeys(todo[1..][..i]));
      LiveSame(m, n, src, PageKeys(x.start, x.end));
      LiveAreas(m, src, todo[..i + 1]);
      if here != [] {
        assert (first + before) + [here[0]] == first + (before + [here[0]]) && (first + before) + here == first + (before + here);
        DemandLeft(m, n, dst, 1, first, i + 1, before + [here[0]]);
        DemandLeft(m, n, dst, 1, first, i + 1, before + here);
      }
    }
  }

  /** A pool that does not last for the first area breaks in no later one. */
  lemma BreaksFirst(m: Mem, src: nat, dst: nat, todo: seq<V.Area>, i: nat)
    requires Wf(m) && IsRoot(m, dst) && todo != [] && |m.pool| < Demand(m, dst, 1, Here(m, src, todo[0])) && i > 0
    ensures !Breaks(m, src, dst, todo, i)
  {
    hide Wf, At, Demand, Here, Live;
    if i < |todo| {
      assert todo[..i][0] == todo[0];
      LiveAreas(m, src, todo[..i]);
      var first, before, here := Here(m, src, todo[0]), Live(m, src, AreaKeys(todo[..i][1..])), Here(m, src, todo[i]);
      if here != [] {
        assert (first + before) + [here[0]] == first + (before + [here[0]]);
        DemandGrows(m, dst, 1, first, i, before + [here[0]]);
      }
    }
  }

  /** Where the first area breaks. */
  lemma BreaksHere(m: Mem, src: nat, dst: nat, todo: seq<V.Area>)
    requires Wf(m) && IsRoot(m, dst) && todo != []
    ensures Breaks(m, src, dst, todo, 0) <==>
      var here := Here(m, src, todo[0]);
      here != [] && Demand(m, dst, 1, [here[0]]) <= |m.pool| < Demand(m, dst, 1, here)
  {
    hide Wf, At, Demand, Here;
    var before, here := Live(m, src, AreaKeys(todo[..0])), Here(m, src, todo[0]);
    assert AreaKeys(todo[..0]) == [] && before == [] && [] + here == here;
    if here != [] { assert [] + [here[0]] == [here[0]]; }
  }

  // ------------------------------------------------------- a clone that breaks

  /** Copied pages of an area that is not yet in the list lie outside the areas, and no others do. */
  lemma CopiedOutside(v: Vm, m: Mem, src: nat, dst: nat, x: V.Area)
    requires VmOk(v) && dst in v.spaces && AreaOk(x) && x.start < x.end && !V.Intersect(v.spaces[dst].areas, x.start, x.end)
    requires Within(v.s.m, dst, v.spaces[dst].areas)
    requires forall k | k !in PageKeys(x.start, x.end) :: At(m, dst, k) == At(v.s.m, dst, k)
    ensures !Within(m, dst, v.spaces[dst].areas) <==> AnyCopied(m, dst, PageKeys(x.start, x.end))
  {
    hide VmOk, At, KeyOf, V.Intersect, V.FlagsAt, AreaOk;
    AreasOf(v, dst);
    var q := v.spaces[dst].areas;
    var ks := PageKeys(x.start, x.end);
    if AnyCopied(m, dst, ks) {
      var k :| k in ks && At(m, dst, k).Page?;
      var p: nat :| p < |ks| && ks[p] == k;
      CutInside(x, p);
      UserEnd(x);
      var a := x.start + PAGE_SIZE * p;
      V.IntersectAddresses(q, x.start, x.end);
      assert ks[p] == KeyAt(x.start, p) == KeyOf(a);
      assert V.FlagsAt(q, a).None?;
      assert !InArea(m, dst, q, a);
    }
    if !Within(m, dst, q) {
      var a: nat :| PageAligned(a) && a < USER_TOP && !InArea(m, dst, q, a);
      assert InArea(v.s.m, dst, q, a);
      assert KeyOf(a) in ks;
    }
  }

  lemma AreaBreaks(v: Vm, src: nat, dst: nat, x: V.Area)
    requires VmOk(v) && src in v.spaces && dst in v.spaces && src != dst && AreaOk(x) && x.start < x.end
    requires !V.Intersect(v.spaces[dst].areas, x.start, x.end) && Within(v.s.m, dst, v.spaces[dst].areas)
    requires !CloneArea(v, src, dst, x).1
    ensures Wf(v.s.m) && IsRoot(v.s.m, dst)
    ensures var w := CloneArea(v, src, dst, x).0; var here := Here(v.s.m, src, x);
      && dst in w.spaces
      && (!Within(w.s.m, dst, w.spaces[dst].areas) <==> here != [] && Demand(v.s.m, dst, 1, [here[0]]) <= |v.s.m.pool|)
  {
    hide VmOk, VInv, Wf, User, PageKeys, CopyKeys, At, KeyNeed, AreaOk, Within, V.Intersect, AnyCopied, Off, Live;
    UserEnd(x);
    AreasOf(v, dst);
    var R := v.spaces.Keys;
    RootIn(v.s.m, R, v.kernel, dst);
    if v.s.m.pool != [] {
      PopInv(v.s.m, R, v.kernel);
      PageKeysUser(x.start, x.end);
      PageKeysDistinct(x.start, x.end);
      var s := v.s.(m := Pop(v.s.m));
      var ks := PageKeys(x.start, x.end);
      RootIn(s.m, R, v.kernel, dst);
      forall i | 0 <= i < |ks| ensures At(s.m, dst, ks[i]).NoMap? { PageFree(v, dst, x, i); }
      CopyStarts(s, R, v.kernel, src, dst, ks);
      LiveSame(v.s.m, s.m, src, ks);
      var z := CopyKeys(s, R, v.kernel, src, dst, ks).0;
      var w := CloneArea(v, src, dst, x).0;
      AreaCopied(v, src, dst, x, dst, Key(0, 0, 0, 0));
      PushInv(z.m, R, v.kernel, v.s.m.pool[0]);
      forall k | k !in ks ensures At(w.s.m, dst, k) == At(v.s.m, dst, k) { AreaCopied(v, src, dst, x, dst, k); }
      CopiedOutside(v, w.s.m, src, dst, x);
      SameCopied(w.s.m, z.m, dst, ks);
      var here := Here(v.s.m, src, x);
      if here != [] { DemandPopped(v.s.m, dst, [here[0]]); }
    }
  }

  lemma SameCopied(m: Mem, n: Mem, dst: nat, ks: seq<Key>)
    requires forall k :: At(m, dst, k) == At(n, dst, k)
    ensures AnyCopied(m, dst, ks) <==> AnyCopied(n, dst, ks)
  {
    hide At;
  }

  lemma PageFree(v: Vm, dst: nat, x: V.Area, i: nat)
    requires VmOk(v) && dst in v.spaces && Within(v.s.m, dst, v.spaces[dst].areas)
    requires AreaOk(x) && x.start < x.end && !V.Intersect(v.spaces[dst].areas, x.start, x.end) && i < |PageKeys(x.start, x.end)|
    ensures At(v.s.m, dst, PageKeys(x.start, x.end)[i]).NoMap?
  {
    hide VmOk, At, V.Intersect, Within, KeyOf;
    RegionFree(v, dst, x, i);
  }

  /** Cloning the areas leaves pages outside the child's areas exactly when the pool breaks in one of them. */
  lemma {:induction false} CloneAreasBreak(v: Vm, src: nat, dst: nat, todo: seq<V.Area>)
    requires VmOk(v) && src in v.spaces && dst in v.spaces && src != dst && AreasOk(v.spaces[dst].areas + todo)
    requires Within(v.s.m, dst, v.spaces[dst].areas)
    ensures Wf(v.s.m) && IsRoot(v.s.m, dst)
    ensures var u := CloneAreas(v, src, dst, todo).0;
      && dst in u.spaces
      && (!Within(u.s.m, dst, u.spaces[dst].areas) <==> exists i: nat :: Breaks(v.s.m, src, dst, todo, i))
    decreases |todo|
  {
    hide VmOk, VInv, CloneArea, AreasOk, V.Intersect, V.Insert, AreaOk, At, Wf, Demand, Here, Built, Live, Within, Breaks;
    PoolIn(v);
    RootIn(v.s.m, v.spaces.Keys, v.kernel, dst);
    if todo == [] {
      NoBreaks(v.s.m, src, dst);
    } else {
      AreaNext(v.spaces[dst].areas, todo);
      CloneAreaOk(v, src, dst, todo[0]);
      AreaTakes(v, src, dst, todo[0]);
      BreaksHere(v.s.m, src, dst, todo);
      var (w, ok) := CloneArea(v, src, dst, todo[0]);
      if ok {
        CloneAreaWithin(v, src, dst, todo[0]);
        CloneAreasBreak(w, src, dst, todo[1..]);
        forall i: nat ensures Breaks(w.s.m, src, dst, todo[1..], i) <==> Breaks(v.s.m, src, dst, todo, i + 1) {
          BreaksRest(v.s.m, w.s.m, src, dst, todo, i);
        }
        if i: nat :| Breaks(v.s.m, src, dst, todo, i) { assert Breaks(w.s.m, src, dst, todo[1..], i - 1); }
        if i: nat :| Breaks(w.s.m, src, dst, todo[1..], i) { assert Breaks(v.s.m, src, dst, todo, i + 1); }
      } else {
        AreaBreaks(v, src, dst, todo[0]);
        forall i: nat | i > 0 ensures !Breaks(v.s.m, src, dst, todo, i) { BreaksFirst(v.s.m, src, dst, todo, i); }
        if i: nat :| Breaks(v.s.m, src, dst, todo, i) { assert i == 0; }
      }
    }
  }

  lemma NoBreaks(m: Mem, src: nat, dst: nat)
    requires Wf(m) && IsRoot(m, dst)
    ensures forall i: nat :: !Breaks(m, src, dst, [], i)
  {
  }

  // --------------------------------------------------- told from before the call

  /** The three tables on a page's path. */
  function PathSpots(k: Key): set<Spot> {
    {SpotOf(k, 1), SpotOf(k, 2), SpotOf(k, 3)}
  }

  /** All the tables on the paths to these pages. */
  function Tables(ks: seq<Key>): set<Spot> {
    if ks == [] then {} else PathSpots(ks[0]) + Tables(ks[1..])
  }

  /** The frames of a clone that gets through `a` areas and these pages: the structure, the top table, records, pages and tables. */
  function CloneDemand(a: nat, ks: seq<Key>): nat {
    2 + a + |ks| + |Tables(ks)|
  }

  /** A new top table has no table below it. */
  lemma NewRootMissing(m: Mem, kernel: nat, k: Key)
    requires Wf(m) && m.pool != [] && IsRoot(m, kernel) && TableOk(m, kernel) && User(k)
    ensures var n := CreateRoot(m, Some(kernel)).0;
      Wf(n) && IsRoot(n, m.pool[0]) && Absent(n, m.pool[0], k) == PathSpots(k)
  {
    hide Injective;
    CreateSpec(m, Some(kernel), kernel, k);
    var n := CreateRoot(m, Some(kernel)).0;
    assert Missing(n, m.pool[0], k) == 3;
  }

  lemma {:induction false} NewRootNeeds(m: Mem, c: nat, ks: seq<Key>)
    requires Wf(m) && IsRoot(m, c) && (forall k | User(k) :: Absent(m, c, k) == PathSpots(k)) && forall i | 0 <= i < |ks| :: User(ks[i])
    ensures KeyNeed(m, c, ks) == Tables(ks)
  {
    hide Wf, Absent, PathSpots, User;
    if ks != [] { NewRootNeeds(m, c, ks[1..]); }
  }

  /** The space a clone starts from. */
  lemma ChildNeeds(v: Vm)
    requires VmOk(v) && |v.s.m.pool| >= 2
    ensures var (w, c) := CreateSpace(v);
      && c.Some? && Wf(w.s.m) && IsRoot(w.s.m, c.value) && |w.s.m.pool| == |v.s.m.pool| - 2
      && forall k | User(k) :: Absent(w.s.m, c.value, k) == PathSpots(k)
  {
    hide VmOk, VInv, At, Off, Wf, Absent, PathSpots, User;
    PoolIn(v);
    CreateSpaceSpec(v);
    PopInv(v.s.m, v.spaces.Keys, v.kernel);
    RootIn(Pop(v.s.m), v.spaces.Keys, v.kernel, v.kernel);
    KernelOk(Pop(v.s.m), v.kernel);
    var (w, c) := CreateSpace(v);
    PoolIn(w);
    RootIn(w.s.m, w.spaces.Keys, w.kernel, c.value);
    forall k | User(k) ensures Absent(w.s.m, c.value, k) == PathSpots(k) { NewRootMissing(Pop(v.s.m), v.kernel, k); }
  }

  lemma {:induction false} LiveUser(m: Mem, src: nat, ks: seq<Key>)
    requires forall i | 0 <= i < |ks| :: User(ks[i])
    ensures forall i | 0 <= i < |Live(m, src, ks)| :: User(Live(m, src, ks)[i])
  {
    hide At, User;
    if ks != [] { LiveUser(m, src, ks[1..]); }
  }

  lemma {:induction false} AreasFront(q: seq<V.Area>, i: nat)
    requires AreasOk(q) && i <= |q|
    ensures AreasOk(q[..i])
  {
    forall j | 0 <= j < |q[..i]| ensures AreaOk(q[..i][j]) { assert AreaOk(q[j]); }
  }

  /** What a clone demands, in the child and told from the parent. */
  lemma DemandTold(v: Vm, w: Vm, src: nat, c: nat, a: nat, ks: seq<Key>)
    requires Wf(w.s.m) && IsRoot(w.s.m, c) && (forall k | User(k) :: Absent(w.s.m, c, k) == PathSpots(k))
    requires forall i | 0 <= i < |ks| :: User(ks[i])
    ensures 2 + Demand(w.s.m, c, a, ks) == CloneDemand(a, ks)
  {
    hide Wf, Absent, PathSpots, User;
    NewRootNeeds(w.s.m, c, ks);
  }

  /**
   A clone succeeds if and only if the pool has a frame for the structure and for the top
   table, one for each area's record, one for each page the parent has in its areas, and
   one for each table on the paths to those pages.
   */
  lemma CloneIff(v: Vm, src: nat)
    requires VmOk(v) && src in v.spaces
    ensures var q := v.spaces[src].areas;
      Clone(v, src).1.Some? <==> |v.s.m.pool| >= CloneDemand(|q|, Live(v.s.m, src, AreaKeys(q)))
  {
    hide VmOk, CloneAreas, CreateSpace, DestroySpace, AreasOk, At, Demand, Wf, User, AreaKeys, PathSpots, Absent;
    var q := v.spaces[src].areas;
    if |v.s.m.pool| >= 2 {
      CreateSpaceSpec(v);
      CloneParts(v, src);
      ChildNeeds(v);
      var (w, c) := CreateSpace(v);
      CloneAreasTake(w, src, c.value, q);
      LiveSame(v.s.m, w.s.m, src, AreaKeys(q));
      AreasOf(v, src);
      AreaKeysUser(q);
      LiveUser(v.s.m, src, AreaKeys(q));
      DemandTold(v, w, src, c.value, |q|, Live(v.s.m, src, AreaKeys(q)));
    } else {
      CloneNoRoom(v, src);
    }
  }

  /** The pool lasts into area `i` of the parent, past the first page to copy there, but not to its end. */
  ghost predicate BreaksAt(v: Vm, src: nat, i: nat)
    requires src in v.spaces && i < |v.spaces[src].areas|
  {
    var q := v.spaces[src].areas;
    var before, here := Live(v.s.m, src, AreaKeys(q[..i])), Here(v.s.m, src, q[i]);
    here != [] && CloneDemand(i + 1, before + [here[0]]) <= |v.s.m.pool| < CloneDemand(i + 1, before + here)
  }

  lemma BreaksTold(v: Vm, w: Vm, src: nat, c: nat, i: nat)
    requires VmOk(v) && src in v.spaces && i < |v.spaces[src].areas| && |w.s.m.pool| == |v.s.m.pool| - 2
    requires Wf(w.s.m) && IsRoot(w.s.m, c) && (forall k | User(k) :: Absent(w.s.m, c, k) == PathSpots(k))
    requires forall k :: At(w.s.m, src, k) == At(v.s.m, src, k)
    ensures Breaks(w.s.m, src, c, v.spaces[src].areas, i) <==> BreaksAt(v, src, i)
  {
    hide VmOk, At, Demand, Wf, User, AreaKeys, PathSpots, Absent, PageKeys, CloneDemand, Live;
    var q := v.spaces[src].areas;
    AreasOf(v, src);
    AreasFront(q, i);
    var before, here := Live(v.s.m, src, AreaKeys(q[..i])), Here(v.s.m, src, q[i]);
    LiveSame(v.s.m, w.s.m, src, AreaKeys(q[..i]));
    LiveSame(v.s.m, w.s.m, src, PageKeys(q[i].start, q[i].end));
    AreaKeysUser(q[..i]);
    LiveUser(v.s.m, src, AreaKeys(q[..i]));
    assert AreaOk(q[i]);
    PageKeysUser(q[i].start, q[i].end);
    LiveUser(v.s.m, src, PageKeys(q[i].start, q[i].end));
    if here != [] {
      DemandTold(v, w, src, c, i + 1, before + [here[0]]);
      DemandTold(v, w, src, c, i + 1, before + here);
    }
  }

  lemma UncoveredIff(m: Mem, r: nat, q: seq<V.Area>)
    ensures (exists f: nat :: Uncovered(m, r, q, f)) <==> !Within(m, r, q)
  {
    hide At, KeyOf, V.FlagsAt;
    if f: nat :| Uncovered(m, r, q, f) {
      var a: nat :| PageAligned(a) && a < USER_TOP && Outside(m, r, q, f, a);
      assert !InArea(m, r, q, a);
    }
    if !Within(m, r, q) {
      var a: nat :| PageAligned(a) && a < USER_TOP && !InArea(m, r, q, a);
      assert Outside(m, r, q, At(m, r, KeyOf(a)).frame, a);
      assert Uncovered(m, r, q, At(m, r, KeyOf(a)).frame);
    }
  }

  /** A clone strands a frame if and only if the pool breaks in some area of the parent. */
  lemma StrandsIff(v: Vm, src: nat)
    requires VmOk(v) && src in v.spaces
    ensures (exists f: nat :: Stranded(v, src, f)) <==> exists i: nat :: i < |v.spaces[src].areas| && BreaksAt(v, src, i)
  {
    hide VmOk, CloneAreas, CreateSpace, DestroySpace, AreasOk, At, Demand, Wf, User, AreaKeys, PathSpots, Absent, Within, Breaks, BreaksAt, Uncovered;
    var q := v.spaces[src].areas;
    if |v.s.m.pool| >= 2 {
      CreateSpaceSpec(v);
      CloneParts(v, src);
      ChildNeeds(v);
      var (w, c) := CreateSpace(v);
      EmptyWithin(w.s.m, c.value);
      CloneAreasBreak(w, src, c.value, q);
      forall i: nat | i < |q| ensures Breaks(w.s.m, src, c.value, q, i) <==> BreaksAt(v, src, i) {
        BreaksTold(v, w, src, c.value, i);
      }
      BreaksBound(w.s.m, src, c.value, q);
      var (u, ok) := CloneAreas(w, src, c.value, q);
      var p := u.spaces[c.value];
      UncoveredIff(u.s.m, c.value, p.areas);
      if ok { CloneChildWithin(v, src); }
      assert forall f: nat :: Stranded(v, src, f) <==> !ok && Uncovered(u.s.m, c.value, p.areas, f);
      if i: nat :| i < |q| && BreaksAt(v, src, i) { assert Breaks(w.s.m, src, c.value, q, i); }
      if i: nat :| Breaks(w.s.m, src, c.value, q, i) { assert i < |q| && BreaksAt(v, src, i); }
    } else {
      forall i: nat | i < |q| ensures !BreaksAt(v, src, i) { NotEvenTwo(v, src, i); }
    }
  }

  lemma BreaksBound(m: Mem, src: nat, dst: nat, q: seq<V.Area>)
    requires Wf(m) && IsRoot(m, dst)
    ensures forall i: nat | Breaks(m, src, dst, q, i) :: i < |q|
  {
  }

  lemma NotEvenTwo(v: Vm, src: nat, i: nat)
    requires src in v.spaces && i < |v.spaces[src].areas| && |v.s.m.pool| < 2
    ensures !BreaksAt(v, src, i)
  {
  }

  /** A clone loses no frame if and only if the pool breaks in no area of the parent. */
  lemma CloneKeepsFramesIff(v: Vm, src: nat)
    requires VmOk(v) && src in v.spaces
    ensures (forall f: nat :: Lost(Clone(v, src).0, f) <==> Lost(v, f)) <==>
            forall i: nat | i < |v.spaces[src].areas| :: !BreaksAt(v, src, i)
  {
    hide VmOk, Clone, Lost, BreaksAt, Stranded;
    StrandsIff(v, src);
    forall f: nat ensures Lost(Clone(v, src).0, f) <==> Lost(v, f) || Stranded(v, src, f) { CloneLoses(v, src, f); }
    if f: nat :| Stranded(v, src, f) { StrandedNotLost(v, src, f); }
  }

  lemma StrandedNotLost(v: Vm, src: nat, f: nat)
    requires VmOk(v) && src in v.spaces && Stranded(v, src, f)
    ensures !Lost(v, f)
  {
    hide VmOk, CloneAreas, CreateSpace, DestroySpace, AreasOk, At, V.FlagsAt, KeyOf, Off, VInv;
    CreateSpaceSpec(v);
    CloneParts(v, src);
    var (w, c) := CreateSpace(v);
    var q := v.spaces[src].areas;
    var (u, ok) := CloneAreas(w, src, c.value, q);
    EmptyWithin(w.s.m, c.value);
    CloneAreasLose(w, src, c.value, q, f);
    CreateLoses(v, f);
    var p := u.spaces[c.value];
    var a: nat :| PageAligned(a) && a < USER_TOP && Outside(u.s.m, c.value, p.areas, f, a);
    AreasOf(u, c.value);
    NotReturned(u.s, u.spaces.Keys, u.kernel, c.value, p, f, a);
  }
}
