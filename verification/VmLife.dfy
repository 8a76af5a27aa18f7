/**
 Creating and destroying address spaces (kernel/mm/vmm.c): the structure, the top
 table, the pages, the records and the tables all come from one pool and go back to it.
 */
module VmLife {

  import opened Common
  import opened Paging
  import opened PagingTree
  import opened VmPages
  import opened VmRecords
  import opened Vmm
  import opened VmSpaces
  import opened VmRegions
  import V = Vma

  // ----------------------------------------------------------------- create

  /** `vmm_create_address_space`: a frame for the structure, then one for the top table. */
  ghost function CreateSpace(v: Vm): (Vm, Option<nat>)
    requires VmOk(v)
  {
    if v.s.m.pool == [] then (v, None)
    else
      PopInv(v.s.m, v.spaces.Keys, v.kernel);
      assert TableOk(Pop(v.s.m), v.kernel);
      var (m, c) := CreateRoot(Pop(v.s.m), Some(v.kernel));
      if c.None? then (v.(s := v.s.(m := Push(m, v.s.m.pool[0]))), None)
      else (v.(s := v.s.(m := m), spaces := v.spaces[c.value := Space([], [], v.s.m.pool[0])]), c)
  }

  lemma KernelOk(m: Mem, r: nat)
    requires Wf(m) && IsRoot(m, r)
    ensures TableOk(m, r)
  {
  }

  /** A new top table maps no user page and changes no translation. */
  lemma RootPages(m: Mem, R: set<nat>, kernel: nat)
    requires VInv(m, R, kernel) && m.pool != []
    ensures kernel in m.tables && TableOk(m, kernel)
    ensures var (n, c) := CreateRoot(m, Some(kernel));
      && c == Some(m.pool[0]) && c.value !in R && c.value != kernel && Wf(n) && IsRoot(n, kernel)
      && (forall k | User(k) :: At(n, c.value, k) == NoMap)
      && (forall t, k | t in R || t == kernel :: At(n, t, k) == At(m, t, k))
      && (forall t | t in R + {c.value} :: Plain(n, t))
  {
    hide Wf, Trans, PathFlags, Huge;
    RootIn(m, R, kernel, kernel);
    KernelOk(m, kernel);
    var (n, c) := CreateRoot(m, Some(kernel));
    CreateSpec(m, Some(kernel), kernel, Key(0, 0, 0, 0));
    forall t | t in R ensures t != c.value && IsRoot(m, t) { RootIn(m, R, kernel, t); }
    forall k | User(k) ensures At(n, c.value, k) == NoMap { CreateSpec(m, Some(kernel), kernel, k); }
    forall t, k | t in R || t == kernel ensures At(n, t, k) == At(m, t, k) {
      RootIn(m, R, kernel, t);
      CreateKeeps(m, Some(kernel), t, k);
    }
    forall t | t in R + {c.value} ensures Plain(n, t) { RootPlain(m, R, kernel, t); }
  }

  lemma RootPlain(m: Mem, R: set<nat>, kernel: nat, t: nat)
    requires VInv(m, R, kernel) && m.pool != [] && TableOk(m, kernel) && t in R + {m.pool[0]}
    ensures var n := CreateRoot(m, Some(kernel)).0; Wf(n) && Plain(n, t)
  {
    hide Wf, Trans, PathFlags, Huge;
    var n := CreateRoot(m, Some(kernel)).0;
    CreateSpec(m, Some(kernel), kernel, Key(0, 0, 0, 0));
    if t in R { assert Plain(m, t); CreateKeeps(m, Some(kernel), t, Key(0, 0, 0, 0)); }
    forall k | User(k) ensures PathFlags(n, t, k) == OPEN && !Huge(n, t, k) {
      CreateSpec(m, Some(kernel), kernel, k);
      if t in R { CreateKeeps(m, Some(kernel), t, k); }
    }
  }

  lemma RootInv(m: Mem, R: set<nat>, kernel: nat)
    requires VInv(m, R, kernel) && m.pool != []
    ensures kernel in m.tables && TableOk(m, kernel)
    ensures var (n, c) := CreateRoot(m, Some(kernel));
      && c.Some? && VInv(n, R + {c.value}, kernel)
      && forall g | Off(m, R, g) :: Off(n, R + {c.value}, g)
  {
    hide Wf, At, Plain;
    RootPages(m, R, kernel);
    var (n, c) := CreateRoot(m, Some(kernel));
    assert n.tables.Keys == m.tables.Keys + {c.value} && n.pool == m.pool[1..];
    assert c.value in m.pool;
    forall r, k | r in R + {c.value} && User(k) && At(n, r, k).Page? ensures Taken(n, At(n, r, k).frame) {
      assert Taken(m, At(m, r, k).frame);
    }
  }

  /**
   A new space needs two frames, one for its structure and one for its top table; it
   has no user page and leaves every other space alone.  With fewer nothing changes.
   */
  lemma CreateSpaceSpec(v: Vm)
    requires VmOk(v)
    ensures var (w, c) := CreateSpace(v);
      && VmOk(w) && (c.Some? <==> |v.s.m.pool| >= 2)
      && (c.None? ==> w == v)
      && (c.Some? ==>
           && c.value !in v.spaces && c.value != v.kernel && c.value == v.s.m.pool[1]
           && w.spaces == v.spaces[c.value := Space([], [], v.s.m.pool[0])]
           && w.s.m.pool == v.s.m.pool[2..] && w.s.data == v.s.data && w.kernel == v.kernel
           && (forall k | User(k) :: At(w.s.m, c.value, k) == NoMap)
           && (forall t, k | t in v.spaces || t == v.kernel :: At(w.s.m, t, k) == At(v.s.m, t, k)))
  {
    hide VmOk, VInv, At, Off;
    var pool := v.s.m.pool;
    if pool != [] {
      PoolIn(v);
      PopInv(v.s.m, v.spaces.Keys, v.kernel);
      if |pool| == 1 {
        assert pool[1..] + [pool[0]] == pool;
      } else {
        RootPages(Pop(v.s.m), v.spaces.Keys, v.kernel);
        RootInv(Pop(v.s.m), v.spaces.Keys, v.kernel);
        var (w, c) := CreateSpace(v);
        Added(v, w, c.value);
      }
    }
  }

  lemma PoolIn(v: Vm)
    requires VmOk(v)
    ensures VInv(v.s.m, v.spaces.Keys, v.kernel)
  {
  }

  /** One more space without areas. */
  lemma Added(v: Vm, w: Vm, c: nat)
    requires VmOk(v) && c !in v.spaces && c in w.spaces && w.spaces == v.spaces[c := w.spaces[c]] && w.kernel == v.kernel
    requires w.spaces[c].areas == [] && w.spaces[c].recs == [] && w.spaces[c].frame in v.s.m.pool
    requires VInv(w.s.m, v.spaces.Keys + {c}, v.kernel) && Off(w.s.m, v.spaces.Keys + {c}, w.spaces[c].frame)
    requires forall g | Off(v.s.m, v.spaces.Keys, g) :: Off(w.s.m, v.spaces.Keys + {c}, g)
    ensures VmOk(w)
  {
    hide VInv, AreaOk, Off;
    var R, R' := v.spaces.Keys, v.spaces.Keys + {c};
    var f := w.spaces[c].frame;
    assert w.spaces.Keys == R';
    OffNotFree(v.s.m, R, f);
    forall t | t in R ensures SpaceOk(w.s.m, R', v.spaces[t]) && f !in Own(v.spaces[t]) {
      assert SpaceOk(v.s.m, R, v.spaces[t]);
      if f in Own(v.spaces[t]) { OwnOff(v.s.m, R, v.spaces[t], f); }
    }
    assert SpaceOk(w.s.m, R', w.spaces[c]);
  }

  // ---------------------------------------------------------------- destroy

  /** The frames mapped at these pages, in order. */
  ghost function FramesAt(m: Mem, r: nat, ks: seq<Key>): seq<nat> {
    if ks == [] then []
    else (if At(m, r, ks[0]).Page? then [At(m, r, ks[0]).frame] else []) + FramesAt(m, r, ks[1..])
  }

  lemma {:induction false} FramesAtIff(m: Mem, r: nat, ks: seq<Key>, f: nat)
    ensures f in FramesAt(m, r, ks) <==> exists i :: 0 <= i < |ks| && At(m, r, ks[i]).Page? && At(m, r, ks[i]).frame == f
  {
    hide At;
    if ks != [] {
      FramesAtIff(m, r, ks[1..], f);
      assert ks == [ks[0]] + ks[1..];
    }
  }

  /** What the areas give back, one after the other: the frames of the pages, then the record. */
  ghost function Returned(m: Mem, r: nat, q: seq<V.Area>, c: seq<nat>): seq<nat>
    requires |c| == |q|
  {
    if q == [] then [] else FramesAt(m, r, PageKeys(q[0].start, q[0].end)) + [c[0]] + Returned(m, r, q[1..], c[1..])
  }

  lemma {:induction false} FramesConcat(m: Mem, r: nat, a: seq<Key>, b: seq<Key>)
    ensures FramesAt(m, r, a + b) == FramesAt(m, r, a) + FramesAt(m, r, b)
  {
    hide At;
    if a == [] {
      assert a + b == b;
    } else {
      assert (a + b)[1..] == a[1..] + b;
      FramesConcat(m, r, a[1..], b);
    }
  }

  lemma {:induction false} ReturnedIff(m: Mem, r: nat, q: seq<V.Area>, c: seq<nat>, f: nat)
    requires |c| == |q|
    ensures f in Returned(m, r, q, c) <==> f in FramesAt(m, r, AreaKeys(q)) || f in c
  {
    hide PageKeys, FramesAt;
    if q == [] {
      NoFrames(m, r);
    } else {
      ReturnedIff(m, r, q[1..], c[1..], f);
      FramesConcat(m, r, PageKeys(q[0].start, q[0].end), AreaKeys(q[1..]));
      assert c == [c[0]] + c[1..];
    }
  }

  lemma NoFrames(m: Mem, r: nat)
    ensures FramesAt(m, r, []) == []
  {
  }

  lemma {:induction false} FramesOnce(m: Mem, R: set<nat>, kernel: nat, r: nat, ks: seq<Key>)
    requires VInv(m, R, kernel) && r in R && Distinct(ks) && forall i | 0 <= i < |ks| :: User(ks[i])
    ensures NoDup(FramesAt(m, r, ks))
    ensures forall f | f in FramesAt(m, r, ks) :: Taken(m, f) && !Off(m, R, f)
  {
    hide Wf, At, Plain;
    if ks != [] {
      FramesOnce(m, R, kernel, r, ks[1..]);
      if At(m, r, ks[0]).Page? {
        var f := At(m, r, ks[0]).frame;
        FramesAtIff(m, r, ks[1..], f);
        NoDupConcat([f], FramesAt(m, r, ks[1..]));
      } else {
        assert [] + FramesAt(m, r, ks[1..]) == FramesAt(m, r, ks[1..]);
      }
    }
  }

  /** Different pages, different frames. */
  lemma FramesApart(m: Mem, R: set<nat>, kernel: nat, r: nat, a: seq<Key>, b: seq<Key>, f: nat)
    requires VInv(m, R, kernel) && r in R && Distinct(a + b) && forall i | 0 <= i < |a + b| :: User((a + b)[i])
    requires f in FramesAt(m, r, a)
    ensures f !in FramesAt(m, r, b)
  {
    hide User, At;
    FramesConcat(m, r, a, b);
    FramesOnce(m, R, kernel, r, a + b);
    if f in FramesAt(m, r, b) { LaterNotEarlier(FramesAt(m, r, a), FramesAt(m, r, b), f); }
  }

  /** No frame comes back twice, is free already or is a table. */
  lemma {:induction false} ReturnedOnce(m: Mem, R: set<nat>, kernel: nat, r: nat, q: seq<V.Area>, c: seq<nat>)
    requires VInv(m, R, kernel) && r in R && AreasOk(q) && |c| == |q| && Held(m, R, c)
    ensures NoDup(Returned(m, r, q, c)) && forall f | f in Returned(m, r, q, c) :: Taken(m, f)
  {
    hide VInv, AreaOk, Off, FramesAt, PageKeys, User;
    if q != [] {
      AreasHead(q);
      HeldHead(m, R, c);
      AreaKeysUser(q);
      AreaKeysDistinct(q);
      ReturnedOnce(m, R, kernel, r, q[1..], c[1..]);
      var ks, rest := PageKeys(q[0].start, q[0].end), AreaKeys(q[1..]);
      assert AreaKeys(q) == ks + rest;
      HeadFrames(m, R, kernel, r, ks, rest, c[0]);
      var a, b := FramesAt(m, r, ks) + [c[0]], Returned(m, r, q[1..], c[1..]);
      forall f | f in a ensures f !in b && Taken(m, f) {
        ReturnedIff(m, r, q[1..], c[1..], f);
        if f in c[1..] { HeldOff(m, R, c[1..], f); }
      }
      NoDupConcat(a, b);
    }
  }

  lemma HeldOff(m: Mem, R: set<nat>, c: seq<nat>, f: nat)
    requires Held(m, R, c) && f in c
    ensures Off(m, R, f) && Taken(m, f)
  {
  }

  lemma HeadFrames(m: Mem, R: set<nat>, kernel: nat, r: nat, ks: seq<Key>, rest: seq<Key>, g: nat)
    requires VInv(m, R, kernel) && r in R && Distinct(ks + rest) && forall i | 0 <= i < |ks + rest| :: User((ks + rest)[i])
    requires Off(m, R, g)
    ensures NoDup(FramesAt(m, r, ks) + [g])
    ensures forall f | f in FramesAt(m, r, ks) + [g] ::
      Taken(m, f) && f !in FramesAt(m, r, rest) && (f != g ==> !Off(m, R, f))
  {
    hide VInv, At, User;
    forall i | 0 <= i < |ks| ensures User(ks[i]) { assert (ks + rest)[i] == ks[i]; }
    forall i | 0 <= i < |rest| ensures User(rest[i]) { assert (ks + rest)[|ks| + i] == rest[i]; }
    forall i, j | 0 <= i < j < |ks| ensures ks[i] != ks[j] { assert (ks + rest)[i] == ks[i] && (ks + rest)[j] == ks[j]; }
    forall i, j | 0 <= i < j < |rest| ensures rest[i] != rest[j] {
      assert (ks + rest)[|ks| + i] == rest[i] && (ks + rest)[|ks| + j] == rest[j];
    }
    FramesOnce(m, R, kernel, r, ks);
    FramesOnce(m, R, kernel, r, rest);
    NoDupConcat(FramesAt(m, r, ks), [g]);
    forall f | f in FramesAt(m, r, ks) ensures f !in FramesAt(m, r, rest) {
      FramesApart(m, R, kernel, r, ks, rest, f);
    }
  }

  lemma PoolGrows(m: Mem, fs: seq<nat>)
    requires PoolOk(m) && NoDup(fs) && forall f | f in fs :: Taken(m, f)
    ensures PoolOk(m.(pool := m.pool + fs))
  {
    var p := m.pool + fs;
    forall f | f in m.pool ensures f !in fs {}
    NoDupConcat(m.pool, fs);
    forall i | 0 <= i < |p| ensures p[i] !in m.tables {
      if i >= |m.pool| { assert p[i] == fs[i - |m.pool|] && fs[i - |m.pool|] in fs && Taken(m, p[i]); }
    }
  }

  /** The pool once the areas have given everything back. */
  ghost function Emptied(m: Mem, r: nat, p: Space): Mem
    requires |p.recs| == |p.areas|
  {
    m.(pool := m.pool + Returned(m, r, p.areas, p.recs))
  }

  lemma EmptiedOk(m: Mem, R: set<nat>, kernel: nat, r: nat, p: Space)
    requires VInv(m, R, kernel) && r in R && SpaceOk(m, R, p)
    ensures Wf(m) && IsRoot(m, r) && Wf(Emptied(m, r, p)) && PoolOk(Emptied(m, r, p))
    ensures Off(m, R, p.frame) && p.frame !in p.recs && Held(m, R, p.recs)
  {
    hide VInv, AreasOk, Returned, Off, TableOk;
    RootIn(m, R, kernel, r);
    HeldParts(m, R, p);
    ReturnedOnce(m, R, kernel, r, p.areas, p.recs);
    PoolGrows(m, Returned(m, r, p.areas, p.recs));
    PoolWf(m, Emptied(m, r, p));
  }

  /** `vmm_destroy_address_space`: pages and records area by area, then the tables, then the structure. */
  ghost function FreeSpace(s: Phys, r: nat, p: Space): Phys
    requires |p.recs| == |p.areas| && Wf(Emptied(s.m, r, p)) && IsRoot(s.m, r)
  {
    s.(m := Push(DestroyRoot(Emptied(s.m, r, p), r), p.frame))
  }

  /** The tables that stay translate as before. */
  lemma TablesGone(s: Phys, R: set<nat>, kernel: nat, r: nat, p: Space, t: nat, k: Key)
    requires VInv(s.m, R, kernel) && r in R && (t in R || t == kernel) && t != r
    requires |p.recs| == |p.areas| && Wf(Emptied(s.m, r, p)) && IsRoot(s.m, r) && PoolOk(Emptied(s.m, r, p))
    ensures var n := DestroyRoot(Emptied(s.m, r, p), r);
      && Wf(n) && IsRoot(n, t) && At(n, t, k) == At(s.m, t, k)
      && PathFlags(n, t, k) == PathFlags(s.m, t, k) && Huge(n, t, k) == Huge(s.m, t, k)
  {
    hide Wf, Trans, PathFlags, Huge, DestroyRoot, Returned;
    var m1 := Emptied(s.m, r, p);
    RootIn(s.m, R, kernel, t);
    PoolView(s.m, m1, t, k);
    DestroySpec(m1, r, t, k);
    RootStays(m1, r, t);
    DestroyKeeps(m1, r, t, k);
  }

  /** A frame that another space maps, or that is off and no record of this space, is not among those freed. */
  lemma StillTaken(s: Phys, R: set<nat>, kernel: nat, r: nat, p: Space, f: nat)
    requires VInv(s.m, R, kernel) && r in R && SpaceOk(s.m, R, p) && Wf(Emptied(s.m, r, p)) && IsRoot(s.m, r)
    requires Taken(s.m, f) && f !in p.recs
    requires forall k | User(k) && At(s.m, r, k).Page? :: At(s.m, r, k).frame != f
    ensures Taken(DestroyRoot(Emptied(s.m, r, p), r), f)
  {
    hide Wf, Plain, At, FramesAt, AreaKeys, Freed, Off, Returned;
    var ks := AreaKeys(p.areas);
    AreaKeysUser(p.areas);
    FramesAtIff(s.m, r, ks, f);
    ReturnedIff(s.m, r, p.areas, p.recs, f);
    FreedIff(Emptied(s.m, r, p), r, f);
  }

  lemma TablesInv(s: Phys, R: set<nat>, kernel: nat, r: nat, p: Space)
    requires VInv(s.m, R, kernel) && r in R && SpaceOk(s.m, R, p) && Wf(Emptied(s.m, r, p)) && IsRoot(s.m, r)
    ensures var n := DestroyRoot(Emptied(s.m, r, p), r);
      && VInv(n, R - {r}, kernel)
      && forall g | Off(s.m, R, g) && g !in p.recs :: Off(n, R - {r}, g)
  {
    hide Wf, Trans, PathFlags, Huge, DestroyRoot, Returned, AreasOk;
    var n := DestroyRoot(Emptied(s.m, r, p), r);
    EmptiedOk(s.m, R, kernel, r, p);
    TablesGone(s, R, kernel, r, p, kernel, Key(0, 0, 0, 0));
    forall t | t in R - {r} ensures Plain(n, t) {
      assert Plain(s.m, t);
      TablesGone(s, R, kernel, r, p, t, Key(0, 0, 0, 0));
      forall k | User(k) ensures PathFlags(n, t, k) == OPEN && !Huge(n, t, k) {
        TablesGone(s, R, kernel, r, p, t, k);
      }
    }
    forall t, k | t in R - {r} ensures At(n, t, k) == At(s.m, t, k) { TablesGone(s, R, kernel, r, p, t, k); }
    forall t, k | t in R - {r} && User(k) && At(n, t, k).Page? ensures Taken(n, At(n, t, k).frame) {
      var f := At(s.m, t, k).frame;
      assert Taken(s.m, f);
      if f in p.recs { HeldOff(s.m, R, p.recs, f); }
      StillTaken(s, R, kernel, r, p, f);
    }
    forall g | Off(s.m, R, g) && g !in p.recs ensures Off(n, R - {r}, g) {
      StillTaken(s, R, kernel, r, p, g);
    }
  }

  /** Destruction returns the space's frames, records, tables and structure and touches no other space. */
  lemma FreeSpaceSpec(s: Phys, R: set<nat>, kernel: nat, r: nat, p: Space, t: nat, k: Key)
    requires VInv(s.m, R, kernel) && r in R && SpaceOk(s.m, R, p) && Wf(Emptied(s.m, r, p)) && IsRoot(s.m, r)
    ensures var z := FreeSpace(s, r, p);
      && VInv(z.m, R - {r}, kernel) && z.data == s.data
      && (forall g | Off(s.m, R, g) && g !in Own(p) :: Off(z.m, R - {r}, g))
      && ((t in R || t == kernel) && t != r ==> At(z.m, t, k) == At(s.m, t, k))
  {
    hide VInv, Wf, At, Off, DestroyRoot, Returned, AreasOk;
    EmptiedOk(s.m, R, kernel, r, p);
    TablesInv(s, R, kernel, r, p);
    var n := DestroyRoot(Emptied(s.m, r, p), r);
    PushInv(n, R - {r}, kernel, p.frame);
    if (t in R || t == kernel) && t != r { TablesGone(s, R, kernel, r, p, t, k); }
  }

  /** `vmm_destroy_address_space` for the last reference. */
  ghost function DestroySpace(v: Vm, r: nat): Vm
    requires VmOk(v) && r in v.spaces
  {
    EmptiedOk(v.s.m, v.spaces.Keys, v.kernel, r, v.spaces[r]);
    v.(s := FreeSpace(v.s, r, v.spaces[r]), spaces := v.spaces - {r})
  }

  lemma DestroySpaceOk(v: Vm, r: nat)
    requires VmOk(v) && r in v.spaces
    ensures VmOk(DestroySpace(v, r))
  {
    hide VInv, FreeSpace, AreasOk, Off, Own;
    var R := v.spaces.Keys;
    var w := DestroySpace(v, r);
    AreasOf(v, r);
    EmptiedOk(v.s.m, R, v.kernel, r, v.spaces[r]);
    FreeSpaceSpec(v.s, R, v.kernel, r, v.spaces[r], v.kernel, Key(0, 0, 0, 0));
    assert w.spaces.Keys == R - {r};
    forall t | t in R - {r} ensures SpaceOk(w.s.m, R - {r}, v.spaces[t]) {
      assert SpaceOk(v.s.m, R, v.spaces[t]);
    }
  }

  lemma DestroyKeepsOthers(v: Vm, r: nat, t: nat, k: Key)
    requires VmOk(v) && r in v.spaces && t in v.spaces && t != r
    ensures var u := DestroySpace(v, r);
      t in u.spaces && u.spaces[t] == v.spaces[t] && At(u.s.m, t, k) == At(v.s.m, t, k) && u.s.data == v.s.data
  {
    hide VInv, FreeSpace, Off, At, Emptied;
    AreasOf(v, r);
    EmptiedOk(v.s.m, v.spaces.Keys, v.kernel, r, v.spaces[r]);
    FreeSpaceSpec(v.s, v.spaces.Keys, v.kernel, r, v.spaces[r], t, k);
  }
}
