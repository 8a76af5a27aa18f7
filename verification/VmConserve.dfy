/**
 Conservation of frames, step by step (kernel/mm/vmm.c over kernel/arch/x86_64/mm/paging.c):
 a frame that was free, a table or mapped is one of these afterwards.
 */
module VmConserve {

  import opened Paging
  import opened PagingOps
  import opened VmPages
  import opened VmRecords
  import opened Vmm
  import opened VmSpaces
  import V = Vma

  /** Exactly the same frames are off. */
  ghost predicate OffSame(m: Mem, n: Mem, R: set<nat>) {
    forall f :: Off(m, R, f) <==> Off(n, R, f)
  }

  // -------------------------------------------------------------- page steps

  /** Free, or a table. */
  predicate Stock(m: Mem, x: nat) {
    x in m.pool || x in m.tables
  }

  lemma {:induction false} EnsureStock(m: Mem, f: nat, k: Key, x: nat)
    requires Wf(m) && f in m.tables
    ensures Stock(Ensure(m, f, k).0, x) <==> Stock(m, x)
    decreases m.tables[f].level
  {
    hide Injective;
    assert TableOk(m, f);
    var T := m.tables[f];
    var i := IdxAt(k, T.level);
    if T.level == 1 {
    } else if !T.slots[i].present {
      if m.pool != [] {
        AddTableWf(m, f, i);
        var n := AddTable(m, f, i);
        assert Stock(n, x) <==> Stock(m, x) by { assert m.pool == [m.pool[0]] + m.pool[1..]; }
        EnsureStock(n, m.pool[0], k, x);
      }
    } else if Points(T, i) {
      EnsureStock(m, T.slots[i].frame, k, x);
    }
  }

  lemma MapStock(m: Mem, r: nat, k: Key, f: nat, flags: Flags, x: nat)
    requires Wf(m) && IsRoot(m, r)
    ensures Stock(Map(m, r, k, f, flags).0, x) <==> Stock(m, x)
  {
    hide Injective, SameView, Trans, PathFlags, Huge, Alias;
    EnsureSpec(m, r, k);
    EnsureStock(m, r, k, x);
    var e := Ensure(m, r, k);
    if e.1.Some? { LeafLevel(e.0, r, k); }
  }

  /** A new page takes its frame out of the stock. */
  lemma MapNewStock(s: Phys, r: nat, k: Key, flags: Flags, c: Content, x: nat)
    requires Wf(s.m) && IsRoot(s.m, r)
    ensures var (z, ok) := MapNew(s, r, k, flags, c);
      Stock(s.m, x) ==> Stock(z.m, x) || (ok && x == s.m.pool[0])
  {
    hide Wf, Map;
    if s.m.pool != [] {
      MapPools(s.m, r, k, s.m.pool[0], flags);
      MapStock(Pop(s.m), r, k, s.m.pool[0], flags, x);
      assert s.m.pool == [s.m.pool[0]] + s.m.pool[1..];
    }
  }

  lemma MapNewOn(s: Phys, R: set<nat>, kernel: nat, r: nat, k: Key, flags: Flags, c: Content)
    requires VInv(s.m, R, kernel) && r in R && User(k) && IsRoot(s.m, r) && At(s.m, r, k).NoMap?
    ensures OffSame(s.m, MapNew(s, r, k, flags, c).0.m, R)
  {
    hide Wf, Trans, PathFlags, Huge, MapNew, VInv, Taken;
    RootIn(s.m, R, kernel, r);
    MapNewOff(s, R, kernel, r, k, flags, c);
    MapNewFrames(s, r, k, flags, c);
    var (z, ok) := MapNew(s, r, k, flags, c);
    forall q, l | q in R
      ensures At(z.m, q, l) == if ok && q == r && l == k then Page(s.m.pool[0], flags) else At(s.m, q, l)
    {
      RootIn(s.m, R, kernel, q);
      MapNewPage(s, R, kernel, r, k, flags, c, q, l);
    }
    forall f | Off(z.m, R, f) ensures Off(s.m, R, f) {
      MapNewStock(s, r, k, flags, c, f);
      StockOff(s.m, z.m, f);
      assert ok ==> At(z.m, r, k).Page? && At(z.m, r, k).frame == s.m.pool[0];
      forall q, l | q in R && User(l) && At(s.m, q, l).Page? ensures At(s.m, q, l).frame != f {
        assert At(z.m, q, l) == At(s.m, q, l);
      }
    }
  }

  lemma StockOff(m: Mem, n: Mem, f: nat)
    ensures Taken(m, f) <==> !Stock(m, f)
    ensures Taken(n, f) <==> !Stock(n, f)
  {
  }

  lemma FreeAtOn(s: Phys, R: set<nat>, kernel: nat, r: nat, k: Key)
    requires VInv(s.m, R, kernel) && r in R && User(k) && IsRoot(s.m, r)
    ensures OffSame(s.m, FreeAt(s, r, k).m, R)
  {
    hide Wf, Trans, PathFlags, Huge, FreeAt, VInv;
    RootIn(s.m, R, kernel, r);
    FreeAtOff(s, R, kernel, r, k);
    var z := FreeAt(s, r, k);
    forall q, l | q in R ensures At(z.m, q, l) == if q == r && l == k then NoMap else At(s.m, q, l) {
      RootIn(s.m, R, kernel, q);
      FreeAtPage(s, R, kernel, r, k, q, l);
    }
    FreeAtPage(s, R, kernel, r, k, r, k);
    forall f | Off(z.m, R, f) ensures Off(s.m, R, f) {
      forall q, l | q in R && User(l) && At(s.m, q, l).Page? ensures At(s.m, q, l).frame != f {
        if q == r && l == k { assert At(s.m, r, k).frame in z.m.pool; } else { assert At(z.m, q, l) == At(s.m, q, l); }
      }
    }
  }

  // -------------------------------------------------------------- page loops

  lemma {:induction false} FreeKeysOn(s: Phys, R: set<nat>, kernel: nat, r: nat, ks: seq<Key>)
    requires VInv(s.m, R, kernel) && r in R && forall i | 0 <= i < |ks| :: User(ks[i])
    ensures OffSame(s.m, FreeKeys(s, R, kernel, r, ks).m, R)
    decreases |ks|
  {
    hide VInv, FreeAt, User, Off;
    if ks != [] {
      RootIn(s.m, R, kernel, r);
      FreeAtInv(s, R, kernel, r, ks[0]);
      FreeAtOn(s, R, kernel, r, ks[0]);
      FreeKeysOn(FreeAt(s, r, ks[0]), R, kernel, r, ks[1..]);
    }
  }

  lemma MapNewOthers(s: Phys, R: set<nat>, kernel: nat, r: nat, k: Key, flags: Flags, c: Content, l: Key)
    requires VInv(s.m, R, kernel) && r in R && User(k) && IsRoot(s.m, r) && Wf(s.m) && l != k
    ensures At(MapNew(s, r, k, flags, c).0.m, r, l) == At(s.m, r, l)
  {
    hide Wf, Trans, MapNew, PathFlags, Huge;
    MapNewPage(s, R, kernel, r, k, flags, c, r, l);
  }

  lemma {:induction false} MapZeroedOn(s: Phys, R: set<nat>, kernel: nat, r: nat, virt: nat, i: nat, n: nat, flags: Flags)
    requires VInv(s.m, R, kernel) && r in R && i <= n <= ENTRIES && forall p | i <= p < n :: User(KeyAt(virt, p))
    requires forall p | i <= p < n :: At(s.m, r, KeyAt(virt, p)).NoMap?
    ensures OffSame(s.m, MapZeroed(s, R, kernel, r, virt, i, n, flags).0.m, R)
    decreases n - i
  {
    hide VInv, MapNew, User, KeyOf, Blank, Off, At;
    if i < n {
      var k := KeyAt(virt, i);
      RootIn(s.m, R, kernel, r);
      MapNewInv(s, R, kernel, r, k, flags, Blank());
      MapNewOn(s, R, kernel, r, k, flags, Blank());
      var (z, ok) := MapNew(s, r, k, flags, Blank());
      if ok {
        forall p | i + 1 <= p < n ensures At(z.m, r, KeyAt(virt, p)).NoMap? {
          KeysDistinct(virt, i, p);
          MapNewOthers(s, R, kernel, r, k, flags, Blank(), KeyAt(virt, p));
        }
        MapZeroedOn(z, R, kernel, r, virt, i + 1, n, flags);
      }
    }
  }

  lemma {:induction false} CopyKeysOn(s: Phys, R: set<nat>, kernel: nat, src: nat, dst: nat, ks: seq<Key>)
    requires VInv(s.m, R, kernel) && src in R && dst in R && forall i | 0 <= i < |ks| :: User(ks[i])
    requires Distinct(ks) && forall i | 0 <= i < |ks| :: At(s.m, dst, ks[i]).NoMap?
    ensures OffSame(s.m, CopyKeys(s, R, kernel, src, dst, ks).0.m, R)
    decreases |ks|
  {
    hide VInv, MapNew, User, Off, At;
    if ks != [] {
      RootIn(s.m, R, kernel, dst);
      var x := At(s.m, src, ks[0]);
      assert forall i | 0 <= i < |ks[1..]| :: ks[1..][i] == ks[i + 1] && ks[i + 1] != ks[0];
      if x.NoMap? {
        CopyKeysOn(s, R, kernel, src, dst, ks[1..]);
      } else {
        var c := Read(s, x.frame);
        MapNewInv(s, R, kernel, dst, ks[0], x.flags, c);
        MapNewOn(s, R, kernel, dst, ks[0], x.flags, c);
        var (z, ok) := MapNew(s, dst, ks[0], x.flags, c);
        if ok {
          forall i | 0 <= i < |ks[1..]| ensures At(z.m, dst, ks[1..][i]).NoMap? {
            MapNewOthers(s, R, kernel, dst, ks[0], x.flags, c, ks[1..][i]);
          }
          CopyKeysOn(z, R, kernel, src, dst, ks[1..]);
        }
      }
    }
  }

  // ------------------------------------------------------------------ records

  /** Off, and behind none of these records. */
  ghost predicate Spare(m: Mem, R: set<nat>, c: seq<nat>, g: nat) {
    Off(m, R, g) && g !in c
  }

  lemma PopOff(m: Mem, R: set<nat>, kernel: nat, g: nat)
    requires VInv(m, R, kernel) && m.pool != []
    ensures Off(Pop(m), R, g) <==> Off(m, R, g) || g == m.pool[0]
  {
    hide At, Wf;
    PopInv(m, R, kernel);
    assert m.pool == [m.pool[0]] + m.pool[1..];
  }

  lemma PushOff(m: Mem, R: set<nat>, kernel: nat, f: nat, g: nat)
    requires VInv(m, R, kernel) && Off(m, R, f)
    ensures Off(Push(m, f), R, g) <==> Off(m, R, g) && g != f
  {
    hide At, Wf;
    PushInv(m, R, kernel, f);
  }

  lemma UnmapOneSpare(s: Phys, R: set<nat>, kernel: nat, r: nat, v: V.Area, f: nat, lo: nat, hi: nat, g: nat)
    requires VInv(s.m, R, kernel) && r in R && v.end <= USER_TOP && Off(s.m, R, f)
    ensures var (z, p, d) := UnmapOne(s, R, kernel, r, v, f, lo, hi); Spare(z.m, R, d, g) <==> Spare(s.m, R, [f], g)
  {
    hide VInv, FreeKeys, OverlapKeys, User, Off;
    OnePages(s, R, kernel, r, v, lo, hi);
    FreeKeysOn(s, R, kernel, r, OverlapKeys(v, lo, hi));
    var z := FreeKeys(s, R, kernel, r, OverlapKeys(v, lo, hi));
    PushOff(z.m, R, kernel, f, g);
    if z.m.pool != [] {
      PopOff(z.m, R, kernel, g);
      OffNotFree(z.m, R, z.m.pool[0]);
    }
  }

  /** An unmap frees what it stops using and takes only what is free. */
  lemma {:induction false} WalkSpare(s: Phys, R: set<nat>, kernel: nat, r: nat, q: seq<V.Area>, c: seq<nat>, lo: nat, hi: nat, g: nat)
    requires VInv(s.m, R, kernel) && r in R && AreasOk(q) && |c| == |q| && Held(s.m, R, c)
    ensures var (z, p, d) := UnmapWalk(s, R, kernel, r, q, c, lo, hi); Spare(z.m, R, d, g) <==> Spare(s.m, R, c, g)
    decreases |q|
  {
    hide VInv, AreaOk, Off, UnmapOne;
    if q != [] && q[0].start < hi {
      AreasHead(q);
      HeldHead(s.m, R, c);
      assert c == [c[0]] + c[1..];
      if q[0].end <= lo {
        WalkSpare(s, R, kernel, r, q[1..], c[1..], lo, hi, g);
      } else {
        UnmapOneInv(s, R, kernel, r, q[0], c[0], lo, hi);
        UnmapOneSpare(s, R, kernel, r, q[0], c[0], lo, hi, g);
        var x := UnmapOne(s, R, kernel, r, q[0], c[0], lo, hi).0;
        RestHeld(s.m, x.m, R, c);
        WalkSpare(x, R, kernel, r, q[1..], c[1..], lo, hi, g);
      }
    }
  }
}
