/**
 The frames behind the kernel's own records (kernel/mm/vmm.c).  An area record and
 an address-space structure are whole frames from the same pool that serves user
 pages and page tables, since no cache is ever set up for them.

 Such a frame is `Off`: neither free, nor a page table, nor mapped in user memory.
 */
module VmRecords {

  import opened Common
  import opened Paging
  import opened PagingOps
  import opened VmPages

  ghost predicate Off(m: Mem, R: set<nat>, f: nat) {
    Taken(m, f) && forall r, k | r in R && User(k) && At(m, r, k).Page? :: At(m, r, k).frame != f
  }

  /** Different frames, none of them free, a table or mapped. */
  ghost predicate Held(m: Mem, R: set<nat>, c: seq<nat>) {
    NoDup(c) && forall i | 0 <= i < |c| :: Off(m, R, c[i])
  }

  /** Later steps leave frames that are off alone. */
  ghost predicate OffKept(m: Mem, n: Mem, R: set<nat>) {
    forall f | Off(m, R, f) :: Off(n, R, f)
  }

  // ------------------------------------------------------------ pool changes

  /** Only the pool changes, and no mapped frame comes into it. */
  lemma PoolInv(m: Mem, n: Mem, R: set<nat>, kernel: nat)
    requires VInv(m, R, kernel) && n.tables == m.tables && PoolOk(n)
    requires forall r, k | r in R && User(k) && At(m, r, k).Page? :: At(m, r, k).frame !in n.pool
    ensures VInv(n, R, kernel) && forall t, k | t in R || t == kernel :: At(n, t, k) == At(m, t, k)
  {
    hide Wf, Trans, PathFlags, Huge;
    PoolWf(m, n);
    forall t, k | t in R || t == kernel ensures At(n, t, k) == At(m, t, k) {
      RootIn(m, R, kernel, t);
      PoolView(m, n, t, k);
    }
    forall t | t in R ensures Plain(n, t) {
      assert Plain(m, t);
      forall k | User(k) ensures PathFlags(n, t, k) == OPEN && !Huge(n, t, k) { PoolView(m, n, t, k); }
    }
  }

  /** Taking a frame for a record: it is off from then on. */
  lemma PopInv(m: Mem, R: set<nat>, kernel: nat)
    requires VInv(m, R, kernel) && m.pool != []
    ensures VInv(Pop(m), R, kernel) && Off(Pop(m), R, m.pool[0]) && OffKept(m, Pop(m), R)
    ensures forall t, k | t in R || t == kernel :: At(Pop(m), t, k) == At(m, t, k)
  {
    hide Injective, TableOk, At, Plain;
    forall r, k | r in R && User(k) && At(m, r, k).Page? ensures At(m, r, k).frame !in Pop(m).pool && At(m, r, k).frame != m.pool[0] {
      assert Taken(m, At(m, r, k).frame);
    }
    PoolInv(m, Pop(m), R, kernel);
    assert m.pool[0] !in m.pool[1..];
  }

  /** Returning the frame of a record. */
  lemma PushInv(m: Mem, R: set<nat>, kernel: nat, f: nat)
    requires VInv(m, R, kernel) && Off(m, R, f)
    ensures VInv(Push(m, f), R, kernel) && forall g | Off(m, R, g) && g != f :: Off(Push(m, f), R, g)
    ensures forall t, k | t in R || t == kernel :: At(Push(m, f), t, k) == At(m, t, k)
  {
    hide Injective, TableOk, At, Plain;
    forall r, k | r in R && User(k) && At(m, r, k).Page? ensures At(m, r, k).frame !in Push(m, f).pool {
      assert Taken(m, At(m, r, k).frame);
    }
    PoolInv(m, Push(m, f), R, kernel);
  }

  // -------------------------------------------------------------- page steps

  lemma MapNewOff(s: Phys, R: set<nat>, kernel: nat, r: nat, k: Key, flags: Flags, c: Content)
    requires VInv(s.m, R, kernel) && r in R && User(k) && IsRoot(s.m, r)
    ensures OffKept(s.m, MapNew(s, r, k, flags, c).0.m, R)
  {
    hide Wf, Trans, PathFlags, Huge, MapNew, VInv;
    RootIn(s.m, R, kernel, r);
    MapNewFrames(s, r, k, flags, c);
    var (z, ok) := MapNew(s, r, k, flags, c);
    forall q, l | q in R
      ensures At(z.m, q, l) == if ok && q == r && l == k then Page(s.m.pool[0], flags) else At(s.m, q, l)
    {
      RootIn(s.m, R, kernel, q);
      MapNewPage(s, R, kernel, r, k, flags, c, q, l);
    }
  }

  lemma FreeAtOff(s: Phys, R: set<nat>, kernel: nat, r: nat, k: Key)
    requires VInv(s.m, R, kernel) && r in R && User(k) && IsRoot(s.m, r)
    ensures OffKept(s.m, FreeAt(s, r, k).m, R)
  {
    hide Wf, Trans, PathFlags, Huge, FreeAt, VInv;
    RootIn(s.m, R, kernel, r);
    var z := FreeAt(s, r, k);
    forall q, l | q in R ensures At(z.m, q, l) == if q == r && l == k then NoMap else At(s.m, q, l) {
      RootIn(s.m, R, kernel, q);
      FreeAtPage(s, R, kernel, r, k, q, l);
    }
    FreeAtPage(s, R, kernel, r, k, r, k);
  }

  // -------------------------------------------------------------- page loops

  lemma {:induction false} FreeKeysOff(s: Phys, R: set<nat>, kernel: nat, r: nat, ks: seq<Key>)
    requires VInv(s.m, R, kernel) && r in R && forall i | 0 <= i < |ks| :: User(ks[i])
    ensures OffKept(s.m, FreeKeys(s, R, kernel, r, ks).m, R)
    decreases |ks|
  {
    hide VInv, FreeAt, User, Off;
    if ks != [] {
      RootIn(s.m, R, kernel, r);
      FreeAtInv(s, R, kernel, r, ks[0]);
      FreeAtOff(s, R, kernel, r, ks[0]);
      FreeKeysOff(FreeAt(s, r, ks[0]), R, kernel, r, ks[1..]);
    }
  }

  /** There is a free frame after the loop if there was one before or some page of the list was mapped. */
  lemma {:induction false} FreeKeysPool(s: Phys, R: set<nat>, kernel: nat, r: nat, ks: seq<Key>)
    requires VInv(s.m, R, kernel) && r in R && forall i | 0 <= i < |ks| :: User(ks[i])
    ensures FreeKeys(s, R, kernel, r, ks).m.pool != [] <==>
      s.m.pool != [] || exists i :: 0 <= i < |ks| && At(s.m, r, ks[i]).Page?
    decreases |ks|
  {
    hide VInv, FreeAt, User, At;
    if ks != [] {
      var k := ks[0];
      RootIn(s.m, R, kernel, r);
      FreeAtInv(s, R, kernel, r, k);
      FreeAtPage(s, R, kernel, r, k, r, k);
      var z := FreeAt(s, r, k);
      FreeKeysPool(z, R, kernel, r, ks[1..]);
      forall l ensures At(z.m, r, l) == if l == k then NoMap else At(s.m, r, l) { FreeAtSame(s, R, kernel, r, k, l); }
      if i :| 0 <= i < |ks[1..]| && At(z.m, r, ks[1..][i]).Page? {
        assert At(s.m, r, ks[i + 1]).Page?;
      }
      if i :| 0 <= i < |ks| && At(s.m, r, ks[i]).Page? {
        if ks[i] != k { assert ks[1..][i - 1] == ks[i] && At(z.m, r, ks[1..][i - 1]).Page?; }
      }
    }
  }

  lemma FreeAtSame(s: Phys, R: set<nat>, kernel: nat, r: nat, k: Key, l: Key)
    requires VInv(s.m, R, kernel) && r in R && User(k) && IsRoot(s.m, r) && Wf(s.m)
    ensures At(FreeAt(s, r, k).m, r, l) == if l == k then NoMap else At(s.m, r, l)
  {
    hide Wf, Trans, FreeAt;
    FreeAtPage(s, R, kernel, r, k, r, l);
  }

  lemma {:induction false} MapZeroedOff(s: Phys, R: set<nat>, kernel: nat, r: nat, virt: nat, i: nat, n: nat, flags: Flags)
    requires VInv(s.m, R, kernel) && r in R && i <= n && forall p | i <= p < n :: User(KeyAt(virt, p))
    ensures OffKept(s.m, MapZeroed(s, R, kernel, r, virt, i, n, flags).0.m, R)
    decreases n - i
  {
    hide VInv, MapNew, User, KeyOf, Blank, Off;
    if i < n {
      RootIn(s.m, R, kernel, r);
      MapNewInv(s, R, kernel, r, KeyAt(virt, i), flags, Blank());
      MapNewOff(s, R, kernel, r, KeyAt(virt, i), flags, Blank());
      var (z, ok) := MapNew(s, r, KeyAt(virt, i), flags, Blank());
      if ok { MapZeroedOff(z, R, kernel, r, virt, i + 1, n, flags); }
    }
  }

  lemma {:induction false} CopyKeysOff(s: Phys, R: set<nat>, kernel: nat, src: nat, dst: nat, ks: seq<Key>)
    requires VInv(s.m, R, kernel) && src in R && dst in R && forall i | 0 <= i < |ks| :: User(ks[i])
    ensures OffKept(s.m, CopyKeys(s, R, kernel, src, dst, ks).0.m, R)
    decreases |ks|
  {
    hide VInv, MapNew, User, Off;
    if ks != [] {
      RootIn(s.m, R, kernel, dst);
      var x := At(s.m, src, ks[0]);
      if x.NoMap? {
        CopyKeysOff(s, R, kernel, src, dst, ks[1..]);
      } else {
        MapNewInv(s, R, kernel, dst, ks[0], x.flags, Read(s, x.frame));
        MapNewOff(s, R, kernel, dst, ks[0], x.flags, Read(s, x.frame));
        var (z, ok) := MapNew(s, dst, ks[0], x.flags, Read(s, x.frame));
        if ok { CopyKeysOff(z, R, kernel, src, dst, ks[1..]); }
      }
    }
  }
}
