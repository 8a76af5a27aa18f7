/**
 How far populating a region gets, told from the state before: up to the first page
 for which the pages so far and the distinct tables they miss outnumber the free frames.
 */
module VmNeed {

  import opened Paging
  import opened PagingOps
  import opened PagingNeed
  import opened VmPages

  /** There are too few frames for pages `i..p` and page `p` itself. */
  ghost predicate Short(m: Mem, root: nat, virt: nat, i: nat, p: nat)
    requires Wf(m) && IsRoot(m, root) && i <= p
  {
    |m.pool| < p + 1 - i + |Need(m, root, virt, i, p + 1)|
  }

  /** The first page from `p` on that there are too few frames for, or `n`. */
  ghost function FirstShort(m: Mem, root: nat, virt: nat, i: nat, p: nat, n: nat): (j: nat)
    requires Wf(m) && IsRoot(m, root) && i <= p <= n
    ensures p <= j <= n && (j < n ==> Short(m, root, virt, i, j)) && forall q | p <= q < j :: !Short(m, root, virt, i, q)
    decreases n - p
  {
    if p == n then n else if Short(m, root, virt, i, p) then p else FirstShort(m, root, virt, i, p + 1, n)
  }

  lemma {:induction false} FirstShortSame(m: Mem, i: nat, z: Mem, j: nat, root: nat, virt: nat, p: nat, n: nat)
    requires Wf(m) && IsRoot(m, root) && Wf(z) && IsRoot(z, root) && i <= p <= n && j <= p
    requires forall q | p <= q :: Short(z, root, virt, j, q) <==> Short(m, root, virt, i, q)
    ensures FirstShort(z, root, virt, j, p, n) == FirstShort(m, root, virt, i, p, n)
    decreases n - p
  {
    hide Wf, Short;
    if p < n { FirstShortSame(m, i, z, j, root, virt, p + 1, n); }
  }

  /** A new page takes its own frame and one for each missing table. */
  lemma MapNewTakes(s: Phys, r: nat, k: Key, flags: Flags, c: Content, l: Key)
    requires Wf(s.m) && IsRoot(s.m, r) && !Huge(s.m, r, k)
    ensures var (z, ok) := MapNew(s, r, k, flags, c);
      && (ok <==> |s.m.pool| >= 1 + |Absent(s.m, r, k)|)
      && (ok ==> Wf(z.m) && IsRoot(z.m, r)
                 && Absent(z.m, r, l) == Absent(s.m, r, l) - Absent(s.m, r, k)
                 && |z.m.pool| == |s.m.pool| - 1 - |Absent(s.m, r, k)|)
  {
    hide Wf, Map, Huge, Missing;
    if s.m.pool != [] {
      var m := Pop(s.m);
      PoolPopped(s.m);
      PoolView(s.m, m, r, k);
      PoolView(s.m, m, r, l);
      MapAbsent(m, r, k, s.m.pool[0], flags, l);
    }
  }

  lemma PoolPopped(m: Mem)
    requires Wf(m) && m.pool != []
    ensures Wf(Pop(m)) && PoolOk(Pop(m))
  {
    PoolWf(m, Pop(m));
  }

  /** After page `i` has been given a frame, there are too few for a later page exactly when there were. */
  lemma ShortAfter(s: Phys, r: nat, virt: nat, i: nat, flags: Flags, c: Content, q: nat)
    requires Wf(s.m) && IsRoot(s.m, r) && !Huge(s.m, r, KeyAt(virt, i)) && i < q && MapNew(s, r, KeyAt(virt, i), flags, c).1
    ensures var z := MapNew(s, r, KeyAt(virt, i), flags, c).0.m;
      Wf(z) && IsRoot(z, r) && (Short(z, r, virt, i + 1, q) <==> Short(s.m, r, virt, i, q))
  {
    hide Wf, Huge, MapNew, Absent, Need;
    var k := KeyAt(virt, i);
    var z := MapNew(s, r, k, flags, c).0.m;
    MapNewTakes(s, r, k, flags, c, k);
    forall l ensures Absent(z, r, l) == Absent(s.m, r, l) - Absent(s.m, r, k) {
      MapNewTakes(s, r, k, flags, c, l);
    }
    NeedRest(s.m, z, r, virt, i, q + 1);
  }

  /** The populating loop stops at the first page that there are too few frames for. */
  lemma {:induction false} MapZeroedStops(s: Phys, R: set<nat>, kernel: nat, r: nat, virt: nat, i: nat, n: nat, flags: Flags)
    requires VInv(s.m, R, kernel) && r in R && i <= n && forall p | i <= p < n :: User(KeyAt(virt, p))
    ensures Wf(s.m) && IsRoot(s.m, r)
    ensures MapZeroed(s, R, kernel, r, virt, i, n, flags).1 == FirstShort(s.m, r, virt, i, i, n)
    decreases n - i
  {
    hide Wf, VInv, Huge, MapNew, Absent, User, KeyOf, Blank;
    RootIn(s.m, R, kernel, r);
    if i < n {
      var k := KeyAt(virt, i);
      NotHuge(s.m, R, kernel, r, k);
      MapNewInv(s, R, kernel, r, k, flags, Blank());
      MapNewTakes(s, r, k, flags, Blank(), k);
      var (z, ok) := MapNew(s, r, k, flags, Blank());
      assert Need(s.m, r, virt, i, i + 1) == Absent(s.m, r, k);
      if ok {
        forall q | i + 1 <= q ensures Short(z.m, r, virt, i + 1, q) <==> Short(s.m, r, virt, i, q) {
          ShortAfter(s, r, virt, i, flags, Blank(), q);
        }
        MapZeroedStops(z, R, kernel, r, virt, i + 1, n, flags);
        FirstShortSame(s.m, i, z.m, i + 1, r, virt, i + 1, n);
      }
    }
  }

  lemma NotHuge(m: Mem, R: set<nat>, kernel: nat, r: nat, k: Key)
    requires VInv(m, R, kernel) && r in R && User(k)
    ensures Wf(m) && IsRoot(m, r) && !Huge(m, r, k)
  {
  }

  lemma {:induction false} NeedGrows(m: Mem, root: nat, virt: nat, lo: nat, hi: nat, end: nat)
    requires Wf(m) && IsRoot(m, root) && hi <= end
    ensures Need(m, root, virt, lo, hi) <= Need(m, root, virt, lo, end)
    decreases hi - lo
  {
    hide Wf, Absent;
    if lo < hi { NeedGrows(m, root, virt, lo + 1, hi, end); }
  }

  /** The tables a page misses do not depend on the pool. */
  lemma {:induction false} NeedPopped(m: Mem, root: nat, virt: nat, lo: nat, hi: nat)
    requires Wf(m) && IsRoot(m, root) && m.pool != [] && Wf(Pop(m))
    ensures Need(Pop(m), root, virt, lo, hi) == Need(m, root, virt, lo, hi)
    decreases hi - lo
  {
    hide Wf, Missing;
    if lo < hi {
      NeedPopped(m, root, virt, lo + 1, hi);
      PoolPopped(m);
      PoolView(m, Pop(m), root, KeyAt(virt, lo));
    }
  }

  /** Too few frames for some page are too few for every later one. */
  lemma ShortGrows(m: Mem, root: nat, virt: nat, p: nat, q: nat)
    requires Wf(m) && IsRoot(m, root) && p <= q && Short(m, root, virt, 0, p)
    ensures Short(m, root, virt, 0, q)
  {
    hide Wf, Need;
    NeedGrows(m, root, virt, 0, p + 1, q + 1);
    var a, b := Need(m, root, virt, 0, p + 1), Need(m, root, virt, 0, q + 1);
    assert b == a + (b - a) && a * (b - a) == {};
  }

  /** With one frame gone for the record, all `n` pages can be filled exactly when the pool has a frame for each thing needed. */
  lemma LastShort(m: Mem, root: nat, virt: nat, n: nat)
    requires Wf(m) && m.pool != [] && IsRoot(m, root) && 0 < n && Wf(Pop(m)) && IsRoot(Pop(m), root)
    ensures FirstShort(Pop(m), root, virt, 0, 0, n) == n <==> |m.pool| >= 1 + n + |Need(m, root, virt, 0, n)|
  {
    hide Wf, Absent;
    var j := FirstShort(Pop(m), root, virt, 0, 0, n);
    NeedPopped(m, root, virt, 0, n);
    if j < n {
      ShortGrows(Pop(m), root, virt, j, n - 1);
    } else {
      assert !Short(Pop(m), root, virt, 0, n - 1);
    }
  }

  /** Populating to the end takes a frame for each page and each table that was missing. */
  lemma {:induction false} MapZeroedTakes(s: Phys, R: set<nat>, kernel: nat, r: nat, virt: nat, i: nat, n: nat, flags: Flags)
    requires VInv(s.m, R, kernel) && r in R && i <= n && forall p | i <= p < n :: User(KeyAt(virt, p))
    ensures Wf(s.m) && IsRoot(s.m, r)
    ensures var (z, j) := MapZeroed(s, R, kernel, r, virt, i, n, flags);
      j == n ==> |z.m.pool| == |s.m.pool| - (n - i) - |Need(s.m, r, virt, i, n)|
    decreases n - i
  {
    hide Wf, VInv, Huge, MapNew, Absent, User, KeyOf, Blank;
    RootIn(s.m, R, kernel, r);
    if i < n {
      var k := KeyAt(virt, i);
      NotHuge(s.m, R, kernel, r, k);
      MapNewInv(s, R, kernel, r, k, flags, Blank());
      MapNewTakes(s, r, k, flags, Blank(), k);
      var (z, ok) := MapNew(s, r, k, flags, Blank());
      if ok {
        MapZeroedTakes(z, R, kernel, r, virt, i + 1, n, flags);
        forall l ensures Absent(z.m, r, l) == Absent(s.m, r, l) - Absent(s.m, r, k) {
          MapNewTakes(s, r, k, flags, Blank(), l);
        }
        NeedRest(s.m, z.m, r, virt, i, n);
      }
    }
  }
}
