/**
 Mapping and unmapping against the flat page map: what each operation does to
 every translation of every address space.
 */
module PagingOps {

  import opened Common
  import opened Paging

  // ------------------------------------------------------------- single page

  ghost function Map(m: Mem, root: nat, k: Key, frame: nat, flags: Flags): (Mem, bool)
    requires Wf(m) && IsRoot(m, root)
  {
    EnsureSpec(m, root, k);
    var (n, pt) := Ensure(m, root, k);
    if pt.None? then (n, false)
    else LeafLevel(n, root, k); (SetEntry(n, pt.value, k.i1, Entry(true, false, frame, flags)), true)
  }

  ghost function Unmap(m: Mem, root: nat, k: Key): (Mem, bool)
    requires Wf(m) && IsRoot(m, root)
  {
    var pt := Leaf(m, root, k);
    if pt.None? then (m, false)
    else
      LeafLevel(m, root, k);
      if !m.tables[pt.value].slots[k.i1].present then (m, false)
      else (SetEntry(m, pt.value, k.i1, ABSENT), true)
  }

  /** The two address spaces use the same entry for this part of the key. */
  ghost predicate Alias(m: Mem, root: nat, r: nat, i: Idx)
    requires Wf(m) && IsRoot(m, root) && IsRoot(m, r)
  {
    assert TableOk(m, root) && TableOk(m, r);
    || r == root
    || (m.tables[root].slots[i].present && m.tables[r].slots[i].present
        && m.tables[root].slots[i].frame == m.tables[r].slots[i].frame)
  }

  /** Two address spaces can share a top-level entry in the kernel half only. */
  lemma AliasIsKernel(m: Mem, root: nat, r: nat, i: Idx)
    requires Wf(m) && IsRoot(m, root) && IsRoot(m, r) && Alias(m, root, r, i) && r != root
    ensures i >= 256
  {
    assert TableOk(m, root) && TableOk(m, r);
    assert Points(m.tables[root], i) && Points(m.tables[r], i);
  }

  lemma {:induction false} LeafAgrees(m: Mem, f: nat, k: Key, l: Key)
    requires Wf(m) && f in m.tables && Agree(k, l, m.tables[f].level)
    ensures Leaf(m, f, k) == Leaf(m, f, l)
    ensures Huge(m, f, k) == Huge(m, f, l)
    decreases m.tables[f].level
  {
    hide Injective;
    assert TableOk(m, f);
    var T := m.tables[f];
    if T.level > 1 && Points(T, IdxAt(k, T.level)) {
      LeafAgrees(m, T.slots[IdxAt(k, T.level)].frame, k, l);
    }
  }

  /** Two walks end at the same entry exactly when key and top-level entry agree. */
  lemma SameEntryIff(m: Mem, root: nat, k: Key, r: nat, l: Key)
    requires Wf(m) && IsRoot(m, root) && IsRoot(m, r) && Leaf(m, root, k).Some?
    ensures Leaf(m, r, l) == Leaf(m, root, k) && l.i1 == k.i1 <==> l == k && Alias(m, root, r, k.i4)
  {
    assert TableOk(m, root) && TableOk(m, r);
    if Leaf(m, r, l) == Leaf(m, root, k) && l.i1 == k.i1 {
      LeafUnique(m, root, k, r, l);
      if r != root {
        var c, d := m.tables[root].slots[k.i4].frame, m.tables[r].slots[l.i4].frame;
        assert Points(m.tables[root], k.i4) && Points(m.tables[r], l.i4);
        LeafUnique(m, c, k, d, l);
      }
    }
    if l == k && Alias(m, root, r, k.i4) && r != root {
      assert Points(m.tables[root], k.i4) && Points(m.tables[r], k.i4);
    }
  }

  lemma AliasSame(m: Mem, root: nat, r: nat, k: Key)
    requires Wf(m) && IsRoot(m, root) && IsRoot(m, r) && Alias(m, root, r, k.i4)
    ensures Trans(m, r, k) == NoMap <==> Trans(m, root, k) == NoMap
    ensures Huge(m, r, k) == Huge(m, root, k) && Leaf(m, r, k) == Leaf(m, root, k)
  {
    hide Injective;
    assert TableOk(m, root) && TableOk(m, r);
    if r != root {
      assert Points(m.tables[root], k.i4) && Points(m.tables[r], k.i4);
    }
  }

  /** Creating tables shares nothing new and un-shares nothing. */
  lemma EnsureAlias(m: Mem, root: nat, k: Key, r: nat, i: Idx)
    requires Wf(m) && IsRoot(m, root) && IsRoot(m, r)
    ensures var n := Ensure(m, root, k).0;
      Wf(n) && IsRoot(n, root) && IsRoot(n, r) && (Alias(n, root, r, i) <==> Alias(m, root, r, i))
  {
    EnsureSpec(m, root, k);
    assert TableOk(m, root) && TableOk(m, r);
    var T := m.tables[root];
    if !T.slots[k.i4].present {
      if m.pool != [] {
        AddTableWf(m, root, k.i4);
        AddTableOk(m, root, k.i4);
        EnsureGrows(AddTable(m, root, k.i4), m.pool[0], k, root);
        EnsureGrows(AddTable(m, root, k.i4), m.pool[0], k, r);
        if r != root && m.tables[r].slots[i].present { assert Points(m.tables[r], i); }
      }
    } else {
      assert Points(T, k.i4);
      EnsureGrows(m, T.slots[k.i4].frame, k, root);
      EnsureGrows(m, T.slots[k.i4].frame, k, r);
    }
  }

  /**
   `paging_map` refines an update of the flat map at one page: it changes the
   translation of that page, in this address space and in those that share the
   kernel entry, and no other; when it fails it changes none.  It fails exactly
   when a huge page is in the way or the missing tables outnumber the free frames.
   */
  lemma MapSpec(m: Mem, root: nat, k: Key, frame: nat, flags: Flags, r: nat, l: Key)
    requires Wf(m) && IsRoot(m, root) && IsRoot(m, r)
    ensures var (n, ok) := Map(m, root, k, frame, flags);
      && Wf(n) && IsRoot(n, root) && IsRoot(n, r)
      && (ok <==> !Huge(m, root, k) && Missing(m, root, k) <= |m.pool|)
      && Trans(n, r, l) == (if ok && l == k && Alias(m, root, r, k.i4)
                            then Page(frame, Meet(PathFlags(m, r, k), flags)) else Trans(m, r, l))
      && PathFlags(n, r, l) == PathFlags(m, r, l)
      && Huge(n, r, l) == Huge(m, r, l)
      && (forall i :: Alias(n, root, r, i) <==> Alias(m, root, r, i))
  {
    hide Injective, Trans, PathFlags, Huge;
    EnsureSpec(m, root, k);
    var (n, pt) := Ensure(m, root, k);
    forall i: Idx ensures Alias(n, root, r, i) <==> Alias(m, root, r, i) && IsRoot(n, r) {
      EnsureAlias(m, root, k, r, i);
    }
    EnsureAlias(m, root, k, r, 0);
    if pt.Some? {
      LeafLevel(n, root, k);
      var e := Entry(true, false, frame, flags);
      SetEntryTrans(n, pt.value, k.i1, e, r, l);
      SameEntryIff(n, root, k, r, l);
      assert TableOk(n, root) && TableOk(n, r);
      SetEntryWf(n, pt.value, k.i1, e);
    }
  }

  /** `paging_unmap` removes the page's translation, unless a huge page provides it, and no other. */
  lemma UnmapSpec(m: Mem, root: nat, k: Key, r: nat, l: Key)
    requires Wf(m) && IsRoot(m, root) && IsRoot(m, r)
    ensures var (n, ok) := Unmap(m, root, k);
      && Wf(n) && IsRoot(n, root) && IsRoot(n, r) && n.pool == m.pool
      && (ok <==> Trans(m, root, k) != NoMap && !Huge(m, root, k))
      && Trans(n, r, l) == (if l == k && Alias(m, root, r, k.i4) && !Huge(m, root, k) then NoMap else Trans(m, r, l))
      && PathFlags(n, r, l) == PathFlags(m, r, l)
      && Huge(n, r, l) == Huge(m, r, l)
      && (forall i :: Alias(n, root, r, i) <==> Alias(m, root, r, i))
  {
    hide Injective, Trans, PathFlags, Huge;
    TransIsLeaf(m, root, k);
    var pt := Leaf(m, root, k);
    if l == k && Alias(m, root, r, k.i4) { AliasSame(m, root, r, k); }
    if pt.Some? {
      LeafLevel(m, root, k);
      SetEntryTrans(m, pt.value, k.i1, ABSENT, r, l);
      SameEntryIff(m, root, k, r, l);
      assert TableOk(m, root) && TableOk(m, r);
      SetEntryWf(m, pt.value, k.i1, ABSENT);
    }
  }

  // ----------------------------------------------------------------- lookup

  /** `paging_get_phys`; None stands for its error value. */
  ghost function GetPhys(m: Mem, root: nat, virt: nat): Option<nat>
    requires Wf(m) && IsRoot(m, root)
  {
    var pt := Leaf(m, root, KeyOf(virt));
    if pt.None? then None
    else
      LeafLevel(m, root, KeyOf(virt));
      var e := m.tables[pt.value].slots[KeyOf(virt).i1];
      if e.present then Some(e.frame * PAGE_SIZE + virt % PAGE_SIZE) else None
  }

  /** The software lookup gives the processor's answer for everything but huge pages, which it denies. */
  lemma GetPhysSpec(m: Mem, root: nat, virt: nat)
    requires Wf(m) && IsRoot(m, root)
    ensures var x := Trans(m, root, KeyOf(virt));
      GetPhys(m, root, virt) == if x == NoMap || Huge(m, root, KeyOf(virt)) then None
                                else Some(x.frame * PAGE_SIZE + virt % PAGE_SIZE)
  {
    TransIsLeaf(m, root, KeyOf(virt));
  }

  // ----------------------------------------------------------------- ranges

  function KeyAt(virt: nat, p: nat): Key {
    KeyOf(virt + PAGE_SIZE * p)
  }

  /** The last page of `lo..hi` that has this key. */
  function LastHit(virt: nat, lo: nat, hi: nat, k: Key): (r: Option<nat>)
    ensures r.Some? ==> lo <= r.value < hi && KeyAt(virt, r.value) == k
    ensures r.None? ==> forall p | lo <= p < hi :: KeyAt(virt, p) != k
    decreases hi - lo
  {
    if lo >= hi then None
    else
      var r := LastHit(virt, lo + 1, hi, k);
      if r.Some? then r else if KeyAt(virt, lo) == k then Some(lo) else None
  }

  /** The pages from `virt` up to the end of the range, which wraps at 64 bits. */
  function PagesIn(virt: nat, size: nat): nat {
    var end := (virt + size) % U64;
    if end <= virt then 0 else (end - virt + PAGE_SIZE - 1) / PAGE_SIZE
  }

  /** The 64-bit loop counter after `i` turns. */
  function Counter(virt: nat, i: nat): nat {
    (virt + PAGE_SIZE * i) % U64
  }

  /** The test of a range loop after `i` turns. */
  predicate Going(virt: nat, size: nat, i: nat) {
    Counter(virt, i) < (virt + size) % U64
  }

  /** The loop makes `n` turns and ends. */
  ghost predicate EndsAfter(virt: nat, size: nat, n: nat) {
    !Going(virt, size, n) && forall i | 0 <= i < n :: Going(virt, size, i)
  }

  /** The counter wraps past the end of the range, which lies in its last page. */
  predicate RunsOn(virt: nat, size: nat) {
    PagesIn(virt, size) > 0 && virt + PAGE_SIZE * PagesIn(virt, size) >= U64
  }

  lemma CounterBelow(virt: nat, size: nat, i: nat)
    requires virt < U64 && !RunsOn(virt, size) && i <= PagesIn(virt, size)
    ensures Going(virt, size, i) <==> i < PagesIn(virt, size)
  {
    var n, end := PagesIn(virt, size), (virt + size) % U64;
    assert PAGE_SIZE * i <= PAGE_SIZE * n;
    assert Counter(virt, i) == virt + PAGE_SIZE * i;
  }

  /** Once the end lies in the last page of its residue, no value of the counter reaches it. */
  lemma CounterAlways(virt: nat, size: nat, i: nat)
    requires virt < U64 && RunsOn(virt, size)
    ensures Going(virt, size, i)
  {
    var n, end, c := PagesIn(virt, size), (virt + size) % U64, Counter(virt, i);
    var last := virt + PAGE_SIZE * (n - 1);
    assert last < end < U64 <= last + PAGE_SIZE;
    CounterResidue(virt, i);
    assert c % PAGE_SIZE == virt % PAGE_SIZE == last % PAGE_SIZE;
  }

  lemma CounterResidue(virt: nat, i: nat)
    ensures Counter(virt, i) % PAGE_SIZE == virt % PAGE_SIZE && Counter(virt, i) < U64
  {
    var x := virt + PAGE_SIZE * i;
    var q := x / U64;
    assert Counter(virt, i) == x - 0x10_0000_0000_0000 * PAGE_SIZE * q;
    SameResidue(virt, i, 0x10_0000_0000_0000 * q);
  }

  lemma SameResidue(virt: nat, i: nat, j: nat)
    requires virt + PAGE_SIZE * i >= PAGE_SIZE * j
    ensures (virt + PAGE_SIZE * i - PAGE_SIZE * j) % PAGE_SIZE == virt % PAGE_SIZE
  {
    var d := i - j;
    assert virt + PAGE_SIZE * i - PAGE_SIZE * j == virt + PAGE_SIZE * d;
  }

  /**
   A range loop visits exactly the pages of its range if and only if it has none or the
   address behind the last does not wrap; otherwise its test never fails.
   */
  lemma LoopEndsIff(virt: nat, size: nat)
    requires virt < U64
    ensures var n := PagesIn(virt, size);
      && (EndsAfter(virt, size, n) <==> n == 0 || virt + PAGE_SIZE * n < U64)
      && (!EndsAfter(virt, size, n) ==> forall i: nat :: Going(virt, size, i))
  {
    var n := PagesIn(virt, size);
    if RunsOn(virt, size) {
      forall i: nat ensures Going(virt, size, i) { CounterAlways(virt, size, i); }
    } else {
      forall i | 0 <= i <= n ensures Going(virt, size, i) <==> i < n { CounterBelow(virt, size, i); }
    }
  }

  /** The entry the counter selects repeats every 2^36 turns, whether or not the counter has wrapped. */
  lemma CounterKey(virt: nat, i: nat)
    ensures KeyOf(Counter(virt, i)) == KeyAt(virt, i) == KeyAt(virt, i + 0x10_0000_0000)
  {
    hide KeyOfPage;
    var x := virt + PAGE_SIZE * i;
    var y := x / PAGE_SIZE;
    var q := x / U64;
    assert Counter(virt, i) == x - PAGE_SIZE * (0x10_0000_0000_0000 * q);
    assert Counter(virt, i) / PAGE_SIZE == y - 0x10_0000_0000_0000 * q;
    KeyPeriod(Counter(virt, i) / PAGE_SIZE, 0x1_0000 * q);
    assert (virt + PAGE_SIZE * (i + 0x10_0000_0000)) / PAGE_SIZE == y + 0x10_0000_0000;
    KeyPeriod(y, 1);
  }

  lemma KeyPeriod(x: nat, d: nat)
    ensures KeyOfPage(x + 0x10_0000_0000 * d) == KeyOfPage(x)
  {
    var y := x + 0x10_0000_0000 * d;
    assert y / 512 == x / 512 + 0x800_0000 * d && y % 512 == x % 512;
    assert y / 512 / 512 == x / 512 / 512 + 0x4_0000 * d && y / 512 % 512 == x / 512 % 512;
    assert y / 512 / 512 / 512 == x / 512 / 512 / 512 + 512 * d && y / 512 / 512 % 512 == x / 512 / 512 % 512;
    assert y / 512 / 512 / 512 % 512 == x / 512 / 512 / 512 % 512;
  }

  /** The number of entries that a counter can select. */
  const ENTRIES: nat := 0x10_0000_0000

  /** The turns a range map makes if no page fails; one that runs on has been through every entry after 2^36. */
  function Limit(virt: nat, size: nat): nat {
    if RunsOn(virt, size) then ENTRIES else PagesIn(virt, size)
  }

  /** The turns of the rollback loop for a range map that failed in turn `j`: none if the counter has wrapped by then. */
  function Undone(virt: nat, j: nat): nat {
    if virt + PAGE_SIZE * j < U64 then j else 0
  }

  /** The rollback loop runs from `virt` while its counter is below the address that failed. */
  lemma UndoneIs(virt: nat, size: nat, j: nat)
    requires virt < U64 && j < Limit(virt, size)
    ensures !(Counter(virt, Undone(virt, j)) < Counter(virt, j))
    ensures forall i | 0 <= i < Undone(virt, j) :: Counter(virt, i) < Counter(virt, j)
  {
    if virt + PAGE_SIZE * j < U64 {
      forall i | 0 <= i < j ensures Counter(virt, i) < Counter(virt, j) {
        assert PAGE_SIZE * i < PAGE_SIZE * j;
      }
    } else {
      WrappedLow(virt, size, j);
    }
  }

  lemma WrappedLow(virt: nat, size: nat, j: nat)
    requires virt < U64 && j < Limit(virt, size) && virt + PAGE_SIZE * j >= U64
    ensures Counter(virt, j) <= virt && Counter(virt, 0) == virt && RunsOn(virt, size)
  {
    assert PAGE_SIZE * j <= PAGE_SIZE * ENTRIES;
    assert Counter(virt, j) == virt + PAGE_SIZE * j - U64;
  }

  /** The frame of page `i`: the entry holds 40 bits of it. */
  function FrameAt(frame: nat, i: nat): nat {
    (frame + i) % 0x100_0000_0000
  }

  /** Map pages `i..n` in turn; the index of the first that fails, or `n`. */
  ghost function MapFrom(m: Mem, root: nat, virt: nat, frame: nat, i: nat, n: nat, flags: Flags): (Mem, nat)
    requires Wf(m) && IsRoot(m, root) && i <= n
    decreases n - i
  {
    if i == n then (m, n)
    else
      MapSpec(m, root, KeyAt(virt, i), FrameAt(frame, i), flags, root, KeyAt(virt, i));
      var (m1, ok) := Map(m, root, KeyAt(virt, i), FrameAt(frame, i), flags);
      if ok then MapFrom(m1, root, virt, frame, i + 1, n, flags) else (m1, i)
  }

  ghost function UnmapFrom(m: Mem, root: nat, virt: nat, i: nat, n: nat): Mem
    requires Wf(m) && IsRoot(m, root) && i <= n
    decreases n - i
  {
    if i == n then m
    else
      UnmapSpec(m, root, KeyAt(virt, i), root, KeyAt(virt, i));
      UnmapFrom(Unmap(m, root, KeyAt(virt, i)).0, root, virt, i + 1, n)
  }

  lemma {:induction false} MapFromSpec(m: Mem, root: nat, virt: nat, frame: nat, i: nat, n: nat, flags: Flags, r: nat, l: Key)
    requires Wf(m) && IsRoot(m, root) && IsRoot(m, r) && i <= n
    ensures var (z, j) := MapFrom(m, root, virt, frame, i, n, flags);
      && Wf(z) && IsRoot(z, root) && IsRoot(z, r) && i <= j <= n
      && (var h := LastHit(virt, i, j, l);
          && Trans(z, r, l) == (if h.Some? && Alias(m, root, r, l.i4)
                                then Page(FrameAt(frame, h.value), Meet(PathFlags(m, r, l), flags)) else Trans(m, r, l))
          && (h.Some? ==> !Huge(m, root, l)))
      && PathFlags(z, r, l) == PathFlags(m, r, l)
      && Huge(z, root, l) == Huge(m, root, l)
      && (forall a :: Alias(z, root, r, a) <==> Alias(m, root, r, a))
    decreases n - i
  {
    hide Wf, Map, Trans, PathFlags, Huge, Alias;
    if i < n {
      MapSpec(m, root, KeyAt(virt, i), FrameAt(frame, i), flags, r, l);
      MapSpec(m, root, KeyAt(virt, i), FrameAt(frame, i), flags, root, l);
      var (m1, ok) := Map(m, root, KeyAt(virt, i), FrameAt(frame, i), flags);
      if ok { MapFromSpec(m1, root, virt, frame, i + 1, n, flags, r, l); }
    }
  }

  lemma {:induction false} UnmapFromSpec(m: Mem, root: nat, virt: nat, i: nat, n: nat, r: nat, l: Key)
    requires Wf(m) && IsRoot(m, root) && IsRoot(m, r) && i <= n
    ensures var z := UnmapFrom(m, root, virt, i, n);
      && Wf(z) && IsRoot(z, root) && IsRoot(z, r) && z.pool == m.pool
      && Trans(z, r, l) == (if LastHit(virt, i, n, l).Some? && Alias(m, root, r, l.i4) && !Huge(m, root, l)
                            then NoMap else Trans(m, r, l))
      && PathFlags(z, r, l) == PathFlags(m, r, l)
      && (forall a :: Alias(z, root, r, a) <==> Alias(m, root, r, a))
    decreases n - i
  {
    hide Wf, Unmap, Trans, PathFlags, Huge, Alias;
    if i < n {
      UnmapSpec(m, root, KeyAt(virt, i), r, l);
      UnmapSpec(m, root, KeyAt(virt, i), root, l);
      UnmapFromSpec(Unmap(m, root, KeyAt(virt, i)).0, root, virt, i + 1, n, r, l);
    }
  }

  /**
   `paging_map_range`: on failure the pages up to the one that failed are unmapped again,
   as the rollback loop counts them.  None if the loop never ends.
   */
  ghost function MapRange(m: Mem, root: nat, virt: nat, frame: nat, size: nat, flags: Flags): Option<(Mem, bool)>
    requires Wf(m) && IsRoot(m, root)
  {
    var n := Limit(virt, size);
    MapFromSpec(m, root, virt, frame, 0, n, flags, root, KeyOf(virt));
    var (z, j) := MapFrom(m, root, virt, frame, 0, n, flags);
    if j < n then Some((UnmapFrom(z, root, virt, 0, Undone(virt, j)), false))
    else if RunsOn(virt, size) then None
    else Some((z, true))
  }

  /** How far a range map gets. */
  ghost function Reached(m: Mem, root: nat, virt: nat, frame: nat, size: nat, flags: Flags): nat
    requires Wf(m) && IsRoot(m, root)
  {
    MapFrom(m, root, virt, frame, 0, Limit(virt, size), flags).1
  }

  /** Every translation after a range map, successful or not. */
  lemma MapRangeSpec(m: Mem, root: nat, virt: nat, frame: nat, size: nat, flags: Flags, r: nat, l: Key)
    requires Wf(m) && IsRoot(m, root) && IsRoot(m, r)
    ensures var o := MapRange(m, root, virt, frame, size, flags);
      var j := Reached(m, root, virt, frame, size, flags);
      && j <= Limit(virt, size) && (o.None? <==> RunsOn(virt, size) && j == ENTRIES)
      && (o.Some? ==>
           var (z, ok) := o.value;
           var h := LastHit(virt, 0, j, l);
           && Wf(z) && IsRoot(z, root) && IsRoot(z, r)
           && (ok <==> j == PagesIn(virt, size) && !RunsOn(virt, size))
           && Trans(z, r, l) == (if h.None? || !Alias(m, root, r, l.i4) then Trans(m, r, l)
                                 else if !ok && LastHit(virt, 0, Undone(virt, j), l).Some? then NoMap
                                 else Page(FrameAt(frame, h.value), Meet(PathFlags(m, r, l), flags))))
  {
    hide Wf, Trans, PathFlags, Huge, Alias, RunsOn, PagesIn, KeyOf;
    var n := Limit(virt, size);
    MapFromSpec(m, root, virt, frame, 0, n, flags, r, l);
    var (z, j) := MapFrom(m, root, virt, frame, 0, n, flags);
    if j < n { UnmapFromSpec(z, root, virt, 0, Undone(virt, j), r, l); }
  }

  /** Every address space translates as it did. */
  ghost predicate Restored(m: Mem, z: Mem)
    requires Wf(m) && Wf(z)
  {
    forall r, l | IsRoot(m, r) :: IsRoot(z, r) && Trans(z, r, l) == Trans(m, r, l)
  }

  /** None of the first `j` pages of a range is mapped. */
  ghost predicate Unmapped(m: Mem, root: nat, virt: nat, j: nat)
    requires Wf(m) && IsRoot(m, root)
  {
    forall p | 0 <= p < j :: Trans(m, root, KeyAt(virt, p)) == NoMap
  }

  /** Page `p` of a range is mapped to its frame already, with these flags. */
  ghost predicate Shown(m: Mem, r: nat, virt: nat, frame: nat, flags: Flags, p: nat)
    requires Wf(m) && IsRoot(m, r)
  {
    Trans(m, r, KeyAt(virt, p)) == Page(FrameAt(frame, p), Meet(PathFlags(m, r, KeyAt(virt, p)), flags))
  }

  /** The first `j` pages of a range are mapped just so in every address space that shares them. */
  ghost predicate Already(m: Mem, root: nat, virt: nat, frame: nat, flags: Flags, j: nat)
    requires Wf(m) && IsRoot(m, root)
  {
    forall r, p | IsRoot(m, r) && 0 <= p < j && Alias(m, root, r, KeyAt(virt, p).i4) :: Shown(m, r, virt, frame, flags, p)
  }

  /**
   A failed range map restores everything exactly when none of the pages it got to was
   mapped; but once the counter has wrapped nothing is taken back, and it restores
   everything exactly when those pages were mapped to the same frames before.
   */
  lemma RolledBackIff(m: Mem, root: nat, virt: nat, frame: nat, size: nat, flags: Flags)
    requires Wf(m) && IsRoot(m, root) && virt < U64
    requires var o := MapRange(m, root, virt, frame, size, flags); o.Some? && !o.value.1
    ensures var z := MapRange(m, root, virt, frame, size, flags).value.0;
      var j := Reached(m, root, virt, frame, size, flags);
      Wf(z) && (Restored(m, z) <==>
        if virt + PAGE_SIZE * j < U64 then Unmapped(m, root, virt, j) else Already(m, root, virt, frame, flags, j))
  {
    hide Wf, Trans, PathFlags, Huge, KeyOf, MapRange, Reached, RunsOn, PagesIn, Alias;
    var z := MapRange(m, root, virt, frame, size, flags).value.0;
    var j := Reached(m, root, virt, frame, size, flags);
    MapRangeSpec(m, root, virt, frame, size, flags, root, KeyOf(virt));
    if virt + PAGE_SIZE * j < U64 {
      TakenBackIff(m, z, root, virt, frame, size, flags);
    } else {
      WrappedLow(virt, size, j);
      LeftIff(m, z, root, virt, frame, size, flags);
    }
  }

  lemma TakenBackIff(m: Mem, z: Mem, root: nat, virt: nat, frame: nat, size: nat, flags: Flags)
    requires Wf(m) && IsRoot(m, root) && Wf(z) && MapRange(m, root, virt, frame, size, flags) == Some((z, false))
    requires virt + PAGE_SIZE * Reached(m, root, virt, frame, size, flags) < U64
    ensures Restored(m, z) <==> Unmapped(m, root, virt, Reached(m, root, virt, frame, size, flags))
  {
    hide Wf, Trans, PathFlags, Huge, KeyOf, MapRange, Reached, RunsOn, PagesIn, Alias;
    var j := Reached(m, root, virt, frame, size, flags);
    forall r, l | IsRoot(m, r)
      ensures IsRoot(z, r) && Trans(z, r, l) ==
        if LastHit(virt, 0, j, l).None? || !Alias(m, root, r, l.i4) then Trans(m, r, l) else NoMap
    {
      MapRangeSpec(m, root, virt, frame, size, flags, r, l);
    }
    if Restored(m, z) {
      forall p | 0 <= p < j ensures Trans(m, root, KeyAt(virt, p)) == NoMap {
        assert LastHit(virt, 0, j, KeyAt(virt, p)).Some?;
        AliasSelf(m, root, KeyAt(virt, p).i4);
      }
    }
    if Unmapped(m, root, virt, j) {
      forall r | IsRoot(m, r) ensures IsRoot(z, r) { MapRangeSpec(m, root, virt, frame, size, flags, r, KeyOf(virt)); }
      forall r, l | IsRoot(m, r) ensures IsRoot(z, r) && Trans(z, r, l) == Trans(m, r, l) {
        MapRangeSpec(m, root, virt, frame, size, flags, r, l);
        if LastHit(virt, 0, j, l).Some? && Alias(m, root, r, l.i4) { AliasSame(m, root, r, l); }
      }
    }
  }

  lemma AliasSelf(m: Mem, root: nat, i: Idx)
    requires Wf(m) && IsRoot(m, root)
    ensures Alias(m, root, root, i)
  {
  }

  /** Nothing was taken back. */
  lemma LeftIff(m: Mem, z: Mem, root: nat, virt: nat, frame: nat, size: nat, flags: Flags)
    requires Wf(m) && IsRoot(m, root) && Wf(z) && MapRange(m, root, virt, frame, size, flags) == Some((z, false))
    requires RunsOn(virt, size) && virt + PAGE_SIZE * Reached(m, root, virt, frame, size, flags) >= U64
    ensures Restored(m, z) <==> Already(m, root, virt, frame, flags, Reached(m, root, virt, frame, size, flags))
  {
    hide Wf, Trans, PathFlags, Huge, KeyOf, MapRange, Reached, RunsOn, PagesIn, Alias;
    var j := Reached(m, root, virt, frame, size, flags);
    forall r, l | IsRoot(m, r)
      ensures IsRoot(z, r)
      ensures var h := LastHit(virt, 0, j, l);
        Trans(z, r, l) == if h.None? || !Alias(m, root, r, l.i4) then Trans(m, r, l)
                          else Page(FrameAt(frame, h.value), Meet(PathFlags(m, r, l), flags))
    {
      MapRangeSpec(m, root, virt, frame, size, flags, r, l);
    }
    MapRangeSpec(m, root, virt, frame, size, flags, root, KeyOf(virt));
    if Restored(m, z) {
      forall r, p | IsRoot(m, r) && 0 <= p < j && Alias(m, root, r, KeyAt(virt, p).i4) ensures Shown(m, r, virt, frame, flags, p) {
        OnlyHit(virt, j, p);
      }
    }
    if Already(m, root, virt, frame, flags, j) {
      forall r | IsRoot(m, r) ensures IsRoot(z, r) { MapRangeSpec(m, root, virt, frame, size, flags, r, KeyOf(virt)); }
      forall r, l | IsRoot(m, r) ensures IsRoot(z, r) && Trans(z, r, l) == Trans(m, r, l) {
        MapRangeSpec(m, root, virt, frame, size, flags, r, l);
        var h := LastHit(virt, 0, j, l);
        if h.Some? && Alias(m, root, r, l.i4) { assert Shown(m, r, virt, frame, flags, h.value); }
      }
    }
  }

  /** Within 2^36 pages the last page with an entry is the only one. */
  lemma OnlyHit(virt: nat, j: nat, p: nat)
    requires p < j <= ENTRIES
    ensures LastHit(virt, 0, j, KeyAt(virt, p)) == Some(p)
  {
    hide KeyOf;
    var h := LastHit(virt, 0, j, KeyAt(virt, p));
    assert h.Some?;
    if h.value < p { KeysDistinct(virt, h.value, p); }
    if p < h.value { KeysDistinct(virt, p, h.value); }
  }

  /** `paging_unmap_range`; None if the loop never ends. */
  ghost function UnmapRange(m: Mem, root: nat, virt: nat, size: nat): Option<Mem>
    requires Wf(m) && IsRoot(m, root)
  {
    if RunsOn(virt, size) then None else Some(UnmapFrom(m, root, virt, 0, PagesIn(virt, size)))
  }

  function KeyNumber(k: Key): nat {
    k.i4 * 0x800_0000 + k.i3 * 0x4_0000 + k.i2 * 0x200 + k.i1
  }

  /** The key is the page number's low 36 bits. */
  lemma KeyValue(x: nat)
    ensures KeyNumber(KeyOfPage(x)) == x % 0x10_0000_0000
  {
    var a := x / 512;
    var b := a / 512;
    var c := b / 512;
    var d := c / 512;
    var low := c % 512 * 0x800_0000 + b % 512 * 0x4_0000 + a % 512 * 0x200 + x % 512;
    assert x == d * 0x10_0000_0000 + low;
    Remainder(x, d, low);
  }

  lemma Remainder(x: nat, d: nat, low: nat)
    requires x == d * 0x10_0000_0000 + low && low < 0x10_0000_0000
    ensures x % 0x10_0000_0000 == low
  {
  }

  /** Within 2^36 pages no two pages of a range share an entry. */
  lemma KeysDistinct(virt: nat, p: nat, q: nat)
    requires p < q < p + 0x10_0000_0000
    ensures KeyAt(virt, p) != KeyAt(virt, q)
  {
    hide KeyOfPage, KeyNumber;
    var x := virt / PAGE_SIZE;
    assert (virt + PAGE_SIZE * p) / PAGE_SIZE == x + p && (virt + PAGE_SIZE * q) / PAGE_SIZE == x + q;
    KeyValue(x + p);
    KeyValue(x + q);
    assert (x + p) % 0x10_0000_0000 != (x + q) % 0x10_0000_0000;
  }

  /** A successful range map of up to 2^48 bytes maps page `p` to frame number `frame + p`, of which the entry holds 40 bits. */
  lemma MappedRange(m: Mem, root: nat, virt: nat, frame: nat, size: nat, flags: Flags, p: nat)
    requires Wf(m) && IsRoot(m, root) && p < PagesIn(virt, size) <= ENTRIES
    requires var o := MapRange(m, root, virt, frame, size, flags); o.Some? && o.value.1
    ensures var z := MapRange(m, root, virt, frame, size, flags).value.0;
      Wf(z) && IsRoot(z, root)
      && Trans(z, root, KeyAt(virt, p)) == Page(FrameAt(frame, p), Meet(PathFlags(m, root, KeyAt(virt, p)), flags))
  {
    hide Wf, Trans, PathFlags, Huge, KeyOf, RunsOn, PagesIn, MapFrom;
    MapRangeSpec(m, root, virt, frame, size, flags, root, KeyAt(virt, p));
    OnlyHit(virt, PagesIn(virt, size), p);
  }
}
