/**
 `kmalloc`, `kfree` and `ksize` (kernel/mm/slab.c) over the slab caches and the page
 allocator.

 Which allocator a pointer came from, and with which order, is read from the marks of
 its page record: the slab mark is set here, the compound marks by the page allocator.
 `asked` is history: the request behind each live pointer.
 */
module Kmalloc {

  import opened Common
  import opened Bits
  import opened Slab
  import opened PageLedger
  import P = PmmRuns

  const MAX_SLAB: nat := 2048
  const U64: nat := 0x1_0000_0000_0000_0000

  datatype Kernel = Kernel(h: Heap, y: P.Ledger, asked: map<nat, nat>)

  /** The nine size classes, 8 to 2048 bytes, each aligned to its size. */
  function Classes(): seq<Cache> {
    [Cache(8, Stride(8, 8)), Cache(16, Stride(16, 16)), Cache(32, Stride(32, 32)), Cache(64, Stride(64, 64)),
     Cache(128, Stride(128, 128)), Cache(256, Stride(256, 256)), Cache(512, Stride(512, 512)),
     Cache(1024, Stride(1024, 1024)), Cache(2048, Stride(2048, 2048))]
  }

  /** `kmalloc_cache_for_size`. */
  function ClassFor(size: nat): (c: nat)
    requires size <= MAX_SLAB
    ensures c < 9 && size <= Classes()[c].size && (c > 0 ==> Classes()[c - 1].size < size)
  {
    if size <= 8 then 0 else if size <= 16 then 1 else if size <= 32 then 2 else if size <= 64 then 3
    else if size <= 128 then 4 else if size <= 256 then 5 else if size <= 512 then 6
    else if size <= 1024 then 7 else 8
  }

  // ------------------------------------------------------------- block orders

  /** The number of pages, computed in 64 bits: the sum may wrap. */
  function PagesFor(size: nat): nat {
    ((size + PAGE - 1) % U64) / PAGE
  }

  /** `1U << order` on this machine: the count is taken modulo 32. */
  function Shl1(order: nat): nat {
    Pow2(order % 32)
  }

  /** The first order from `o` on whose block holds `n` pages, as far as 32 bits go. */
  function OrderFrom(n: nat, o: nat): (r: Option<nat>)
    requires o <= 32
    ensures r.Some? ==> o <= r.value < 32 && Pow2(r.value) >= n && (r.value > o ==> Pow2(r.value - 1) < n)
    ensures r.None? ==> forall j | o <= j < 32 :: Pow2(j) < n
    decreases 32 - o
  {
    if o == 32 then None else if Pow2(o) >= n then Some(o) else OrderFrom(n, o + 1)
  }

  function LargeOrder(size: nat): Option<nat> {
    OrderFrom(PagesFor(size), 0)
  }

  lemma {:induction false} Pow2Grows(o: nat)
    ensures Pow2(o + 1) > Pow2(o) > 0
  {
    if o > 0 { Pow2Grows(o - 1); }
  }

  lemma {:induction false} Pow2Mono(a: nat, b: nat)
    requires a <= b
    ensures Pow2(a) <= Pow2(b)
    decreases b - a
  {
    if a < b {
      Pow2Grows(a);
      Pow2Mono(a + 1, b);
    }
  }

  lemma Pow2Of31()
    ensures Pow2(31) == 0x8000_0000
  {
    assert Pow2(8) == 256;
    assert Pow2(16) == 65536;
    assert Pow2(24) == 0x100_0000;
  }

  lemma SearchEndsIff(n: nat)
    ensures (exists o: nat :: Shl1(o) >= n) <==> OrderFrom(n, 0).Some?
    ensures OrderFrom(n, 0).Some? <==> n <= 0x8000_0000
  {
    hide Pow2;
    var r := OrderFrom(n, 0);
    Pow2Of31();
    if r.Some? {
      assert Shl1(r.value) >= n;
      Pow2Mono(r.value, 31);
    } else {
      assert Pow2(31) < n;
      forall o: nat ensures Shl1(o) < n { assert Pow2(o % 32) < n; }
    }
  }

  /** The loop that looks for the order ends if and only if at most 2^31 pages are wanted. */
  lemma LoopEndsIff(size: nat)
    ensures (exists o: nat :: Shl1(o) >= PagesFor(size)) <==> LargeOrder(size).Some?
    ensures LargeOrder(size).Some? <==> PagesFor(size) <= 0x8000_0000
  {
    hide PagesFor, OrderFrom;
    SearchEndsIff(PagesFor(size));
  }

  /** A block found that way covers its request if and only if the sum does not wrap. */
  lemma LargeCoversIff(size: nat)
    requires 0 < size < U64 && LargeOrder(size).Some?
    ensures Pow2(LargeOrder(size).value) * PAGE >= size <==> size <= U64 - PAGE
    ensures size > U64 - PAGE ==> LargeOrder(size) == Some(0)
  {
    var n, o := PagesFor(size), LargeOrder(size).value;
    if size <= U64 - PAGE {
      assert n * PAGE >= size;
      MulMono(n, Pow2(o), PAGE);
    } else {
      assert n == 0;
      assert Pow2(0) == 1;
    }
  }

  // --------------------------------------------------------------- invariant

  /** `ksize`, from the marks of the pointer's page. */
  function Ksize(k: Kernel, ptr: nat): nat {
    var p := PageOf(ptr);
    if p >= |k.y.m.pages| then PAGE
    else if k.y.m.pages[p].slab then
      if p in k.h.slabs && k.h.slabs[p].cache < |k.h.caches| then k.h.caches[k.h.slabs[p].cache].size else 0
    else Pow2(MarkedOrder(k.y.m.pages[p])) * PAGE
  }

  /** The slab mark is on exactly the pages that are slabs, and those are single pages handed out. */
  ghost predicate SlabPages(k: Kernel) {
    && (forall p: nat :: p in k.h.slabs <==> p < |k.y.m.pages| && k.y.m.pages[p].slab)
    && (forall p: nat | p in k.h.slabs :: p in k.y.live && k.y.live[p] == 0)
  }

  /** `x` is the base of a block from the page allocator that serves a request of `size` bytes. */
  predicate IsLarge(k: Kernel, x: nat, size: nat) {
    && x % PAGE == 0 && PageOf(x) in k.y.live && PageOf(x) !in k.h.slabs
    && MAX_SLAB < size < U64 && LargeOrder(size) == Some(k.y.live[PageOf(x)])
  }

  /** `x` is a slab object that serves a request of `size` bytes. */
  predicate IsSmall(k: Kernel, x: nat, size: nat) {
    && x in k.h.live && PageOf(x) in k.h.slabs && k.h.slabs[PageOf(x)].cache < |k.h.caches|
    && size <= k.h.caches[k.h.slabs[PageOf(x)].cache].size
  }

  ghost predicate KInv(k: Kernel) {
    && Inv(k.h) && k.h.caches == Classes() && P.LedgerInv(k.y) && SlabPages(k)
    && (forall x | x in k.h.live :: x in k.asked)
    && (forall x | x in k.asked :: if x in k.h.live then IsSmall(k, x, k.asked[x]) else IsLarge(k, x, k.asked[x]))
  }

  // -------------------------------------------------------------- operations

  /** `Never`: the search for an order does not end. */
  datatype Ret = Never | Null | Ptr(x: nat)

  ghost function KmallocSlab(k: Kernel, size: nat): (Kernel, Ret)
    requires KInv(k) && 0 < size <= MAX_SLAB
  {
    var c := ClassFor(size);
    if k.h.lists[c].partial != [] || k.h.lists[c].empty != [] then
      var (g, r) := SlabAlloc(k.h, c, None);
      AllocSpec(k.h, c, None);
      (k.(h := g, asked := k.asked[r.value := size]), Ptr(r.value))
    else
      var (y, page) := Get(k.y, 0);
      if page.None? then (k.(y := y), Null)
      else
        GetSpec(k.y, 0);
        var (g, r) := SlabAlloc(k.h, c, page);
        AllocSpec(k.h, c, page);
        (Kernel(g, MarkSlab(y, page.value), k.asked[r.value := size]), Ptr(r.value))
  }

  ghost function KmallocLarge(k: Kernel, size: nat): (Kernel, Ret)
    requires KInv(k) && size > MAX_SLAB
  {
    var order := LargeOrder(size);
    if order.None? then (k, Never)
    else
      var (y, page) := Get(k.y, order.value);
      if page.None? then (k.(y := y), Null)
      else (Kernel(k.h, y, k.asked[page.value * PAGE := size]), Ptr(page.value * PAGE))
  }

  ghost function Kmalloc(k: Kernel, size: nat): (Kernel, Ret)
    requires KInv(k)
  {
    if size == 0 then (k, Null) else if size > MAX_SLAB then KmallocLarge(k, size) else KmallocSlab(k, size)
  }

  datatype Freed = Object(cache: nat, x: nat) | Block(page: nat, order: nat) | Nothing

  /** `kfree` of a live pointer: the marks of its page say where it goes. */
  ghost function Kfree(k: Kernel, ptr: nat): (Kernel, Freed)
    requires KInv(k) && ptr in k.asked
  {
    var p := PageOf(ptr);
    LivePage(k, ptr);
    if p >= |k.y.m.pages| then (k, Nothing)
    else if k.y.m.pages[p].slab then
      var c := k.h.slabs[p].cache;
      (k.(h := SlabFree(k.h, c, ptr), asked := k.asked - {ptr}), Object(c, ptr))
    else if ptr % PAGE != 0 then (k, Nothing)
    else
      var order := MarkedOrder(k.y.m.pages[p]);
      (k.(y := Give(k.y, p, order), asked := k.asked - {ptr}), Block(p, order))
  }

  // ------------------------------------------------------------------ lemmas

  /** A live pointer's page has been handed out; if it is marked as a slab it has a header. */
  lemma LivePage(k: Kernel, x: nat)
    requires KInv(k) && x in k.asked
    ensures var p := PageOf(x);
      && p < |k.y.m.pages| && p in k.y.live && (k.y.m.pages[p].slab <==> x in k.h.live)
      && (x in k.h.live ==> p in k.h.slabs && p in k.h.chains && k.h.slabs[p].cache < |k.h.caches| == |k.h.lists|)
      && MarkedOrder(k.y.m.pages[p]) == k.y.live[p]
  {
    hide ListOk, P.LedgerInv, IsLiveObj;
    assert if x in k.h.live then IsSmall(k, x, k.asked[x]) else IsLarge(k, x, k.asked[x]);
    if x in k.h.live { assert SlabOk(k.h, PageOf(x)); }
    MarksTellOrder(k.y, PageOf(x));
  }

  /** What the slab allocator changes, seen from above: one object more, and at most the given page. */
  lemma AllocPages(h: Heap, c: nat, page: Option<nat>, q: nat)
    requires Inv(h) && c < |h.caches| && (page.Some? ==> page.value !in h.slabs)
    ensures var (z, r) := SlabAlloc(h, c, page);
      && (q in h.slabs ==> q in z.slabs && z.slabs[q].cache == h.slabs[q].cache)
      && (h.lists[c].partial != [] || h.lists[c].empty != [] ==> (q in z.slabs <==> q in h.slabs))
      && (h.lists[c].partial == [] && h.lists[c].empty == [] && page.Some? ==> (q in z.slabs <==> q in h.slabs || q == page.value))
  {
    hide SlabOk, ListOk, IsObj, Relist, BuildLinks;
    var l := h.lists[c];
    if l.partial != [] {
      Takeable(h, c, Partial);
    } else if l.empty != [] {
      Takeable(h, c, Empty);
    } else if page.Some? {
      NewSlabInv(h, c, page.value);
      Takeable(NewSlab(h, c, page.value), c, Empty);
    }
  }

  lemma NineClasses(size: nat)
    requires size <= MAX_SLAB
    ensures |Classes()| == 9 && ClassFor(size) < 9 && Classes()[ClassFor(size)].size >= size
  {
  }

  /** What a slab allocation leaves of the other live pointers. */
  lemma OthersStay(k: Kernel, z: Kernel, c: nat, page: Option<nat>)
    requires KInv(k) && c < |k.h.caches| && (page.Some? ==> page.value !in k.h.slabs && page.value !in k.y.live)
    requires z.h == SlabAlloc(k.h, c, page).0 && (page.None? ==> k.h.lists[c].partial != [] || k.h.lists[c].empty != [])
    requires page.Some? ==> k.h.lists[c].partial == [] && k.h.lists[c].empty == []
    requires forall p | p in k.y.live :: p in z.y.live && z.y.live[p] == k.y.live[p]
    ensures forall x | x in k.asked :: if x in k.h.live then IsSmall(z, x, k.asked[x]) else IsLarge(z, x, k.asked[x])
  {
    hide Inv, SlabAlloc, P.LedgerInv;
    AllocSpec(k.h, c, page);
    forall x | x in k.asked ensures if x in k.h.live then IsSmall(z, x, k.asked[x]) else IsLarge(z, x, k.asked[x]) {
      assert if x in k.h.live then IsSmall(k, x, k.asked[x]) else IsLarge(k, x, k.asked[x]);
      AllocPages(k.h, c, page, PageOf(x));
    }
  }

  /** A request served by a slab: a new pointer of at least the size asked for. */
  lemma KmallocSlabSpec(k: Kernel, size: nat)
    requires KInv(k) && 0 < size <= MAX_SLAB
    ensures var (z, r) := KmallocSlab(k, size);
      && KInv(z) && !r.Never? && (r.Null? ==> z == k)
      && (r.Ptr? ==> r.x !in k.asked && r.x in z.h.live && z.asked == k.asked[r.x := size])
  {
    hide Inv, Classes, ClassFor, SlabAlloc, P.LedgerInv, Get;
    var c := ClassFor(size);
    NineClasses(size);
    ListsThere(k.h);
    var (z, r) := KmallocSlab(k, size);
    if k.h.lists[c].partial != [] || k.h.lists[c].empty != [] {
      AllocSpec(k.h, c, None);
      SlabServed(k, z, size, None, r.x);
    } else {
      GetSpec(k.y, 0);
      var (y, page) := Get(k.y, 0);
      if page.Some? {
        MarkSlabSpec(y, page.value);
        AllocSpec(k.h, c, page);
        SlabServed(k, z, size, page, r.x);
      }
    }
  }

  lemma ListsThere(h: Heap)
    requires Inv(h)
    ensures |h.lists| == |h.caches|
  {
  }

  /** The state after a slab has served a request. */
  lemma SlabServed(k: Kernel, z: Kernel, size: nat, page: Option<nat>, x: nat)
    requires KInv(k) && 0 < size <= MAX_SLAB && |Classes()| == 9
    requires page.Some? ==> page.value !in k.h.slabs && page.value !in k.y.live
    requires var c := ClassFor(size); if page.None? then k.h.lists[c].partial != [] || k.h.lists[c].empty != []
                                      else k.h.lists[c].partial == [] && k.h.lists[c].empty == []
    requires var g := SlabAlloc(k.h, ClassFor(size), page); z.h == g.0 && Some(x) == g.1 && z.asked == k.asked[x := size]
    requires P.LedgerInv(z.y) && |z.y.m.pages| == |k.y.m.pages|
    requires z.y.live == if page.Some? then k.y.live[page.value := 0] else k.y.live
    requires forall p: nat | p < |z.y.m.pages| :: z.y.m.pages[p].slab == (k.y.m.pages[p].slab || page == Some(p))
    requires page.Some? ==> page.value < |z.y.m.pages|
    ensures KInv(z) && x !in k.asked && x in z.h.live
  {
    hide Inv, Classes, ClassFor, SlabAlloc, P.LedgerInv;
    var c := ClassFor(size);
    NineClasses(size);
    AllocSpec(k.h, c, page);
    forall p: nat ensures p in z.h.slabs <==> p in k.h.slabs || page == Some(p) { AllocPages(k.h, c, page, p); }
    if x in k.asked {
      assert IsLarge(k, x, k.asked[x]);
      AllocPages(k.h, c, page, PageOf(x));
    }
    OthersStay(k, z, c, page);
    forall u | u in z.asked ensures if u in z.h.live then IsSmall(z, u, z.asked[u]) else IsLarge(z, u, z.asked[u]) {
      if u != x { assert u in k.asked; }
    }
  }

  lemma PageBase(p: nat)
    ensures PageOf(p * PAGE) == p && (p * PAGE) % PAGE == 0
  {
  }

  /** A page-aligned pointer is its page's base. */
  lemma BaseUnique(x: nat, p: nat)
    requires x % PAGE == 0 && PageOf(x) == p
    ensures x == p * PAGE
  {
  }

  /** A request served by pages: a new pointer, or none when the order is too large or memory ran out. */
  lemma KmallocLargeSpec(k: Kernel, size: nat)
    requires KInv(k) && MAX_SLAB < size < U64
    ensures var (z, r) := KmallocLarge(k, size);
      && KInv(z) && (r.Never? <==> LargeOrder(size).None?) && (!r.Ptr? ==> z == k)
      && (r.Ptr? ==> r.x !in k.asked && r.x !in z.h.live && z.asked == k.asked[r.x := size])
  {
    hide Inv, LargeOrder, P.LedgerInv, Get;
    var (z, r) := KmallocLarge(k, size);
    if LargeOrder(size).Some? {
      var o := LargeOrder(size).value;
      GetSpec(k.y, o);
      if r.Ptr? {
        var p := Get(k.y, o).1.value;
        PageBase(p);
        if r.x in k.asked { LivePage(k, r.x); }
        assert p !in k.h.slabs;
        forall u | u in z.asked ensures if u in z.h.live then IsSmall(z, u, z.asked[u]) else IsLarge(z, u, z.asked[u]) {
          if u != r.x { assert if u in k.h.live then IsSmall(k, u, k.asked[u]) else IsLarge(k, u, k.asked[u]); }
        }
      }
    }
  }

  /** How much a live pointer is backed by. */
  lemma KsizeOf(k: Kernel, x: nat)
    requires KInv(k) && x in k.asked
    ensures x in k.h.live ==> PageOf(x) in k.h.slabs && k.h.slabs[PageOf(x)].cache < |k.h.caches|
                              && Ksize(k, x) == k.h.caches[k.h.slabs[PageOf(x)].cache].size
    ensures x !in k.h.live ==> PageOf(x) in k.y.live && Ksize(k, x) == Pow2(k.y.live[PageOf(x)]) * PAGE
                               && LargeOrder(k.asked[x]) == Some(k.y.live[PageOf(x)]) && x == PageOf(x) * PAGE
    ensures k.asked[x] <= Ksize(k, x) <==> k.asked[x] <= U64 - PAGE
  {
    hide Inv, P.LedgerInv;
    LivePage(k, x);
    assert if x in k.h.live then IsSmall(k, x, k.asked[x]) else IsLarge(k, x, k.asked[x]);
    if x in k.h.live {
      LargestClass(k.h.slabs[PageOf(x)].cache);
    } else {
      BaseUnique(x, PageOf(x));
      LargeCoversIff(k.asked[x]);
    }
  }

  lemma LargestClass(c: nat)
    requires c < |Classes()|
    ensures Classes()[c].size <= MAX_SLAB
  {
  }

  /**
   `kmalloc` returns nothing for size zero or when memory ran out, and does not return at
   all exactly for sizes of more than 2^31 pages; otherwise it returns a pointer that was
   not live, nothing else changes hands, and the pointer is backed by the size asked for
   if and only if the size is at most 2^64 - 4096.
   */
  lemma KmallocSpec(k: Kernel, size: nat)
    requires KInv(k) && size < U64
    ensures var (z, r) := Kmalloc(k, size);
      && KInv(z) && (!r.Ptr? ==> z == k) && (size == 0 ==> r.Null?)
      && (r.Never? <==> PagesFor(size) > 0x8000_0000)
      && (r.Ptr? ==> r.x !in k.asked && z.asked == k.asked[r.x := size])
      && (r.Ptr? ==> (Ksize(z, r.x) >= size <==> size <= U64 - PAGE))
  {
    hide KInv, Ksize, KmallocSlab, KmallocLarge, LargeOrder;
    var (z, r) := Kmalloc(k, size);
    LoopEndsIff(size);
    if size > MAX_SLAB {
      KmallocLargeSpec(k, size);
    } else if size > 0 {
      KmallocSlabSpec(k, size);
    }
    if r.Ptr? { KsizeOf(z, r.x); }
  }

  /** The largest request there is gets a single page. */
  lemma KmallocWraps(k: Kernel)
    requires KInv(k)
    ensures var (z, r) := Kmalloc(k, U64 - 1);
      && (r == Null <==> Get(k.y, 0).1.None?)
      && (r != Null ==> r.Ptr? && Ksize(z, r.x) == PAGE)
  {
    hide KInv, Ksize, KmallocLarge, LargeOrder, Get;
    LargeCoversIffAt(U64 - 1);
    var (z, r) := Kmalloc(k, U64 - 1);
    KmallocLargeSpec(k, U64 - 1);
    LargeGets(k, U64 - 1);
    if r.Ptr? {
      KsizeOf(z, r.x);
      assert Pow2(0) == 1;
    }
  }

  lemma LargeCoversIffAt(size: nat)
    requires U64 - PAGE < size < U64
    ensures LargeOrder(size) == Some(0)
  {
    assert PagesFor(size) == 0;
  }

  lemma LargeGets(k: Kernel, size: nat)
    requires KInv(k) && size > MAX_SLAB && LargeOrder(size).Some?
    ensures KmallocLarge(k, size).1.Null? <==> Get(k.y, LargeOrder(size).value).1.None?
    ensures !KmallocLarge(k, size).1.Never?
  {
  }

  /**
   `kfree` gives a live block back to whoever produced it: an object to the freelist
   of its own slab, a large block to the page allocator with the order it was allocated
   with, as the ledger of the page allocator has it.
   */
  lemma KfreeSpec(k: Kernel, x: nat)
    requires KInv(k) && x in k.asked
    ensures var (z, f) := Kfree(k, x);
      && KInv(z) && z.asked == k.asked - {x}
      && (if x in k.h.live
          then && PageOf(x) in k.h.slabs && f == Object(k.h.slabs[PageOf(x)].cache, x)
               && z.h.live == k.h.live - {x} && z.y == k.y
          else && PageOf(x) in k.y.live && f == Block(PageOf(x), k.y.live[PageOf(x)])
               && LargeOrder(k.asked[x]) == Some(f.order)
               && z.y == P.Step(k.y, P.OpFree(PageOf(x))) && z.h == k.h)
  {
    hide Inv, P.LedgerInv, SlabFree, Give, LargeOrder;
    LivePage(k, x);
    assert if x in k.h.live then IsSmall(k, x, k.asked[x]) else IsLarge(k, x, k.asked[x]);
    if x in k.h.live { KfreeObject(k, x); } else { KfreeLarge(k, x); }
  }

  lemma KfreeObject(k: Kernel, x: nat)
    requires KInv(k) && x in k.h.live
    ensures KInv(Kfree(k, x).0) && Kfree(k, x).0.h.live == k.h.live - {x}
  {
    hide Inv, P.LedgerInv, SlabFree;
    LivePage(k, x);
    var c := k.h.slabs[PageOf(x)].cache;
    FreeInv(k.h, c, x);
    FreeRecords(k.h, c, x);
    var z := Kfree(k, x).0;
    forall u | u in z.asked ensures if u in z.h.live then IsSmall(z, u, z.asked[u]) else IsLarge(z, u, z.asked[u]) {
      assert if u in k.h.live then IsSmall(k, u, k.asked[u]) else IsLarge(k, u, k.asked[u]);
    }
  }

  lemma FreeRecords(h: Heap, c: nat, x: nat)
    requires PageOf(x) in h.slabs && PageOf(x) in h.chains && h.slabs[PageOf(x)].cache < |h.lists|
    ensures SlabFree(h, c, x).slabs.Keys == h.slabs.Keys
    ensures forall q | q in h.slabs :: q in SlabFree(h, c, x).slabs && SlabFree(h, c, x).slabs[q].cache == h.slabs[q].cache
  {
  }

  lemma KfreeLarge(k: Kernel, x: nat)
    requires KInv(k) && x in k.asked && x !in k.h.live
    ensures KInv(Kfree(k, x).0) && Kfree(k, x).0.y == P.Step(k.y, P.OpFree(PageOf(x)))
  {
    hide Inv, P.LedgerInv, Give, LargeOrder;
    LivePage(k, x);
    var p := PageOf(x);
    GiveSpec(k.y, p);
    GivenAway(k.y, p);
    var z := Kfree(k, x).0;
    assert IsLarge(k, x, k.asked[x]);
    PagesGone(k, z, p);
  }

  lemma GivenAway(y: P.Ledger, p: nat)
    requires P.LedgerInv(y) && p in y.live
    ensures P.Step(y, P.OpFree(p)).live == y.live - {p}
  {
    hide P.LedgerInv, P.Step;
    GiveSpec(y, p);
  }

  /** A block that is no slab leaves the ledger, and the request it served is over. */
  lemma PagesGone(k: Kernel, z: Kernel, p: nat)
    requires KInv(k) && p in k.y.live && p !in k.h.slabs
    requires z.h == k.h && P.LedgerInv(z.y) && SameSlabs(k.y, z.y) && z.y.live == k.y.live - {p}
    requires z.asked == k.asked - {p * PAGE}
    ensures KInv(z)
  {
    hide Inv, P.LedgerInv, LargeOrder;
    PageBase(p);
    forall u | u in z.asked ensures if u in z.h.live then IsSmall(z, u, z.asked[u]) else IsLarge(z, u, z.asked[u]) {
      assert if u in k.h.live then IsSmall(k, u, k.asked[u]) else IsLarge(k, u, k.asked[u]);
      if u !in k.h.live && PageOf(u) == p { BaseUnique(u, p); }
    }
    forall u | u in z.h.live ensures u in z.asked { assert IsSmall(k, u, k.asked[u]); }
  }

  // ------------------------------------------------------------- no overlap

  /** A live pointer's bytes lie in its own page or block. */
  lemma Extent(k: Kernel, x: nat)
    requires KInv(k) && x in k.asked
    ensures var p := PageOf(x);
      && p in k.y.live && p * PAGE <= x
      && x + Ksize(k, x) <= (p + Pow2(k.y.live[p])) * PAGE
  {
    hide SlabOk, ListOk, P.LedgerInv;
    KsizeOf(k, x);
    LivePage(k, x);
    if x in k.h.live {
      assert IsLiveObj(k.h, x);
      var c := k.h.caches[k.h.slabs[PageOf(x)].cache];
      var i :| 0 <= i < PerSlab(c) && x == Obj(PageOf(x), i, c);
      ObjInPage(PageOf(x), i, c);
      assert Pow2(0) == 1;
    }
  }

  /** Live blocks never overlap, whatever their sizes and wherever they came from. */
  lemma BlocksApart(k: Kernel, x: nat, y: nat)
    requires KInv(k) && x in k.asked && y in k.asked && x != y
    ensures x + Ksize(k, x) <= y || y + Ksize(k, y) <= x
  {
    hide Inv, P.LedgerInv, Ksize, LargeOrder;
    Extent(k, x);
    Extent(k, y);
    KsizeOf(k, x);
    KsizeOf(k, y);
    var p: nat, q: nat := PageOf(x), PageOf(y);
    if p != q {
      LiveIntervals(k.y, p, q);
      if p + Pow2(k.y.live[p]) <= q { MulMono(p + Pow2(k.y.live[p]), q, PAGE); } else { MulMono(q + Pow2(k.y.live[q]), p, PAGE); }
    } else {
      LivePage(k, x);
      LivePage(k, y);
      LiveApart(k.h, x, y);
    }
  }

  /** Objects follow a 48-byte header, so only the two smallest classes get the alignment they declare. */
  lemma AlignedIff(p: nat, i: nat, c: nat)
    requires c < 9
    ensures Obj(p, i, Classes()[c]) % Classes()[c].stride == 0 <==> c <= 1
  {
    if c == 0 {
      assert Obj(p, i, Classes()[0]) == 8 * (512 * p + 6 + i);
    } else if c == 1 {
      assert Obj(p, i, Classes()[1]) == 16 * (256 * p + 3 + i);
    } else if c == 2 {
      assert Obj(p, i, Classes()[2]) == 32 * (128 * p + 1 + i) + 16;
    } else if c == 3 {
      assert Obj(p, i, Classes()[3]) == 64 * (64 * p + i) + 48;
    } else if c == 4 {
      assert Obj(p, i, Classes()[4]) == 128 * (32 * p + i) + 48;
    } else if c == 5 {
      assert Obj(p, i, Classes()[5]) == 256 * (16 * p + i) + 48;
    } else if c == 6 {
      assert Obj(p, i, Classes()[6]) == 512 * (8 * p + i) + 48;
    } else if c == 7 {
      assert Obj(p, i, Classes()[7]) == 1024 * (4 * p + i) + 48;
    } else {
      assert Obj(p, i, Classes()[8]) == 2048 * (2 * p + i) + 48;
    }
  }

  // -------------------------------------------------------------------- runs

  /** Requests and frees here, and whatever else the kernel does with pages. */
  datatype Op = OAlloc(size: nat) | OFree(x: nat) | OPages(op: P.Op)

  /** Callers free what is theirs. */
  ghost predicate Legal(k: Kernel, op: Op) {
    match op
    case OAlloc(size) => size < U64
    case OFree(x) => x in k.asked
    case OPages(o) => P.Legal(k.y, o) && (o.OpFree? ==> o.pfn !in k.h.slabs && o.pfn * PAGE !in k.asked)
  }

  ghost function Step(k: Kernel, op: Op): Kernel
    requires KInv(k) && Legal(k, op)
  {
    match op
    case OAlloc(size) => Kmalloc(k, size).0
    case OFree(x) => Kfree(k, x).0
    case OPages(o) => k.(y := P.Step(k.y, o))
  }

  lemma StepInv(k: Kernel, op: Op)
    requires KInv(k) && Legal(k, op)
    ensures KInv(Step(k, op))
  {
    hide KInv, Kmalloc, Kfree;
    match op
    case OAlloc(size) => KmallocSpec(k, size);
    case OFree(x) => KfreeSpec(k, x);
    case OPages(o) => PagesInv(k, o);
  }

  lemma PagesInv(k: Kernel, o: P.Op)
    requires KInv(k) && Legal(k, OPages(o))
    ensures KInv(k.(y := P.Step(k.y, o)))
  {
    hide Inv, P.LedgerInv, LargeOrder;
    var z := k.(y := P.Step(k.y, o));
    if o.OpFree? {
      GiveSpec(k.y, o.pfn);
      GivenAway(k.y, o.pfn);
      assert k.asked - {o.pfn * PAGE} == k.asked;
      PagesGone(k, z, o.pfn);
    } else {
      TakenSpec(k.y, o.order, o.zone);
      forall u | u in z.asked ensures if u in z.h.live then IsSmall(z, u, z.asked[u]) else IsLarge(z, u, z.asked[u]) {
        assert if u in k.h.live then IsSmall(k, u, k.asked[u]) else IsLarge(k, u, k.asked[u]);
      }
    }
  }

  ghost predicate LegalRun(k: Kernel, run: seq<Op>)
    requires KInv(k)
    decreases |run|
  {
    run == [] || (Legal(k, run[0]) && (StepInv(k, run[0]); LegalRun(Step(k, run[0]), run[1..])))
  }

  ghost function Run(k: Kernel, run: seq<Op>): Kernel
    requires KInv(k) && LegalRun(k, run)
    decreases |run|
  {
    if run == [] then k else StepInv(k, run[0]); Run(Step(k, run[0]), run[1..])
  }

  /** After `kheap_init`: nine empty caches. */
  function BootHeap(): Heap {
    Heap(Classes(), map[], map[], seq(9, _ => Lists([], [], [])), map[], {})
  }

  lemma BootHeapInv()
    ensures Inv(BootHeap())
  {
    var h := BootHeap();
    forall c | 0 <= c < 9 ensures ListOk(h, c) {
      forall k: Place ensures Holds(h, c, ListAt(h.lists[c], k), k) {}
    }
  }

  /** Any state of the page allocator without slab marks will do to start. */
  lemma BootInv(y: P.Ledger)
    requires P.LedgerInv(y) && forall p | 0 <= p < |y.m.pages| :: !y.m.pages[p].slab
    ensures KInv(Kernel(BootHeap(), y, map[]))
  {
    hide Inv, P.LedgerInv;
    BootHeapInv();
  }

  /**
   In every run: each slab's freelist is an acyclic chain of exactly its free objects,
   none of them live; its counts add up and it is on the list they call for; the marks of
   a live pointer's page name the allocator and the order it came from; live blocks do not
   overlap, and each covers its request unless the request wrapped.
   */
  lemma {:induction false} RunInv(k: Kernel, run: seq<Op>, p: nat, x: nat, y: nat)
    requires KInv(k) && LegalRun(k, run)
    ensures var z := Run(k, run);
      && KInv(z)
      && (p in z.h.slabs ==> SlabOk(z.h, p))
      && (x in z.asked ==>
            && PageOf(x) < |z.y.m.pages| && PageOf(x) in z.y.live
            && (z.y.m.pages[PageOf(x)].slab <==> x in z.h.live)
            && MarkedOrder(z.y.m.pages[PageOf(x)]) == z.y.live[PageOf(x)]
            && (z.asked[x] <= Ksize(z, x) <==> z.asked[x] <= U64 - PAGE))
      && (x in z.asked && y in z.asked && x != y ==> x + Ksize(z, x) <= y || y + Ksize(z, y) <= x)
    decreases |run|
  {
    hide KInv, Legal, Step, Ksize;
    if run == [] {
      SlabsOk(k, p);
      if x in k.asked { LivePage(k, x); KsizeOf(k, x); }
      if x in k.asked && y in k.asked && x != y { BlocksApart(k, x, y); }
    } else {
      StepInv(k, run[0]);
      RunInv(Step(k, run[0]), run[1..], p, x, y);
    }
  }

  lemma SlabsOk(k: Kernel, p: nat)
    requires KInv(k)
    ensures p in k.h.slabs ==> SlabOk(k.h, p)
  {
  }
}
