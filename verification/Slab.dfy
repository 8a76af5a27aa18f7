/**
 The kernel's slab allocator (kernel/mm/slab.c): page-sized slabs with a header and
 an in-place freelist, on the full, partial or empty list of their cache.

 `links` holds the word that each free object stores for the next one.  Two history
 variables say what the words mean: `chains` spells out each slab's freelist and
 `live` is the set of objects handed out.
 */
module Slab {

  import opened Common

  const PAGE: nat := 4096
  const HDR: nat := 48

  /** Object size, and the distance between objects. */
  datatype Cache = Cache(size: nat, stride: nat)

  datatype SlabHead = SlabHead(cache: nat, head: Option<nat>, inuse: int, free: int)

  datatype Lists = Lists(full: seq<nat>, partial: seq<nat>, empty: seq<nat>)

  datatype Heap = Heap(caches: seq<Cache>, slabs: map<nat, SlabHead>, links: map<nat, Option<nat>>,
                       lists: seq<Lists>, chains: map<nat, seq<nat>>, live: set<nat>)

  /** `get_aligned_size`: rounded up to the alignment, at least a pointer. */
  function Stride(size: nat, align: nat): nat
    requires align > 0
  {
    var r := (size + align - 1) / align * align;
    if r < 8 then 8 else r
  }

  /** `calc_obj_per_slab`. */
  function PerSlab(c: Cache): nat
    requires c.stride > 0
  {
    (PAGE - HDR) / c.stride
  }

  predicate CacheOk(c: Cache) {
    8 <= c.stride <= PAGE - HDR && c.size <= c.stride
  }

  /** Object `i` of the slab in page `p`. */
  function Obj(p: nat, i: nat, c: Cache): nat {
    p * PAGE + HDR + i * c.stride
  }

  /** `obj_to_slab`. */
  function PageOf(x: nat): nat { x / PAGE }

  lemma ObjInPage(p: nat, i: nat, c: Cache)
    requires CacheOk(c) && i < PerSlab(c)
    ensures p * PAGE + HDR <= Obj(p, i, c) && Obj(p, i, c) + c.stride <= (p + 1) * PAGE && PageOf(Obj(p, i, c)) == p
  {
    var n := PerSlab(c);
    assert n * c.stride <= PAGE - HDR;
    MulMono(i + 1, n, c.stride);
    assert (i + 1) * c.stride == i * c.stride + c.stride;
  }

  lemma MulMono(a: nat, b: nat, k: nat)
    requires a <= b
    ensures a * k <= b * k
  {
  }

  /** Different objects of a slab do not overlap. */
  lemma ObjApart(p: nat, i: nat, j: nat, c: Cache)
    requires i < j
    ensures Obj(p, i, c) + c.stride <= Obj(p, j, c)
  {
    MulMono(i + 1, j, c.stride);
    assert (i + 1) * c.stride == i * c.stride + c.stride;
  }

  /** `x` is an object of page `p`. */
  ghost predicate IsObj(x: nat, p: nat, c: Cache)
    requires CacheOk(c)
  {
    exists i :: 0 <= i < PerSlab(c) && x == Obj(p, i, c)
  }

  // -------------------------------------------------------------- freelists

  /** Following the stored words from `head` gives exactly `q`. */
  predicate IsChain(links: map<nat, Option<nat>>, head: Option<nat>, q: seq<nat>)
    decreases |q|
  {
    if q == [] then head == None
    else head == Some(q[0]) && q[0] in links && IsChain(links, links[q[0]], q[1..])
  }

  lemma {:induction false} ChainFrame(a: map<nat, Option<nat>>, b: map<nat, Option<nat>>, head: Option<nat>, q: seq<nat>)
    requires IsChain(a, head, q) && forall x | x in q :: x in a && x in b && a[x] == b[x]
    ensures IsChain(b, head, q)
    decreases |q|
  {
    if q != [] { ChainFrame(a, b, a[q[0]], q[1..]); }
  }

  /** A chain is determined by its head: following it cannot come back. */
  lemma {:induction false} ChainUnique(links: map<nat, Option<nat>>, head: Option<nat>, p: seq<nat>, q: seq<nat>)
    requires IsChain(links, head, p) && IsChain(links, head, q)
    ensures p == q
    decreases |p|
  {
    if p != [] && q != [] {
      ChainUnique(links, links[p[0]], p[1..], q[1..]);
      assert p == [p[0]] + p[1..] && q == [q[0]] + q[1..];
    }
  }

  // --------------------------------------------------------------- invariant

  /** One slab: counts, freelist, and its free and live objects. */
  ghost predicate SlabOk(h: Heap, p: nat)
    requires p in h.slabs
  {
    var S := h.slabs[p];
    && S.cache < |h.caches| && CacheOk(h.caches[S.cache]) && p in h.chains
    && var c := h.caches[S.cache];
    && var q := h.chains[p];
    && IsChain(h.links, S.head, q) && NoDup(q)
    && S.free == |q| && S.inuse + S.free == PerSlab(c)
    && (forall x | x in q :: IsObj(x, p, c) && x !in h.live)
    && (forall x | IsObj(x, p, c) && x !in q :: x in h.live)
  }

  ghost predicate Inv(h: Heap) {
    && |h.lists| == |h.caches| && (forall c | 0 <= c < |h.caches| :: CacheOk(h.caches[c]))
    && (forall p | p in h.slabs :: SlabOk(h, p))
    && (forall c | 0 <= c < |h.lists| :: ListOk(h, c))
    && (forall x | x in h.live :: PageOf(x) in h.slabs && IsLiveObj(h, x))
  }

  ghost predicate IsLiveObj(h: Heap, x: nat)
    requires PageOf(x) in h.slabs
  {
    var S := h.slabs[PageOf(x)];
    S.cache < |h.caches| && CacheOk(h.caches[S.cache]) && IsObj(x, PageOf(x), h.caches[S.cache])
  }

  // ------------------------------------------------------------------- lists

  datatype Place = Full | Empty | Partial

  function PlaceOf(inuse: int, free: int): Place {
    if free == 0 then Full else if inuse == 0 then Empty else Partial
  }

  function ListAt(l: Lists, k: Place): seq<nat> {
    match k case Full => l.full case Empty => l.empty case Partial => l.partial
  }

  /** Move a slab to the front of the list its new counts call for, unless it is on it already. */
  function Relist(l: Lists, p: nat, from: Place, to: Place): Lists {
    if from == to then l
    else
      var m := match from
        case Full => l.(full := Drop(l.full, p))
        case Empty => l.(empty := Drop(l.empty, p))
        case Partial => l.(partial := Drop(l.partial, p));
      match to
      case Full => m.(full := [p] + m.full)
      case Empty => m.(empty := [p] + m.empty)
      case Partial => m.(partial := [p] + m.partial)
  }

  /** Every slab is on the list its counts call for, once. */
  ghost predicate ListOk(h: Heap, c: nat)
    requires c < |h.lists|
  {
    forall k: Place :: Holds(h, c, ListAt(h.lists[c], k), k)
  }

  ghost predicate Holds(h: Heap, c: nat, q: seq<nat>, k: Place) {
    NoDup(q) && forall p :: p in q <==> p in h.slabs && h.slabs[p].cache == c && PlaceOf(h.slabs[p].inuse, h.slabs[p].free) == k
  }

  /** A slab changes its head record and the lists follow. */
  function Reslab(h: Heap, p: nat, S: SlabHead): Heap
    requires p in h.slabs && h.slabs[p].cache < |h.lists|
  {
    var o := h.slabs[p];
    h.(slabs := h.slabs[p := S],
       lists := h.lists[o.cache := Relist(h.lists[o.cache], p, PlaceOf(o.inuse, o.free), PlaceOf(S.inuse, S.free))])
  }

  lemma ReslabLists(h: Heap, p: nat, S: SlabHead, c: nat)
    requires p in h.slabs && h.slabs[p].cache < |h.lists| && S.cache == h.slabs[p].cache && c < |h.lists| && ListOk(h, c)
    ensures ListOk(Reslab(h, p, S), c)
  {
    var z := Reslab(h, p, S);
    var from, to := PlaceOf(h.slabs[p].inuse, h.slabs[p].free), PlaceOf(S.inuse, S.free);
    forall k: Place ensures Holds(z, c, ListAt(z.lists[c], k), k) {
      assert Holds(h, c, ListAt(h.lists[c], k), k);
      DropSpec(ListAt(h.lists[c], k), p);
    }
  }

  // -------------------------------------------------------------- operations

  /** Take the first object of a slab's freelist. */
  function TakeObject(h: Heap, p: nat): (Heap, nat)
    requires p in h.slabs && h.slabs[p].cache < |h.lists| && h.slabs[p].head.Some? && h.slabs[p].head.value in h.links
    requires p in h.chains && h.chains[p] != []
  {
    var S := h.slabs[p];
    var x := S.head.value;
    (Reslab(h, p, S.(head := h.links[x], inuse := S.inuse + 1, free := S.free - 1))
       .(chains := h.chains[p := h.chains[p][1..]], live := h.live + {x}), x)
  }

  /** The objects of a new slab, in order, from number `i` on. */
  function Objects(p: nat, c: Cache, i: nat): (q: seq<nat>)
    requires c.stride > 0 && i <= PerSlab(c)
    ensures |q| == PerSlab(c) - i && forall k | 0 <= k < |q| :: q[k] == Obj(p, i + k, c)
    decreases PerSlab(c) - i
  {
    if i == PerSlab(c) then [] else [Obj(p, i, c)] + Objects(p, c, i + 1)
  }

  /** The words `slab_alloc_new` writes: each object points to the next, the last to nothing. */
  function BuildLinks(links: map<nat, Option<nat>>, p: nat, c: Cache, i: nat): map<nat, Option<nat>>
    requires c.stride > 0 && i <= PerSlab(c)
    decreases PerSlab(c) - i
  {
    if i == PerSlab(c) then links
    else BuildLinks(links, p, c, i + 1)[Obj(p, i, c) := if i + 1 == PerSlab(c) then None else Some(Obj(p, i + 1, c))]
  }

  /** A new slab; it starts on the empty list, from which the allocation at once takes it. */
  function NewSlab(h: Heap, c: nat, p: nat): Heap
    requires c < |h.caches| == |h.lists| && CacheOk(h.caches[c])
  {
    var k := h.caches[c];
    h.(slabs := h.slabs[p := SlabHead(c, if PerSlab(k) == 0 then None else Some(Obj(p, 0, k)), 0, PerSlab(k))],
       links := BuildLinks(h.links, p, k, 0),
       lists := h.lists[c := h.lists[c].(empty := [p] + h.lists[c].empty)],
       chains := h.chains[p := Objects(p, k, 0)])
  }

  /** `slab_alloc`: a partial slab, else an empty one, else a new one in the page given. */
  ghost function SlabAlloc(h: Heap, c: nat, page: Option<nat>): (Heap, Option<nat>)
    requires Inv(h) && c < |h.caches| && (page.Some? ==> page.value !in h.slabs)
  {
    var l := h.lists[c];
    if l.partial != [] then
      Takeable(h, c, Partial);
      var (z, x) := TakeObject(h, l.partial[0]); (z, Some(x))
    else if l.empty != [] then
      Takeable(h, c, Empty);
      var (z, x) := TakeObject(h, l.empty[0]); (z, Some(x))
    else if page.None? then (h, None)
    else
      NewSlabInv(h, c, page.value);
      var g := NewSlab(h, c, page.value);
      Takeable(g, c, Empty);
      var (z, x) := TakeObject(g, page.value); (z, Some(x))
  }

  /** `slab_free` of a live object. */
  function SlabFree(h: Heap, c: nat, x: nat): Heap
    requires PageOf(x) in h.slabs && PageOf(x) in h.chains && h.slabs[PageOf(x)].cache < |h.lists|
  {
    var p := PageOf(x);
    var S := h.slabs[p];
    if S.cache != c then h
    else
      Reslab(h, p, S.(head := Some(x), inuse := S.inuse - 1, free := S.free + 1))
        .(links := h.links[x := S.head], chains := h.chains[p := [x] + h.chains[p]], live := h.live - {x})
  }

  // ------------------------------------------------------------------ lemmas

  /** The first slab of a list that is not the full one has a free object. */
  lemma Takeable(h: Heap, c: nat, k: Place)
    requires Inv(h) && c < |h.caches| && k != Full && ListAt(h.lists[c], k) != []
    ensures var p := ListAt(h.lists[c], k)[0];
      && p in h.slabs && h.slabs[p].cache == c && h.slabs[p].head.Some? && h.slabs[p].head.value in h.links
      && p in h.chains && h.chains[p] != [] && h.chains[p][0] == h.slabs[p].head.value
  {
    var q := ListAt(h.lists[c], k);
    assert ListOk(h, c) && Holds(h, c, q, k);
    assert q[0] in q;
    assert SlabOk(h, q[0]);
  }

  lemma {:induction false} BuildKeeps(links: map<nat, Option<nat>>, p: nat, c: Cache, i: nat, x: nat)
    requires CacheOk(c) && i <= PerSlab(c) && PageOf(x) != p
    ensures x in BuildLinks(links, p, c, i) <==> x in links
    ensures x in links ==> BuildLinks(links, p, c, i)[x] == links[x]
    decreases PerSlab(c) - i
  {
    if i < PerSlab(c) {
      ObjInPage(p, i, c);
      BuildKeeps(links, p, c, i + 1, x);
    }
  }

  /** The new freelist is the chain of all objects. */
  lemma {:induction false} BuildChain(links: map<nat, Option<nat>>, p: nat, c: Cache, i: nat)
    requires CacheOk(c) && i <= PerSlab(c)
    ensures IsChain(BuildLinks(links, p, c, i), if i == PerSlab(c) then None else Some(Obj(p, i, c)), Objects(p, c, i))
    decreases PerSlab(c) - i
  {
    if i < PerSlab(c) {
      BuildChain(links, p, c, i + 1);
      var a := BuildLinks(links, p, c, i + 1);
      var b := BuildLinks(links, p, c, i);
      var q := Objects(p, c, i + 1);
      forall x | x in q ensures x in a && x in b && a[x] == b[x] {
        var k :| 0 <= k < |q| && q[k] == x;
        ObjApart(p, i, i + 1 + k, c);
        ChainIn(a, if i + 1 == PerSlab(c) then None else Some(Obj(p, i + 1, c)), q, k);
      }
      ChainFrame(a, b, if i + 1 == PerSlab(c) then None else Some(Obj(p, i + 1, c)), q);
      assert Objects(p, c, i)[1..] == q;
    }
  }

  lemma {:induction false} ChainIn(links: map<nat, Option<nat>>, head: Option<nat>, q: seq<nat>, k: nat)
    requires IsChain(links, head, q) && k < |q|
    ensures q[k] in links
    decreases k
  {
    if k > 0 { ChainIn(links, links[q[0]], q[1..], k - 1); }
  }

  lemma PerSlabPositive(c: Cache)
    requires CacheOk(c)
    ensures PerSlab(c) >= 1
  {
  }

  lemma ObjectsSpec(p: nat, c: Cache)
    requires CacheOk(c)
    ensures NoDup(Objects(p, c, 0)) && forall x :: x in Objects(p, c, 0) <==> IsObj(x, p, c)
  {
    var q := Objects(p, c, 0);
    forall i, j | 0 <= i < j < |q| ensures q[i] != q[j] { ObjApart(p, i, j, c); }
    forall x ensures x in q <==> IsObj(x, p, c) {
      if IsObj(x, p, c) {
        var i :| 0 <= i < PerSlab(c) && x == Obj(p, i, c);
        assert q[i] == x;
      }
    }
  }

  lemma ObjPage(x: nat, p: nat, c: Cache)
    requires CacheOk(c) && IsObj(x, p, c)
    ensures PageOf(x) == p
  {
    var i :| 0 <= i < PerSlab(c) && x == Obj(p, i, c);
    ObjInPage(p, i, c);
  }

  /** A slab none of whose objects, words or records changed. */
  lemma SlabFrame(h: Heap, z: Heap, p: nat)
    requires p in h.slabs && SlabOk(h, p) && p in z.slabs && z.slabs[p] == h.slabs[p] && z.caches == h.caches
    requires p in z.chains && z.chains[p] == h.chains[p]
    requires forall x: nat | PageOf(x) == p ::
      (x in z.live <==> x in h.live) && (x in h.links ==> x in z.links && z.links[x] == h.links[x])
    ensures SlabOk(z, p)
  {
    hide IsObj;
    var c := h.caches[h.slabs[p].cache];
    var q := h.chains[p];
    forall x | IsObj(x, p, c) ensures PageOf(x) == p { ObjPage(x, p, c); }
    forall x | x in q ensures x in h.links && x in z.links && h.links[x] == z.links[x] {
      var k :| 0 <= k < |q| && q[k] == x;
      ChainIn(h.links, h.slabs[p].head, q, k);
    }
    ChainFrame(h.links, z.links, h.slabs[p].head, q);
  }

  lemma NewSlabOk(h: Heap, c: nat, p: nat)
    requires Inv(h) && c < |h.caches| && p !in h.slabs
    ensures SlabOk(NewSlab(h, c, p), p)
  {
    hide IsObj, ListOk;
    var k := h.caches[c];
    PerSlabPositive(k);
    ObjectsSpec(p, k);
    BuildChain(h.links, p, k, 0);
    forall x | IsObj(x, p, k) ensures x !in h.live { ObjPage(x, p, k); }
  }

  lemma NewSlabLists(h: Heap, c: nat, p: nat, d: nat)
    requires Inv(h) && c < |h.caches| && p !in h.slabs && d < |h.lists|
    ensures ListOk(NewSlab(h, c, p), d)
  {
    hide SlabOk;
    PerSlabPositive(h.caches[c]);
    var z := NewSlab(h, c, p);
    forall k: Place ensures Holds(z, d, ListAt(z.lists[d], k), k) {
      assert ListOk(h, d);
      assert Holds(h, d, ListAt(h.lists[d], k), k);
    }
  }

  lemma NewSlabInv(h: Heap, c: nat, p: nat)
    requires Inv(h) && c < |h.caches| && p !in h.slabs
    ensures Inv(NewSlab(h, c, p)) && NewSlab(h, c, p).lists[c].empty != [] && NewSlab(h, c, p).lists[c].empty[0] == p
  {
    hide IsObj, ListOk, BuildLinks;
    var z := NewSlab(h, c, p);
    forall q | q in z.slabs ensures SlabOk(z, q) {
      if q == p {
        NewSlabOk(h, c, p);
      } else {
        forall x: nat | PageOf(x) == q ensures x in h.links ==> x in z.links && z.links[x] == h.links[x] {
          BuildKeeps(h.links, p, h.caches[c], 0, x);
        }
        SlabFrame(h, z, q);
      }
    }
    forall d | 0 <= d < |z.lists| ensures ListOk(z, d) { NewSlabLists(h, c, p, d); }
  }

  /** Handing out an object: it was free, and everything else stays in order. */
  lemma TakeInv(h: Heap, p: nat)
    requires Inv(h) && p in h.slabs && h.slabs[p].cache < |h.lists| && h.slabs[p].head.Some? && h.slabs[p].head.value in h.links
    requires p in h.chains && h.chains[p] != []
    ensures var (z, x) := TakeObject(h, p);
      && Inv(z) && x !in h.live && z.live == h.live + {x} && PageOf(x) == p
      && IsObj(x, p, h.caches[h.slabs[p].cache]) && z.caches == h.caches
  {
    hide IsObj, ListOk, Relist;
    var (z, x) := TakeObject(h, p);
    assert SlabOk(h, p);
    var c := h.caches[h.slabs[p].cache];
    var q := h.chains[p];
    assert q[0] == x && q[0] in q;
    ObjPage(x, p, c);
    assert SlabOk(z, p) by {
      assert forall y :: y in q <==> y == x || y in q[1..];
      assert x !in q[1..];
    }
    forall r | r in z.slabs && r != p ensures SlabOk(z, r) {
      assert SlabOk(h, r);
      SlabFrame(h, z, r);
    }
    TakeLists(h, p);
  }

  lemma TakeLists(h: Heap, p: nat)
    requires Inv(h) && p in h.slabs && h.slabs[p].cache < |h.lists| && h.slabs[p].head.Some? && h.slabs[p].head.value in h.links
    requires p in h.chains && h.chains[p] != []
    ensures forall d | 0 <= d < |h.lists| :: ListOk(TakeObject(h, p).0, d)
  {
    hide SlabOk, Relist;
    var S := h.slabs[p];
    var S' := S.(head := h.links[S.head.value], inuse := S.inuse + 1, free := S.free - 1);
    forall d | 0 <= d < |h.lists| ensures ListOk(TakeObject(h, p).0, d) {
      assert ListOk(h, d);
      ReslabLists(h, p, S', d);
      SameLists(Reslab(h, p, S'), TakeObject(h, p).0, d);
    }
  }

  lemma SameLists(a: Heap, b: Heap, d: nat)
    requires a.slabs == b.slabs && a.lists == b.lists && d < |a.lists| && ListOk(a, d)
    ensures ListOk(b, d)
  {
    forall k: Place ensures Holds(b, d, ListAt(b.lists[d], k), k) {
      assert Holds(a, d, ListAt(a.lists[d], k), k);
    }
  }

  /** Taking an object back: it joins its own slab's freelist. */
  lemma FreeInv(h: Heap, c: nat, x: nat)
    requires Inv(h) && x in h.live
    ensures PageOf(x) in h.slabs && PageOf(x) in h.chains && h.slabs[PageOf(x)].cache < |h.lists|
    ensures Inv(SlabFree(h, c, x)) && SlabFree(h, c, x).caches == h.caches
    ensures h.slabs[PageOf(x)].cache == c ==> SlabFree(h, c, x).live == h.live - {x}
    ensures h.slabs[PageOf(x)].cache != c ==> SlabFree(h, c, x) == h
  {
    hide IsObj, ListOk, Relist;
    var p := PageOf(x);
    assert SlabOk(h, p);
    var z := SlabFree(h, c, x);
    if h.slabs[p].cache == c {
      var k := h.caches[c];
      var q := h.chains[p];
      assert IsLiveObj(h, x);
      assert x !in q;
      assert SlabOk(z, p) by {
        forall y | y in q ensures y in h.links && y in z.links && h.links[y] == z.links[y] {
          var i :| 0 <= i < |q| && q[i] == y;
          ChainIn(h.links, h.slabs[p].head, q, i);
        }
        ChainFrame(h.links, z.links, h.slabs[p].head, q);
        assert ([x] + q)[1..] == q;
      }
      forall r | r in z.slabs && r != p ensures SlabOk(z, r) {
        assert SlabOk(h, r);
        SlabFrame(h, z, r);
      }
      FreeLists(h, c, x);
      forall y | y in z.live ensures PageOf(y) in z.slabs && IsLiveObj(z, y) { assert IsLiveObj(h, y); }
    }
  }

  lemma FreeLists(h: Heap, c: nat, x: nat)
    requires Inv(h) && PageOf(x) in h.slabs && PageOf(x) in h.chains && h.slabs[PageOf(x)].cache == c < |h.lists|
    ensures forall d | 0 <= d < |h.lists| :: ListOk(SlabFree(h, c, x), d)
  {
    hide SlabOk, Relist;
    var p := PageOf(x);
    var S := h.slabs[p];
    var S' := S.(head := Some(x), inuse := S.inuse - 1, free := S.free + 1);
    forall d | 0 <= d < |h.lists| ensures ListOk(SlabFree(h, c, x), d) {
      assert ListOk(h, d);
      ReslabLists(h, p, S', d);
      SameLists(Reslab(h, p, S'), SlabFree(h, c, x), d);
    }
  }

  /**
   `slab_alloc` fails only when the cache has no free object and no page is to be had;
   otherwise it hands out an object of the cache that was not live.
   */
  lemma AllocSpec(h: Heap, c: nat, page: Option<nat>)
    requires Inv(h) && c < |h.caches| && (page.Some? ==> page.value !in h.slabs)
    ensures var (z, r) := SlabAlloc(h, c, page);
      && Inv(z) && z.caches == h.caches
      && (r.None? <==> h.lists[c].partial == [] && h.lists[c].empty == [] && page.None?)
      && (r.None? ==> z == h)
      && (r.Some? ==>
           && r.value !in h.live && z.live == h.live + {r.value}
           && PageOf(r.value) in z.slabs && z.slabs[PageOf(r.value)].cache == c
           && IsObj(r.value, PageOf(r.value), h.caches[c]))
  {
    hide SlabOk, ListOk, IsObj, TakeObject, NewSlab;
    var l := h.lists[c];
    if l.partial != [] {
      Takeable(h, c, Partial);
      TakeInv(h, l.partial[0]);
      TakeRecord(h, l.partial[0]);
    } else if l.empty != [] {
      Takeable(h, c, Empty);
      TakeInv(h, l.empty[0]);
      TakeRecord(h, l.empty[0]);
    } else if page.Some? {
      NewSlabInv(h, c, page.value);
      var g := NewSlab(h, c, page.value);
      NewSlabRecord(h, c, page.value);
      Takeable(g, c, Empty);
      TakeInv(g, page.value);
      TakeRecord(g, page.value);
    }
  }

  lemma TakeRecord(h: Heap, p: nat)
    requires p in h.slabs && h.slabs[p].cache < |h.lists| && h.slabs[p].head.Some? && h.slabs[p].head.value in h.links
    requires p in h.chains && h.chains[p] != []
    ensures p in TakeObject(h, p).0.slabs && TakeObject(h, p).0.slabs[p].cache == h.slabs[p].cache
  {
  }

  lemma NewSlabRecord(h: Heap, c: nat, p: nat)
    requires c < |h.caches| == |h.lists| && CacheOk(h.caches[c])
    ensures NewSlab(h, c, p).live == h.live && NewSlab(h, c, p).caches == h.caches
    ensures |NewSlab(h, c, p).lists| == |h.lists|
  {
  }

  /** Live objects of any caches never overlap. */
  lemma LiveApart(h: Heap, x: nat, y: nat)
    requires Inv(h) && x in h.live && y in h.live && x != y
    ensures PageOf(x) in h.slabs && h.slabs[PageOf(x)].cache < |h.caches|
    ensures PageOf(y) in h.slabs && h.slabs[PageOf(y)].cache < |h.caches|
    ensures x + h.caches[h.slabs[PageOf(x)].cache].size <= y || y + h.caches[h.slabs[PageOf(y)].cache].size <= x
  {
    hide SlabOk, ListOk;
    assert IsLiveObj(h, x) && IsLiveObj(h, y);
    var p, q := PageOf(x), PageOf(y);
    var c, d := h.caches[h.slabs[p].cache], h.caches[h.slabs[q].cache];
    var i :| 0 <= i < PerSlab(c) && x == Obj(p, i, c);
    var j :| 0 <= j < PerSlab(d) && y == Obj(q, j, d);
    ObjInPage(p, i, c);
    ObjInPage(q, j, d);
    if p == q {
      if i < j { ObjApart(p, i, j, c); } else { ObjApart(p, j, i, c); }
    } else if p < q {
      MulMono(p + 1, q, PAGE);
    } else {
      MulMono(q + 1, p, PAGE);
    }
  }
}
