/**
 The slab allocator as it runs (kernel/mm/slab.c): slab headers, the words inside free
 objects and the lists are changed in place.
 */
module SlabObject {

  import opened Common
  import opened Bits
  import opened Slab
  import opened Kmalloc

  class KernelHeap {
    const caches: seq<Cache>
    var slabs: map<nat, SlabHead>
    var links: map<nat, Option<nat>>
    var lists: seq<Lists>
    ghost var chains: map<nat, seq<nat>>
    ghost var live: set<nat>

    ghost function Value(): Heap
      reads this
    {
      Heap(caches, slabs, links, lists, chains, live)
    }

    /** `kmalloc_init`. */
    constructor ()
      ensures Value() == BootHeap() && Inv(Value())
    {
      caches := Classes();
      slabs, links, lists := map[], map[], seq(9, _ => Lists([], [], []));
      chains, live := map[], {};
      new;
      BootHeapInv();
    }

    /** `slab_alloc_new`: the header, then the loop that threads the freelist through the objects. */
    method AddSlab(c: nat, p: nat)
      requires Inv(Value()) && c < |caches| && p !in slabs
      modifies this
      ensures Value() == NewSlab(old(Value()), c, p)
    {
      hide Inv, SlabOk, ListOk;
      CachesOk(Value(), c);
      var k := caches[c];
      var n := PerSlab(k);
      var head: Option<nat> := None;
      var last: Option<nat> := None;
      ghost var before := links;
      var i := 0;
      while i < n
        invariant 0 <= i <= n
        invariant last == (if i == 0 then None else Some(Obj(p, i - 1, k))) && head == (if i == 0 then None else Some(Obj(p, 0, k)))
        invariant BuildLinks(links, p, k, if i == 0 then 0 else i - 1) == BuildLinks(before, p, k, 0)
        invariant slabs == old(slabs) && lists == old(lists) && chains == old(chains) && live == old(live)
      {
        var obj := Obj(p, i, k);
        if last.None? {
          head := Some(obj);
        } else {
          BuildCommutes(links, p, k, i, i - 1, Some(obj));
          links := links[last.value := Some(obj)];
        }
        last := Some(obj);
        i := i + 1;
      }
      if last.Some? {
        links := links[last.value := None];
      }
      slabs := slabs[p := SlabHead(c, head, 0, n)];
      lists := lists[c := lists[c].(empty := [p] + lists[c].empty)];
      chains := chains[p := Objects(p, k, 0)];
    }

    /** Move a slab to the list its new counts call for. */
    method Move(p: nat, S: SlabHead)
      requires p in slabs && slabs[p].cache < |lists|
      modifies this`slabs, this`lists
      ensures Value() == Reslab(old(Value()), p, S)
    {
      var c := slabs[p].cache;
      var l := lists[c];
      var from, to := PlaceOf(slabs[p].inuse, slabs[p].free), PlaceOf(S.inuse, S.free);
      if from != to {
        match from {
          case Full => var q := Unlinked(l.full, p); l := l.(full := q);
          case Empty => var q := Unlinked(l.empty, p); l := l.(empty := q);
          case Partial => var q := Unlinked(l.partial, p); l := l.(partial := q);
        }
        match to {
          case Full => l := l.(full := [p] + l.full);
          case Empty => l := l.(empty := [p] + l.empty);
          case Partial => l := l.(partial := [p] + l.partial);
        }
      }
      slabs := slabs[p := S];
      lists := lists[c := l];
    }

    method Take(p: nat) returns (x: nat)
      requires p in slabs && slabs[p].cache < |lists| && slabs[p].head.Some? && slabs[p].head.value in links
      requires p in chains && chains[p] != []
      modifies this
      ensures (Value(), x) == TakeObject(old(Value()), p)
    {
      var S := slabs[p];
      x := S.head.value;
      Move(p, S.(head := links[x], inuse := S.inuse + 1, free := S.free - 1));
      chains := chains[p := chains[p][1..]];
      live := live + {x};
    }

    /** `slab_alloc`. */
    method AllocObject(c: nat, page: Option<nat>) returns (r: Option<nat>)
      requires Inv(Value()) && c < |caches| && (page.Some? ==> page.value !in slabs)
      modifies this
      ensures Inv(Value()) && (Value(), r) == SlabAlloc(old(Value()), c, page)
    {
      hide SlabOk, ListOk, IsObj, NewSlab, TakeObject, Relist;
      AllocSpec(Value(), c, page);
      var x: nat;
      if lists[c].partial != [] {
        Takeable(Value(), c, Partial);
        x := Take(lists[c].partial[0]);
      } else if lists[c].empty != [] {
        Takeable(Value(), c, Empty);
        x := Take(lists[c].empty[0]);
      } else {
        if page.None? { return None; }
        NewSlabInv(Value(), c, page.value);
        AddSlab(c, page.value);
        Takeable(Value(), c, Empty);
        x := Take(page.value);
      }
      r := Some(x);
    }

    /** `slab_free`: an object of another cache is refused. */
    method FreeObject(c: nat, x: nat)
      requires Inv(Value()) && x in live
      modifies this
      ensures PageOf(x) in old(slabs) && PageOf(x) in old(chains) && old(slabs)[PageOf(x)].cache < |old(lists)|
      ensures Inv(Value()) && Value() == SlabFree(old(Value()), c, x)
    {
      hide Inv, SlabOk, ListOk, IsObj, Relist;
      FreeInv(Value(), c, x);
      var p := PageOf(x);
      var S := slabs[p];
      if S.cache != c { return; }
      links := links[x := S.head];
      Move(p, S.(head := Some(x), inuse := S.inuse - 1, free := S.free + 1));
      chains := chains[p := [x] + chains[p]];
      live := live - {x};
    }

    /** The loop of `kmalloc` that finds the order of a large block; None when it goes on for ever. */
    method FindOrder(size: nat) returns (order: Option<nat>)
      requires size < U64
      ensures order == LargeOrder(size)
      ensures order.None? <==> PagesFor(size) > 0x8000_0000
      ensures order.None? ==> forall o: nat :: Shl1(o) < PagesFor(size)
    {
      hide Pow2;
      var pages := ((size + PAGE - 1) % U64) / PAGE;
      assert pages == PagesFor(size);
      var o := 0;
      LoopEndsIff(size);
      while o < 32 && Shl1(o) < pages
        invariant 0 <= o <= 32 && OrderFrom(pages, 0) == OrderFrom(pages, o)
      {
        o := o + 1;
      }
      order := if o < 32 then Some(o) else None;
      assert order == LargeOrder(size);
    }
  }

  /** Words written before the objects of a stretch are threaded stay as they are. */
  lemma {:induction false} BuildCommutes(links: map<nat, Option<nat>>, p: nat, c: Cache, i: nat, j: nat, v: Option<nat>)
    requires CacheOk(c) && j < i <= PerSlab(c)
    ensures BuildLinks(links[Obj(p, j, c) := v], p, c, i) == BuildLinks(links, p, c, i)[Obj(p, j, c) := v]
    decreases PerSlab(c) - i
  {
    if i < PerSlab(c) {
      BuildCommutes(links, p, c, i + 1, j, v);
      ObjApart(p, j, i, c);
    }
  }

  lemma CachesOk(h: Heap, c: nat)
    requires Inv(h) && c < |h.caches|
    ensures CacheOk(h.caches[c]) && |h.lists| == |h.caches|
  {
  }
}
