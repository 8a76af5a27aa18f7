/**
 `free`, `realloc` and whole runs of the C library's heap.
 */
module LibcHeapRuns {

  import opened Common
  import opened LibcHeap
  import opened LibcHeapOps

  predicate AllFree(q: seq<Block>) {
    forall i | 0 <= i < |q| :: q[i].free
  }

  /** Tiled in words, and with nothing live the heap is one block. */
  predicate HInv(h: Heap) {
    Ok(h) && Words(h.blocks) && (AllFree(h.blocks) ==> |h.blocks| <= 1)
  }

  /** A pointer is live exactly when it has a view, which is its block's payload. */
  lemma {:induction false} ViewLive(q: seq<Block>, mem: seq<int>, p: nat)
    requires Fits(q, mem)
    ensures View(q, mem, p) == var i := BlockOf(q, p); if i.None? then None else Some(Payload(mem, q[i.value]))
  {
    if q != [] { ViewLive(q[1..], mem, p); }
  }

  // ----------------------------------------------------------------- free

  lemma FreePair(q: seq<Block>)
    requires AllFree(q) && |q| > 1
    ensures !NoFreePair(q)
  {
    assert q[0].free && q[1].free;
  }

  lemma PairlessFree(q: seq<Block>)
    requires NoFreePair(q)
    ensures AllFree(q) ==> |q| <= 1
  {
    if AllFree(q) && |q| > 1 { FreePair(q); }
  }

  /** `free` ends one payload, keeps every other, and leaves no two neighbours free. */
  lemma FreeSpec(h: Heap, p: nat, t: nat)
    requires Ok(h) && Live(h, p)
    ensures var z := Free(h, p);
      && Ok(z) && (AllFree(z.blocks) ==> |z.blocks| <= 1) && (Words(h.blocks) ==> Words(z.blocks)) && NoFreePair(z.blocks) && Fits(z.blocks, z.mem) && Fits(h.blocks, h.mem)
      && View(z.blocks, z.mem, t) == if t == p then None else View(h.blocks, h.mem, t)
  {
    hide Tiles, View, EndOf, Fits, Coalesce;
    var q := h.blocks;
    var i := BlockOf(q, p).value;
    var b := q[i].(free := true);
    var q1 := q[i := b];
    BlockAt(q, i);
    OneTile(b);
    assert q1 == Splice(q, i, i + 1, [b]);
    SpliceOk(q, i, i + 1, [b], h.mem, h.mem, t);
    assert q[i..i + 1] == [q[i]];
    OneView(b, h.mem, t);
    OneView(q[i], h.mem, t);
    CoalesceTiles(q1, 0, HEAP);
    TilesFit(Coalesce(q1), h.mem, 0, HEAP);
    CoalesceView(q1, h.mem, 0, HEAP, t);
    CoalescePairs(q1);
    PairlessFree(Coalesce(q1));
    if Words(q) { CoalesceWords(q1); }
    if t == p { LivePointer(q, h.mem, p); }
  }

  lemma OneTile(b: Block)
    ensures Tiles([b], b.at, End(b))
  {
    assert [b][1..] == [];
  }

  lemma OneView(b: Block, mem: seq<int>, p: nat)
    requires Fits([b], mem)
    ensures End(b) <= |mem|
    ensures View([b], mem, p) == if !b.free && b.at + HDR == p then Some(Payload(mem, b)) else None
  {
    assert [b][0] == b && [b][1..] == [];
  }

  lemma LivePointer(q: seq<Block>, mem: seq<int>, p: nat)
    requires Fits(q, mem) && BlockOf(q, p).Some?
    ensures View(q, mem, p).Some?
  {
    ViewLive(q, mem, p);
  }

  // -------------------------------------------------------------- realloc

  /** A used block and the free block after it, as one. */
  function Grown(q: seq<Block>, i: nat): Block
    requires i + 1 < |q|
  {
    Block(q[i].at, q[i].size + HDR + q[i + 1].size, false)
  }

  predicate CanGrow(q: seq<Block>, i: nat, a: nat)
    requires i < |q|
  {
    i + 1 < |q| && q[i + 1].free && q[i].size + HDR + q[i + 1].size >= a
  }

  /** `realloc` when the block stays where it is: shrink it, or let it swallow its free neighbour. */
  function Resize(h: Heap, i: nat, a: nat): Heap
    requires Ok(h) && i < |h.blocks| && (h.blocks[i].size >= a || CanGrow(h.blocks, i, a))
  {
    var q := h.blocks;
    if q[i].size >= a then
      BlockAt(q, i); Heap(Splice(q, i, i + 1, Take(q[i], a)), TakeMem(h.mem, q[i], a))
    else
      BlockAt(q, i + 1); BlockAt(q, i);
      Heap(Splice(q, i, i + 2, Take(Grown(q, i), a)), TakeMem(h.mem, Grown(q, i), a))
  }

  /** `realloc` of a live pointer for a non-zero size. */
  function Realloc(h: Heap, p: nat, size: nat): (Heap, Option<nat>)
    requires Ok(h) && Live(h, p) && 0 < size < SIZE_T
  {
    var i := BlockOf(h.blocks, p).value;
    var a := AlignUp(size);
    if h.blocks[i].size >= a || CanGrow(h.blocks, i, a) then (Resize(h, i, a), Some(p))
    else
      var (z, r) := Malloc(h, size);
      if r.None? then (z, None)
      else
        AlignUpCoversIff(size);
        MoveOk(h, p, size);
        var n := Min(h.blocks[i].size, size);
        (Free(Heap(z.blocks, Write(z.mem, r.value, z.mem[p..p + n])), p), r)
  }

  /** In place: the old bytes up to the new size are where they were. */
  lemma ResizeSpec(h: Heap, p: nat, a: nat, t: nat)
    requires Ok(h) && Live(h, p)
    requires var i := BlockOf(h.blocks, p).value; h.blocks[i].size >= a || CanGrow(h.blocks, i, a)
    ensures var z := Resize(h, BlockOf(h.blocks, p).value, a);
      && Ok(z) && Live(z, p) && Fits(z.blocks, z.mem) && Fits(h.blocks, h.mem)
      && (t != p ==> View(z.blocks, z.mem, t) == View(h.blocks, h.mem, t))
      && View(z.blocks, z.mem, p).Some? && View(h.blocks, h.mem, p).Some?
      && var s := View(h.blocks, h.mem, p).value; var u := View(z.blocks, z.mem, p).value;
         |u| >= a && u[..Min(|s|, |u|)] == s[..Min(|s|, |u|)]
  {
    hide Tiles, View, EndOf, Fits, Min, Take, TakeMem, Splice;
    var q := h.blocks;
    var i := BlockOf(q, p).value;
    var z := Resize(h, i, a);
    var grow := q[i].size < a;
    var j := if grow then i + 2 else i + 1;
    var b := if grow then Grown(q, i) else q[i];
    BlockAt(q, i);
    if grow { BlockAt(q, i + 1); }
    assert EndOf(q[..j], 0) == End(b) <= HEAP;
    ResizeViews(h, i, j, b, a, p, t);
    ResizeViews(h, i, j, b, a, p, p);
    OldView(q, h.mem, p);
    LiveIff(z.blocks, z.mem, p);
    SlicePrefix(h.mem, p, q[i].size, Take(b, a)[0].size);
  }

  lemma SlicePrefix(mem: seq<int>, p: nat, m: nat, n: nat)
    requires p + m <= |mem| && p + n <= |mem|
    ensures var s := mem[p..p + m]; var u := mem[p..p + n]; u[..Min(m, n)] == s[..Min(m, n)]
  {
  }

  lemma WriteSlice(mem: seq<int>, p: nat, n: nat, k: nat, s: seq<int>)
    requires k + |s| <= n && p + n <= |mem|
    ensures Write(mem, p + k, s)[p..p + n] == Write(mem[p..p + n], k, s)
    ensures Write(mem, p + k, s)[..p] == mem[..p] && Write(mem, p + k, s)[p + n..] == mem[p + n..]
  {
  }

  lemma LiveIff(q: seq<Block>, mem: seq<int>, p: nat)
    requires Fits(q, mem)
    ensures View(q, mem, p).Some? <==> BlockOf(q, p).Some?
  {
    ViewLive(q, mem, p);
  }

  lemma OldView(q: seq<Block>, mem: seq<int>, p: nat)
    requires Tiles(q, 0, HEAP) && |mem| == HEAP && BlockOf(q, p).Some?
    ensures Fits(q, mem)
    ensures var b := q[BlockOf(q, p).value]; End(b) <= HEAP && View(q, mem, p) == Some(mem[p..p + b.size])
  {
    TilesFit(q, mem, 0, HEAP);
    ViewLive(q, mem, p);
  }

  lemma ResizeViews(h: Heap, i: nat, j: nat, b: Block, a: nat, p: nat, t: nat)
    requires Ok(h) && i < |h.blocks| && (j == i + 1 || (j == i + 2 && j <= |h.blocks| && h.blocks[i + 1].free))
    requires !h.blocks[i].free && h.blocks[i].at + HDR == p && b.at == h.blocks[i].at && b.size >= a
    requires EndOf(h.blocks[..i], 0) == b.at && EndOf(h.blocks[..j], 0) == End(b) <= HEAP
    ensures |TakeMem(h.mem, b, a)| == HEAP && Take(b, a) != [] && p + Take(b, a)[0].size <= HEAP && Take(b, a)[0].size >= a
    ensures var r := Splice(h.blocks, i, j, Take(b, a)); var m := TakeMem(h.mem, b, a);
      && Tiles(r, 0, HEAP) && Fits(r, m) && Fits(h.blocks, h.mem)
      && View(r, m, t) == if t == p then Some(h.mem[p..p + Take(b, a)[0].size]) else View(h.blocks, h.mem, t)
  {
    hide Tiles, View, EndOf, Fits, Take, TakeMem;
    TakeTiles(b, a);
    TakeFrame(b, a, h.mem);
    SpliceOk(h.blocks, i, j, Take(b, a), h.mem, TakeMem(h.mem, b, a), t);
    TakeView(b, a, h.mem, t);
    if t != p {
      assert h.blocks[i..j][0] == h.blocks[i];
      StretchView(h.blocks[i..j], h.mem, t);
    }
  }

  /** A stretch of one used block, and perhaps a free one, has one live pointer. */
  lemma StretchView(q: seq<Block>, mem: seq<int>, t: nat)
    requires Fits(q, mem) && q != [] && q[0].at + HDR != t && forall i | 1 <= i < |q| :: q[i].free
    ensures View(q, mem, t).None?
  {
    FreeBlocksHaveNoView(q, mem, t);
  }

  lemma MoveOk(h: Heap, p: nat, size: nat)
    requires Ok(h) && Live(h, p) && 0 < size <= SIZE_T - ALIGN && Malloc(h, size).1.Some?
    ensures var (z, r) := Malloc(h, size); var n := Min(h.blocks[BlockOf(h.blocks, p).value].size, size);
      && Ok(z) && p + n <= |z.mem| && r.value + n <= |z.mem| && r.value != p
      && BlockOf(z.blocks, p).Some? && BlockOf(z.blocks, r.value).Some?
      && (forall m: seq<int> | |m| == HEAP :: Live(Heap(z.blocks, m), p))
  {
    hide Tiles, View, EndOf, Fits, Malloc, AlignUp;
    var (z, r) := Malloc(h, size);
    MallocSpec(h, size, p);
    OldView(h.blocks, h.mem, p);
    LiveIff(z.blocks, z.mem, p);
    LiveIff(z.blocks, z.mem, r.value);
    MallocNotEmpty(h, size);
    OldView(z.blocks, z.mem, r.value);
    OldView(z.blocks, z.mem, p);
  }

  lemma MallocNotEmpty(h: Heap, size: nat)
    requires Ok(h) && Malloc(h, size).1.Some?
    ensures Malloc(h, size).0.blocks != []
  {
  }

  /** Writing inside one live payload changes that payload only. */
  lemma WriteView(q: seq<Block>, mem: seq<int>, p: nat, k: nat, s: seq<int>, t: nat)
    requires Tiles(q, 0, HEAP) && |mem| == HEAP && BlockOf(q, p).Some? && k + |s| <= q[BlockOf(q, p).value].size
    requires p + k + |s| <= HEAP
    ensures var m := Write(mem, p + k, s);
      && |m| == HEAP && Fits(q, m) && Fits(q, mem)
      && (t != p ==> View(q, m, t) == View(q, mem, t))
      && View(q, mem, p).Some? && k + |s| <= |View(q, mem, p).value| && View(q, m, p) == Some(Write(View(q, mem, p).value, k, s))
  {
    hide Tiles, View, EndOf, Fits, Write;
    var m := Write(mem, p + k, s);
    var i := BlockOf(q, p).value;
    BlockAt(q, i);
    OneTile(q[i]);
    assert Splice(q, i, i + 1, [q[i]]) == q && q[i..i + 1] == [q[i]];
    WriteSlice(mem, p, q[i].size, k, s);
    assert m[..q[i].at] == m[..p][..q[i].at] && mem[..q[i].at] == mem[..p][..q[i].at];
    SpliceOk(q, i, i + 1, [q[i]], mem, m, t);
    OneView(q[i], m, t);
    OneView(q[i], mem, t);
    OldView(q, mem, p);
    OldView(q, m, p);
  }

  /** `realloc` by moving: allocate, copy the common prefix, free the old block. */
  lemma MoveSpec(h: Heap, p: nat, size: nat, t: nat)
    requires Ok(h) && Live(h, p) && 0 < size <= SIZE_T - ALIGN && Malloc(h, size).1.Some?
    requires var i := BlockOf(h.blocks, p).value; !(h.blocks[i].size >= AlignUp(size) || CanGrow(h.blocks, i, AlignUp(size)))
    ensures Fits(h.blocks, h.mem) && View(h.blocks, h.mem, p).Some?
    ensures var (z, r) := Realloc(h, p, size); var s := View(h.blocks, h.mem, p).value; var k := Min(|s|, size);
      && Ok(z) && Fits(z.blocks, z.mem) && r.Some? && r.value != p && View(h.blocks, h.mem, r.value).None?
      && View(z.blocks, z.mem, p).None?
      && View(z.blocks, z.mem, r.value).Some? && |View(z.blocks, z.mem, r.value).value| >= size
      && View(z.blocks, z.mem, r.value).value[..k] == s[..k]
      && (t != p && t != r.value ==> View(z.blocks, z.mem, t) == View(h.blocks, h.mem, t))
  {
    hide Tiles, View, EndOf, Fits, Malloc, AlignUp, Free, Write, Resize, CanGrow, Words, AllFree, NoFreePair;
    var (z, n) := Malloc(h, size);
    MallocSpec(h, size, p);
    MallocSpec(h, size, t);
    MoveOk(h, p, size);
    MallocNotEmpty(h, size);
    OldView(h.blocks, h.mem, p);
    OldView(z.blocks, z.mem, p);
    OldView(z.blocks, z.mem, n.value);
    var k := Min(h.blocks[BlockOf(h.blocks, p).value].size, size);
    var c := z.mem[p..p + k];
    WriteView(z.blocks, z.mem, n.value, 0, c, t);
    WriteView(z.blocks, z.mem, n.value, 0, c, p);
    var w := Heap(z.blocks, Write(z.mem, n.value, c));
    FreeSpec(w, p, t);
    FreeSpec(w, p, p);
    FreeSpec(w, p, n.value);
    WrittenPrefix(View(z.blocks, z.mem, n.value).value, c);
    SamePrefix(h.mem, z.mem, p, h.blocks[BlockOf(h.blocks, p).value].size, k);
  }

  lemma WrittenPrefix(u: seq<int>, c: seq<int>)
    requires |c| <= |u|
    ensures Write(u, 0, c)[..|c|] == c
  {
  }

  lemma SamePrefix(a: seq<int>, b: seq<int>, p: nat, n: nat, k: nat)
    requires k <= n && p + n <= |a| && p + n <= |b| && a[p..p + n] == b[p..p + n]
    ensures b[p..p + k] == a[p..p + n][..k]
  {
    assert b[p..p + k] == b[p..p + n][..k];
  }

  /**
   `realloc` of a live pointer keeps the common prefix of its bytes and every other
   payload; when it fails everything, including the old payload, is as before.  It
   fails exactly when the block cannot stay and no free block fits.  The payload covers
   the new size if and only if rounding that up does not wrap.
   */
  lemma ReallocSpec(h: Heap, p: nat, size: nat, t: nat)
    requires Ok(h) && Live(h, p) && 0 < size < SIZE_T
    ensures Fits(h.blocks, h.mem) && View(h.blocks, h.mem, p).Some?
    ensures var (z, r) := Realloc(h, p, size); var s := View(h.blocks, h.mem, p).value;
      var i := BlockOf(h.blocks, p).value; var a := AlignUp(size);
      && Ok(z) && Fits(z.blocks, z.mem)
      && (r.None? <==> !(h.blocks[i].size >= a || CanGrow(h.blocks, i, a)) && Malloc(h, size).1.None?)
      && (r.None? ==> View(z.blocks, z.mem, t) == View(h.blocks, h.mem, t))
      && (r.Some? ==>
           && View(z.blocks, z.mem, r.value).Some?
           && (|View(z.blocks, z.mem, r.value).value| >= size <==> size <= SIZE_T - ALIGN)
           && (var u := View(z.blocks, z.mem, r.value).value; var k := Min(Min(|s|, |u|), size); u[..k] == s[..k])
           && (r.value != p ==> View(z.blocks, z.mem, p).None? && View(h.blocks, h.mem, r.value).None?)
           && (t != p && t != r.value ==> View(z.blocks, z.mem, t) == View(h.blocks, h.mem, t)))
  {
    hide Tiles, View, EndOf, Fits, Malloc, AlignUp, Free, Write, Resize, CanGrow;
    var i := BlockOf(h.blocks, p).value;
    var a := AlignUp(size);
    OldView(h.blocks, h.mem, p);
    if h.blocks[i].size >= a || CanGrow(h.blocks, i, a) {
      ResizeSpec(h, p, a, t);
      ResizeSpec(h, p, a, p);
      AlignUpCoversIff(size);
      var z := Resize(h, i, a);
      OldView(z.blocks, z.mem, p);
      ShorterPrefix(View(h.blocks, h.mem, p).value, View(z.blocks, z.mem, p).value, size);
    } else {
      AlignUpCoversIff(size);
      MallocSpec(h, size, t);
      if Malloc(h, size).1.Some? { MoveSpec(h, p, size, t); }
    }
  }

  lemma ShorterPrefix(s: seq<int>, u: seq<int>, k: nat)
    requires u[..Min(|s|, |u|)] == s[..Min(|s|, |u|)]
    ensures var n := Min(Min(|s|, |u|), k); u[..n] == s[..n]
  {
    var n := Min(Min(|s|, |u|), k);
    assert u[..n] == u[..Min(|s|, |u|)][..n];
  }

  lemma ReallocWords(h: Heap, p: nat, size: nat)
    requires Ok(h) && Live(h, p) && 0 < size < SIZE_T && Words(h.blocks)
    ensures Words(Realloc(h, p, size).0.blocks)
  {
    hide Tiles, View, EndOf, Fits, Malloc, Free, Write, Take, TakeMem, Splice;
    var i := BlockOf(h.blocks, p).value;
    var a := AlignUp(size);
    assert a % 8 == 0;
    if h.blocks[i].size >= a {
      TakeWords(h.blocks[i], a);
      SpliceWords(h.blocks, i, i + 1, Take(h.blocks[i], a));
    } else if CanGrow(h.blocks, i, a) {
      TakeWords(Grown(h.blocks, i), a);
      SpliceWords(h.blocks, i, i + 2, Take(Grown(h.blocks, i), a));
    } else {
      MallocWords(h, size);
      var (z, r) := Malloc(h, size);
      if r.Some? {
        AlignUpCoversIff(size);
        MoveOk(h, p, size);
        FreeSpec(Heap(z.blocks, Write(z.mem, r.value, z.mem[p..p + Min(h.blocks[i].size, size)])), p, p);
      }
    }
  }

  // ------------------------------------------------------------------- runs

  datatype Op =
    | OMalloc(size: nat)
    | OFree(p: nat)
    | ORealloc(p: nat, size: nat)
    | OStore(p: nat, k: nat, v: int)

  /** Callers pass live pointers and write inside their payloads; they may ask for any size. */
  predicate Legal(h: Heap, op: Op) {
    match op
    case OMalloc(size) => size < SIZE_T
    case OFree(p) => Live(h, p)
    case ORealloc(p, size) => Live(h, p) && size < SIZE_T
    case OStore(p, k, _) => Live(h, p) && k < h.blocks[BlockOf(h.blocks, p).value].size && p + k < |h.mem|
  }

  function Step(h: Heap, op: Op): Heap
    requires Ok(h) && Legal(h, op)
  {
    match op
    case OMalloc(size) => Malloc(h, size).0
    case OFree(p) => Free(h, p)
    case ORealloc(p, size) => if size == 0 then Free(h, p) else Realloc(h, p, size).0
    case OStore(p, k, v) => h.(mem := Write(h.mem, p + k, [v]))
  }

  /** A live pointer means the heap is not all free. */
  lemma SomeoneLive(h: Heap, p: nat)
    requires Ok(h) && Fits(h.blocks, h.mem) && View(h.blocks, h.mem, p).Some?
    ensures AllFree(h.blocks) ==> |h.blocks| <= 1
  {
    LiveIff(h.blocks, h.mem, p);
  }

  lemma MallocInv(h: Heap, size: nat)
    requires HInv(h) && size < SIZE_T
    ensures HInv(Malloc(h, size).0)
  {
    hide Tiles, View, EndOf, Fits;
    MallocSpec(h, size, 0);
    MallocWords(h, size);
    var (z, r) := Malloc(h, size);
    if r.Some? { SomeoneLive(z, r.value); }
  }

  /** Every step keeps the tiling, and one block when nothing is live. */
  lemma StepInv(h: Heap, op: Op)
    requires HInv(h) && Legal(h, op)
    ensures HInv(Step(h, op))
  {
    hide Tiles, View, EndOf, Fits, Malloc, Free, Realloc, AllFree, Write;
    match op
    case OMalloc(size) => MallocInv(h, size);
    case OFree(p) => FreeSpec(h, p, p);
    case ORealloc(p, size) =>
      if size == 0 {
        FreeSpec(h, p, p);
      } else {
        ReallocSpec(h, p, size, p);
        ReallocWords(h, p, size);
        var (z, r) := Realloc(h, p, size);
        SomeoneLive(z, if r.Some? then r.value else p);
      }
    case OStore(p, k, v) =>
  }

  predicate LegalRun(h: Heap, run: seq<Op>)
    requires HInv(h)
    decreases |run|
  {
    run == [] || (Legal(h, run[0]) && (StepInv(h, run[0]); LegalRun(Step(h, run[0]), run[1..])))
  }

  function Run(h: Heap, run: seq<Op>): Heap
    requires HInv(h) && LegalRun(h, run)
    decreases |run|
  {
    if run == [] then h else StepInv(h, run[0]); Run(Step(h, run[0]), run[1..])
  }

  lemma BootInv(mem: seq<int>)
    requires |mem| == HEAP
    ensures HInv(Heap([], mem))
  {
  }

  /**
   Over every run the blocks tile the area exactly, each at and of a multiple of eight bytes,
   and with nothing live they are one free block.
   */
  lemma {:induction false} RunInv(h: Heap, run: seq<Op>)
    requires HInv(h) && LegalRun(h, run)
    ensures HInv(Run(h, run)) && Words(Run(h, run).blocks)
    ensures Run(h, run).blocks != [] && AllFree(Run(h, run).blocks) ==> Run(h, run).blocks == [Block(0, HEAP - HDR, true)]
    decreases |run|
  {
    hide HInv, Legal, Step;
    InvOk(h);
    if run == [] {
      OneBlock(h);
    } else {
      StepInv(h, run[0]);
      RunInv(Step(h, run[0]), run[1..]);
    }
  }

  lemma InvOk(h: Heap)
    requires HInv(h)
    ensures Ok(h) && Words(h.blocks)
  {
  }

  lemma OneBlock(h: Heap)
    requires HInv(h)
    ensures h.blocks != [] && AllFree(h.blocks) ==> h.blocks == [Block(0, HEAP - HDR, true)]
  {
    if h.blocks != [] && AllFree(h.blocks) {
      assert h.blocks == [h.blocks[0]];
      assert Tiles(h.blocks[1..], End(h.blocks[0]), HEAP);
    }
  }

  predicate Names(op: Op, p: nat) {
    !op.OMalloc? && op.p == p
  }

  /** A step that does not name a live pointer leaves its payload as it was. */
  lemma StepKeeps(h: Heap, op: Op, t: nat)
    requires HInv(h) && Legal(h, op) && !Names(op, t) && Fits(h.blocks, h.mem) && View(h.blocks, h.mem, t).Some?
    ensures var z := Step(h, op); Fits(z.blocks, z.mem) && View(z.blocks, z.mem, t) == View(h.blocks, h.mem, t)
  {
    hide Tiles, View, EndOf, Fits, Malloc, Free, Realloc, AllFree, Write;
    match op
    case OMalloc(size) => MallocSpec(h, size, t);
    case OFree(p) => FreeSpec(h, p, t);
    case ORealloc(p, size) =>
      if size == 0 { FreeSpec(h, p, t); } else { ReallocSpec(h, p, size, t); }
    case OStore(p, k, v) => WriteView(h.blocks, h.mem, p, k, [v], t);
  }

  /** Over any run that never names it, a live payload stays live and keeps every byte. */
  lemma {:induction false} RunKeeps(h: Heap, run: seq<Op>, t: nat)
    requires HInv(h) && LegalRun(h, run) && Fits(h.blocks, h.mem) && View(h.blocks, h.mem, t).Some?
    requires forall i | 0 <= i < |run| :: !Names(run[i], t)
    ensures var z := Run(h, run); Fits(z.blocks, z.mem) && View(z.blocks, z.mem, t) == View(h.blocks, h.mem, t)
    decreases |run|
  {
    hide HInv, Legal, Step, Fits, View, Names;
    if run != [] {
      InvOk(h);
      StepInv(h, run[0]);
      StepKeeps(h, run[0], t);
      RunKeeps(Step(h, run[0]), run[1..], t);
    }
  }
}
