/**
 `malloc`, `free` and `realloc` (lib/libc/src/stdlib.c) against the map from live
 pointers to their bytes.
 */
module LibcHeapOps {

  import opened Common
  import opened LibcHeap

  /** `heap_init`. */
  function Init(q: seq<Block>): seq<Block> {
    if q != [] then q else [Block(0, HEAP - HDR, true)]
  }

  /** A block after being given out for `a` bytes: the rest is split off when it can hold a header and 16 bytes. */
  function Take(b: Block, a: nat): seq<Block> {
    if b.size >= a + HDR + ALIGN then [Block(b.at, a, false), Block(b.at + HDR + a, b.size - a - HDR, true)]
    else [b.(free := false)]
  }

  /** A new header overwrites 24 bytes. */
  function Scribble(mem: seq<int>, p: nat): seq<int>
    requires p + HDR <= |mem|
  {
    mem[..p] + seq(HDR, _ => -1) + mem[p + HDR..]
  }

  function TakeMem(mem: seq<int>, b: Block, a: nat): seq<int>
    requires End(b) <= |mem|
  {
    if b.size >= a + HDR + ALIGN then Scribble(mem, b.at + HDR + a) else mem
  }

  /** The first free block of at least `a` bytes. */
  function FirstFit(q: seq<Block>, a: nat): (r: Option<nat>)
    ensures r.Some? ==> r.value < |q| && q[r.value].free && q[r.value].size >= a
    ensures r.None? ==> forall i | 0 <= i < |q| :: !(q[i].free && q[i].size >= a)
  {
    if q == [] then None
    else if q[0].free && q[0].size >= a then Some(0)
    else
      assert q == [q[0]] + q[1..];
      var r := FirstFit(q[1..], a); if r.None? then None else Some(r.value + 1)
  }

  /** The block whose payload starts at a live pointer. */
  function BlockOf(q: seq<Block>, p: nat): (r: Option<nat>)
    ensures r.Some? ==> r.value < |q| && !q[r.value].free && q[r.value].at + HDR == p
    ensures r.None? ==> forall i | 0 <= i < |q| :: q[i].free || q[i].at + HDR != p
  {
    if q == [] then None
    else if !q[0].free && q[0].at + HDR == p then Some(0)
    else
      assert q == [q[0]] + q[1..];
      var r := BlockOf(q[1..], p); if r.None? then None else Some(r.value + 1)
  }

  predicate Live(h: Heap, p: nat) {
    BlockOf(h.blocks, p).Some?
  }

  function Splice(q: seq<Block>, i: nat, j: nat, r: seq<Block>): seq<Block>
    requires i <= j <= |q|
  {
    q[..i] + r + q[j..]
  }

  function Malloc(h: Heap, size: nat): (Heap, Option<nat>)
    requires Ok(h)
  {
    if size == 0 then (h, None)
    else
      var q := Init(h.blocks);
      var a := AlignUp(size);
      var f := FirstFit(q, a);
      if f.None? then (Heap(q, h.mem), None)
      else
        InitOk(h);
        var b := q[f.value];
        (Heap(Splice(q, f.value, f.value + 1, Take(b, a)), TakeMem(h.mem, b, a)), Some(b.at + HDR))
  }

  lemma InitOk(h: Heap)
    requires Ok(h)
    ensures Tiles(Init(h.blocks), 0, HEAP) && Fits(Init(h.blocks), h.mem)
  {
    if h.blocks == [] {
      assert Init(h.blocks)[1..] == [];
      TilesFit(Init(h.blocks), h.mem, 0, HEAP);
    } else {
      TilesFit(h.blocks, h.mem, 0, HEAP);
    }
  }

  function Free(h: Heap, p: nat): Heap
    requires Live(h, p)
  {
    var i := BlockOf(h.blocks, p).value;
    h.(blocks := Coalesce(h.blocks[i := h.blocks[i].(free := true)]))
  }

  /** The bytes from `p` on replaced. */
  function Write(mem: seq<int>, p: nat, s: seq<int>): (r: seq<int>)
    requires p + |s| <= |mem|
    ensures |r| == |mem|
  {
    mem[..p] + s + mem[p + |s|..]
  }

  // ----------------------------------------------------------------- splicing

  /** The blocks before, in and after a stretch each tile their own part of the area. */
  lemma Parts(q: seq<Block>, i: nat, j: nat)
    requires Tiles(q, 0, HEAP) && i <= j <= |q|
    ensures var lo := EndOf(q[..i], 0); var hi := EndOf(q[..j], 0);
      lo <= hi <= HEAP && Tiles(q[..i], 0, lo) && Tiles(q[i..j], lo, hi) && Tiles(q[j..], hi, HEAP)
  {
    assert q == q[..j] + q[j..] && q[..j] == q[..i] + q[i..j];
    TilesSplit(q[..j], q[j..], 0, HEAP);
    TilesSplit(q[..i], q[i..j], 0, EndOf(q[..j], 0));
  }

  lemma SpliceTiles(q: seq<Block>, i: nat, j: nat, r: seq<Block>)
    requires Tiles(q, 0, HEAP) && i <= j <= |q| && Tiles(r, EndOf(q[..i], 0), EndOf(q[..j], 0))
    ensures Tiles(Splice(q, i, j, r), 0, HEAP)
  {
    Parts(q, i, j);
    TilesJoin(q[..i], r, 0, EndOf(q[..i], 0), EndOf(q[..j], 0));
    TilesJoin(q[..i] + r, q[j..], 0, EndOf(q[..j], 0), HEAP);
  }

  lemma ViewThree(a: seq<Block>, b: seq<Block>, c: seq<Block>, mem: seq<int>, p: nat)
    requires Fits(a + b + c, mem)
    ensures Fits(a, mem) && Fits(b, mem) && Fits(c, mem)
    ensures View(a + b + c, mem, p) ==
      if View(a, mem, p).Some? then View(a, mem, p) else if View(b, mem, p).Some? then View(b, mem, p) else View(c, mem, p)
  {
    ViewConcat(a + b, c, mem, p);
    ViewConcat(a, b, mem, p);
  }

  /** Replacing a stretch of blocks by others that tile the same bytes, and rewriting only those bytes. */
  lemma SpliceOk(q: seq<Block>, i: nat, j: nat, r: seq<Block>, mem: seq<int>, mem': seq<int>, p: nat)
    requires |mem| == |mem'| == HEAP && Tiles(q, 0, HEAP) && i <= j <= |q|
    requires Tiles(r, EndOf(q[..i], 0), EndOf(q[..j], 0))
    requires var lo := EndOf(q[..i], 0); var hi := EndOf(q[..j], 0);
      lo <= HEAP && hi <= HEAP ==> mem[..lo] == mem'[..lo] && mem[hi..] == mem'[hi..]
    ensures Tiles(Splice(q, i, j, r), 0, HEAP)
    ensures Fits(q, mem) && Fits(Splice(q, i, j, r), mem') && Fits(r, mem') && Fits(q[i..j], mem)
    ensures View(Splice(q, i, j, r), mem', p) ==
      if View(r, mem', p).Some? then View(r, mem', p)
      else if View(q[i..j], mem, p).Some? then None
      else View(q, mem, p)
  {
    hide Tiles, View, EndOf, Fits;
    var a, b, c := q[..i], q[i..j], q[j..];
    var lo, hi := EndOf(a, 0), EndOf(q[..j], 0);
    Parts(q, i, j);
    SpliceTiles(q, i, j, r);
    TilesFit(q, mem, 0, HEAP);
    TilesFit(Splice(q, i, j, r), mem', 0, HEAP);
    assert q == a + b + c;
    ViewThree(a, b, c, mem, p);
    ViewThree(a, r, c, mem', p);
    assert mem[0..lo] == mem[..lo] && mem'[0..lo] == mem'[..lo] && mem[hi..HEAP] == mem[hi..] && mem'[hi..HEAP] == mem'[hi..];
    ViewFrame(a, mem, mem', 0, lo, p);
    ViewFrame(c, mem, mem', hi, HEAP, p);
    ViewWithin(a, mem, 0, lo, p);
    ViewWithin(c, mem, hi, HEAP, p);
    ViewWithin(b, mem, lo, hi, p);
    ViewWithin(r, mem', lo, hi, p);
  }

  lemma {:induction false} EndOfConcat(a: seq<Block>, b: seq<Block>, lo: nat)
    ensures EndOf(a + b, lo) == EndOf(b, EndOf(a, lo))
  {
    if a == [] {
      assert a + b == b;
    } else {
      assert (a + b)[0] == a[0] && (a + b)[1..] == a[1..] + b;
      EndOfConcat(a[1..], b, End(a[0]));
    }
  }

  /** Where block `i` lies. */
  lemma BlockAt(q: seq<Block>, i: nat)
    requires Tiles(q, 0, HEAP) && i < |q|
    ensures EndOf(q[..i], 0) == q[i].at && EndOf(q[..i + 1], 0) == End(q[i]) <= HEAP
  {
    assert q == q[..i] + q[i..] && q[i..][0] == q[i];
    TilesSplit(q[..i], q[i..], 0, HEAP);
    assert q[..i + 1] == q[..i] + [q[i]];
    EndOfConcat(q[..i], [q[i]], 0);
    assert [q[i]][1..] == [];
  }

  lemma TakeTiles(b: Block, a: nat)
    requires b.size >= a
    ensures Tiles(Take(b, a), b.at, End(b))
  {
    var r := Take(b, a);
    if |r| == 2 {
      assert r[1..] == [r[1]] && r[1..][1..] == [];
    } else {
      assert r[1..] == [];
    }
  }

  /** Of the blocks left by `Take` only the first is live, with the bytes the area had there. */
  lemma TakeView(b: Block, a: nat, mem: seq<int>, p: nat)
    requires b.size >= a && End(b) <= |mem| && |TakeMem(mem, b, a)| == |mem| && Fits(Take(b, a), TakeMem(mem, b, a))
    ensures Take(b, a) != [] && b.at + HDR + Take(b, a)[0].size <= |mem| && Take(b, a)[0].size >= a
    ensures View(Take(b, a), TakeMem(mem, b, a), p) ==
      if p == b.at + HDR then Some(mem[p..p + Take(b, a)[0].size]) else None
  {
    var r := Take(b, a);
    var m := TakeMem(mem, b, a);
    var n := r[0].size;
    assert m[b.at + HDR..b.at + HDR + n] == mem[b.at + HDR..b.at + HDR + n];
    if |r| == 2 {
      assert r[1..] == [r[1]];
      FreeBlocksHaveNoView([r[1]], m, p);
    } else {
      assert r[1..] == [];
    }
  }

  lemma TakeFrame(b: Block, a: nat, mem: seq<int>)
    requires b.size >= a && End(b) <= |mem|
    ensures var m := TakeMem(mem, b, a); |m| == |mem| && m[..b.at] == mem[..b.at] && m[End(b)..] == mem[End(b)..]
  {
  }

  lemma {:induction false} FreeBlocksHaveNoView(q: seq<Block>, mem: seq<int>, p: nat)
    requires Fits(q, mem) && forall i | 0 <= i < |q| :: q[i].free || q[i].at + HDR != p
    ensures View(q, mem, p).None?
  {
    if q != [] {
      assert q == [q[0]] + q[1..];
      FreeBlocksHaveNoView(q[1..], mem, p);
    }
  }

  // ------------------------------------------------------------------- malloc

  /**
   `malloc` fails exactly for size zero or when no free block has the rounded size;
   otherwise it returns a pointer that was not live, with at least the rounded size,
   and every payload that was live is untouched.  The payload covers the request if and
   only if rounding it up does not wrap.
   */
  lemma MallocSpec(h: Heap, size: nat, p: nat)
    requires Ok(h) && size < SIZE_T
    ensures var (z, r) := Malloc(h, size);
      && Ok(z) && Fits(z.blocks, z.mem) && Fits(h.blocks, h.mem)
      && (r.None? <==> size == 0 || forall i | 0 <= i < |Init(h.blocks)| :: !(Init(h.blocks)[i].free && Init(h.blocks)[i].size >= AlignUp(size)))
      && (r.None? ==> View(z.blocks, z.mem, p) == View(h.blocks, h.mem, p))
      && (r.Some? ==>
           && View(h.blocks, h.mem, r.value).None?
           && View(z.blocks, z.mem, r.value).Some? && |View(z.blocks, z.mem, r.value).value| >= AlignUp(size)
           && (|View(z.blocks, z.mem, r.value).value| >= size <==> size <= SIZE_T - ALIGN)
           && (p != r.value ==> View(z.blocks, z.mem, p) == View(h.blocks, h.mem, p)))
  {
    hide Tiles, View, EndOf, AlignUp, TakeMem, Fits;
    InitOk(h);
    var q := Init(h.blocks);
    var (z, r) := Malloc(h, size);
    TilesFitHeap(h);
    InitView(h, p);
    var a := AlignUp(size);
    var f := FirstFit(q, a);
    if size != 0 && f.Some? {
      var i := f.value;
      var b := q[i];
      BlockAt(q, i);
      TakeTiles(b, a);
      TakeFrame(b, a, h.mem);
      SpliceOk(q, i, i + 1, Take(b, a), h.mem, z.mem, p);
      SpliceOk(q, i, i + 1, Take(b, a), h.mem, z.mem, r.value);
      TakeView(b, a, h.mem, p);
      TakeView(b, a, h.mem, r.value);
      assert q[i..i + 1] == [b];
      FreeBlocksHaveNoView([b], h.mem, p);
      FreeBlocksHaveNoView([b], h.mem, r.value);
      FreshPointer(q, i, h.mem);
      InitView(h, r.value);
      AlignUpCoversIff(size);
    }
  }

  /** The largest request there is rounds up to nothing: any free block will do, and is far too small. */
  lemma MallocWraps(h: Heap)
    requires Ok(h)
    ensures AlignUp(SIZE_T - 1) == 0
    ensures var (z, r) := Malloc(h, SIZE_T - 1);
      && (r.Some? <==> exists i :: 0 <= i < |Init(h.blocks)| && Init(h.blocks)[i].free)
      && (r.Some? ==> Fits(z.blocks, z.mem) && View(z.blocks, z.mem, r.value).Some?
                      && |View(z.blocks, z.mem, r.value).value| < SIZE_T - 1)
  {
    hide Tiles, View, Fits, Malloc;
    MallocSpec(h, SIZE_T - 1, 0);
    var q := Init(h.blocks);
    forall i | 0 <= i < |q| ensures q[i].free <==> q[i].free && q[i].size >= AlignUp(SIZE_T - 1) {}
    if Malloc(h, SIZE_T - 1).1.Some? { var i :| 0 <= i < |q| && q[i].free && q[i].size >= AlignUp(SIZE_T - 1); }
  }

  /** `malloc`'s pointer is 16-aligned if and only if the first fitting block starts 8 past a multiple of 16. */
  lemma MallocAlignedIff(h: Heap, size: nat)
    requires Ok(h) && Malloc(h, size).1.Some?
    ensures FirstFit(Init(h.blocks), AlignUp(size)).Some?
    ensures Malloc(h, size).1.value % ALIGN == 0 <==> Init(h.blocks)[FirstFit(Init(h.blocks), AlignUp(size)).value].at % ALIGN == 8
  {
  }

  // ------------------------------------------------------------------- words

  /** Every block starts at, and spans, a multiple of eight bytes. */
  predicate Words(q: seq<Block>) {
    forall i | 0 <= i < |q| :: q[i].at % 8 == 0 && q[i].size % 8 == 0
  }

  lemma TakeWords(b: Block, a: nat)
    requires b.at % 8 == 0 && b.size % 8 == 0 && a % 8 == 0
    ensures Words(Take(b, a))
  {
  }

  lemma SpliceWords(q: seq<Block>, i: nat, j: nat, r: seq<Block>)
    requires Words(q) && Words(r) && i <= j <= |q|
    ensures Words(Splice(q, i, j, r))
  {
  }

  lemma MallocWords(h: Heap, size: nat)
    requires Ok(h) && Words(h.blocks)
    ensures Words(Malloc(h, size).0.blocks)
  {
    var q := Init(h.blocks);
    var a := AlignUp(size);
    var f := FirstFit(q, a);
    assert Words(q) && a % 8 == 0;
    if size != 0 && f.Some? {
      TakeWords(q[f.value], a);
      SpliceWords(q, f.value, f.value + 1, Take(q[f.value], a));
    }
  }

  lemma {:induction false} CoalesceWords(q: seq<Block>)
    requires Words(q)
    ensures Words(Coalesce(q))
    decreases |q|
  {
    if |q| >= 2 {
      if q[0].free && q[1].free {
        assert (q[0].size + HDR + q[1].size) % 8 == 0;
        CoalesceWords([Block(q[0].at, q[0].size + HDR + q[1].size, true)] + q[2..]);
      } else {
        CoalesceWords(q[1..]);
      }
    }
  }

  /** Initialising the heap makes nothing live. */
  lemma InitView(h: Heap, p: nat)
    requires Ok(h)
    ensures Fits(h.blocks, h.mem) && Fits(Init(h.blocks), h.mem) && View(Init(h.blocks), h.mem, p) == View(h.blocks, h.mem, p)
  {
    InitOk(h);
    TilesFitHeap(h);
    if h.blocks == [] { FreeBlocksHaveNoView(Init(h.blocks), h.mem, p); }
  }

  lemma AlignUpSpec(size: nat)
    requires size <= SIZE_T - ALIGN
    ensures AlignUp(size) >= size && AlignUp(size) % ALIGN == 0
  {
  }

  /** Rounding up covers the request exactly when adding 15 does not wrap, and else gives zero. */
  lemma AlignUpCoversIff(size: nat)
    requires size < SIZE_T
    ensures AlignUp(size) >= size <==> size <= SIZE_T - ALIGN
    ensures size > SIZE_T - ALIGN ==> AlignUp(size) == 0
  {
  }

  /** Payloads follow a 24-byte header, so they need not have the area's 16-byte alignment. */
  lemma FirstPointerNotAligned(mem: seq<int>, size: nat)
    requires |mem| == HEAP && 0 < size <= HEAP - HDR - ALIGN
    ensures Malloc(Heap([], mem), size).1 == Some(HDR) && HDR % ALIGN != 0
  {
    AlignUpSpec(size);
  }

  lemma TilesFitHeap(h: Heap)
    requires Ok(h)
    ensures Fits(h.blocks, h.mem)
  {
    if h.blocks != [] { TilesFit(h.blocks, h.mem, 0, HEAP); }
  }

  /** The payload address of a free block is not live. */
  lemma FreshPointer(q: seq<Block>, i: nat, mem: seq<int>)
    requires Tiles(q, 0, HEAP) && i < |q| && q[i].free && |mem| == HEAP && Fits(q, mem)
    ensures View(q, mem, q[i].at + HDR).None?
  {
    var p := q[i].at + HDR;
    forall j | 0 <= j < |q| ensures q[j].free || q[j].at + HDR != p {
      if j != i { BlocksApart(q, i, j); }
    }
    FreeBlocksHaveNoView(q, mem, p);
  }

  lemma BlocksApart(q: seq<Block>, i: nat, j: nat)
    requires Tiles(q, 0, HEAP) && i < |q| && j < |q| && i != j
    ensures End(q[i]) <= q[j].at || End(q[j]) <= q[i].at
  {
    var lo, hi := if i < j then i else j, if i < j then j else i;
    BlockAt(q, lo);
    BlockAt(q, hi);
    assert q[..hi] == q[..lo + 1] + q[lo + 1..hi];
    assert q == q[..hi] + q[hi..];
    TilesSplit(q[..hi], q[hi..], 0, HEAP);
    TilesSplit(q[..lo + 1], q[lo + 1..hi], 0, EndOf(q[..hi], 0));
  }

  /** Live payloads never overlap each other or a header. */
  lemma LiveDisjoint(h: Heap, p: nat, r: nat)
    requires Ok(h) && Live(h, p) && Live(h, r) && p != r
    ensures var b := h.blocks[BlockOf(h.blocks, p).value]; var c := h.blocks[BlockOf(h.blocks, r).value];
      End(b) <= c.at || End(c) <= b.at
  {
    BlocksApart(h.blocks, BlockOf(h.blocks, p).value, BlockOf(h.blocks, r).value);
  }
}
