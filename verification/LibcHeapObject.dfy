/**
 The C library's heap as it runs (lib/libc/src/stdlib.c): list walks over the
 headers and byte copies in the area.
 */
module LibcHeapObject {

  import opened Common
  import opened LibcHeap
  import opened LibcHeapOps
  import opened LibcHeapRuns

  class Arena {
    const area: array<int>
    var blocks: seq<Block>

    constructor ()
      ensures fresh(area) && area.Length == HEAP && blocks == []
    {
      area := new int[HEAP](_ => 0);
      blocks := [];
    }

    ghost function Value(): Heap
      reads this, area
    {
      Heap(blocks, area[..])
    }

    /** Write a new header: its 24 bytes are lost to the payload. */
    method WriteHeader(p: nat)
      requires p + HDR <= area.Length
      modifies area
      ensures area[..] == Scribble(old(area[..]), p)
    {
      var i := 0;
      while i < HDR
        invariant 0 <= i <= HDR
        invariant forall j | 0 <= j < area.Length :: area[j] == if p <= j < p + i then -1 else old(area[j])
      {
        area[p + i] := -1;
        i := i + 1;
      }
    }

    /** The walk of `coalesce_blocks`: merge the current block with its successor, or step past it. */
    method CoalesceBlocks()
      modifies this`blocks
      ensures blocks == Coalesce(old(blocks))
    {
      var done: seq<Block> := [];
      var rest := blocks;
      while |rest| >= 2
        invariant Coalesce(blocks) == done + Coalesce(rest)
        decreases |rest|
      {
        if rest[0].free && rest[1].free {
          rest := [Block(rest[0].at, rest[0].size + HDR + rest[1].size, true)] + rest[2..];
        } else {
          done, rest := done + [rest[0]], rest[1..];
        }
      }
      blocks := done + rest;
    }

    /** Give out (part of) blocks `i..j`, seen as one block `b`. */
    method TakeBlock(i: nat, j: nat, b: Block, a: nat)
      requires area.Length == HEAP && i <= j <= |blocks| && End(b) <= HEAP && b.size >= a
      modifies this`blocks, area
      ensures blocks == Splice(old(blocks), i, j, Take(b, a)) && area[..] == TakeMem(old(area[..]), b, a)
    {
      if b.size >= a + HDR + ALIGN {
        WriteHeader(b.at + HDR + a);
        blocks := blocks[..i] + [Block(b.at, a, false), Block(b.at + HDR + a, b.size - a - HDR, true)] + blocks[j..];
      } else {
        blocks := blocks[..i] + [b.(free := false)] + blocks[j..];
      }
    }

    /** The walk of `malloc`: the first free block that is large enough. */
    method FindFit(a: nat) returns (r: Option<nat>)
      ensures r == FirstFit(blocks, a)
    {
      var i := 0;
      while i < |blocks|
        invariant 0 <= i <= |blocks|
        invariant FirstFit(blocks, a) == var f := FirstFit(blocks[i..], a); if f.None? then None else Some(f.value + i)
      {
        if blocks[i].free && blocks[i].size >= a { return Some(i); }
        assert blocks[i..][1..] == blocks[i + 1..];
        i := i + 1;
      }
      r := None;
    }

    method MallocBytes(size: nat) returns (r: Option<nat>)
      requires area.Length == HEAP && Ok(Value())
      modifies this`blocks, area
      ensures (Value(), r) == Malloc(old(Value()), size)
    {
      hide Tiles, Take, TakeMem, AlignUp;
      if size == 0 { return None; }
      InitOk(Value());
      if blocks == [] { blocks := [Block(0, HEAP - HDR, true)]; }
      var a := AlignUp(size);
      var f := FindFit(a);
      if f.None? { return None; }
      var b := blocks[f.value];
      TakeBlock(f.value, f.value + 1, b, a);
      r := Some(b.at + HDR);
    }

    /** `free` of a live pointer, or of NULL. */
    method FreeBytes(p: Option<nat>)
      requires p.Some? ==> Live(Value(), p.value)
      modifies this`blocks
      ensures Value() == if p.None? then old(Value()) else Free(old(Value()), p.value)
    {
      if p.None? { return; }
      var i := BlockOf(blocks, p.value).value;
      blocks := blocks[i := blocks[i].(free := true)];
      CoalesceBlocks();
    }

    /** `memcpy` between payloads that do not overlap. */
    method CopyBytes(dst: nat, src: nat, n: nat)
      requires dst + n <= area.Length && src + n <= area.Length && (dst + n <= src || src + n <= dst)
      modifies area
      ensures area[..] == Write(old(area[..]), dst, old(area[..])[src..src + n])
    {
      var i := 0;
      while i < n
        invariant 0 <= i <= n
        invariant forall j | 0 <= j < area.Length :: area[j] == if dst <= j < dst + i then old(area[src + (j - dst)]) else old(area[j])
      {
        area[dst + i] := area[src + i];
        i := i + 1;
      }
    }

    /** The moving half of `realloc`. */
    method MoveBytes(p: nat, size: nat) returns (r: Option<nat>)
      requires area.Length == HEAP && Ok(Value()) && Live(Value(), p) && 0 < size < SIZE_T
      requires var i := BlockOf(blocks, p).value; !(blocks[i].size >= AlignUp(size) || CanGrow(blocks, i, AlignUp(size)))
      modifies this`blocks, area
      ensures (Value(), r) == Realloc(old(Value()), p, size)
    {
      hide Tiles, AlignUp, Malloc, Coalesce, Write, Resize, CanGrow;
      ghost var h := Value();
      var b := blocks[BlockOf(blocks, p).value];
      r := MallocBytes(size);
      if r.None? { return; }
      AlignUpCoversIff(size);
      MoveOk(h, p, size);
      MoveApart(h, p, size);
      var n := if b.size < size then b.size else size;
      CopyBytes(r.value, p, n);
      FreeBytes(Some(p));
    }

    method ReallocBytes(p: Option<nat>, size: nat) returns (r: Option<nat>)
      requires area.Length == HEAP && Ok(Value()) && size < SIZE_T
      requires p.Some? ==> Live(Value(), p.value)
      modifies this`blocks, area
      ensures p.None? ==> (Value(), r) == Malloc(old(Value()), size)
      ensures p.Some? && size == 0 ==> Value() == Free(old(Value()), p.value) && r == None
      ensures p.Some? && size > 0 ==> (Value(), r) == Realloc(old(Value()), p.value, size)
    {
      hide Tiles, AlignUp, Malloc, Take, TakeMem, Coalesce, Write, Splice;
      if p.None? {
        r := MallocBytes(size);
        return;
      }
      if size == 0 {
        FreeBytes(p);
        return None;
      }
      var i := BlockOf(blocks, p.value).value;
      var b := blocks[i];
      var a := AlignUp(size);
      BlockAt(blocks, i);
      if b.size >= a {
        TakeBlock(i, i + 1, b, a);
        return p;
      }
      if i + 1 < |blocks| && blocks[i + 1].free && b.size + HDR + blocks[i + 1].size >= a {
        BlockAt(blocks, i + 1);
        TakeBlock(i, i + 2, Block(b.at, b.size + HDR + blocks[i + 1].size, false), a);
        return p;
      }
      r := MoveBytes(p.value, size);
    }
  }

  /** The old and the new payload of a move are apart. */
  lemma MoveApart(h: Heap, p: nat, size: nat)
    requires Ok(h) && Live(h, p) && 0 < size <= SIZE_T - ALIGN && Malloc(h, size).1.Some?
    ensures var (z, r) := Malloc(h, size); var n := Min(h.blocks[BlockOf(h.blocks, p).value].size, size);
      r.value + n <= p || p + n <= r.value
  {
    hide Tiles, View, EndOf, Fits, Malloc, AlignUp;
    var (z, r) := Malloc(h, size);
    MallocSpec(h, size, p);
    MoveOk(h, p, size);
    MallocNotEmpty(h, size);
    OldView(h.blocks, h.mem, p);
    OldView(z.blocks, z.mem, p);
    OldView(z.blocks, z.mem, r.value);
    var b, c := z.blocks[BlockOf(z.blocks, p).value], z.blocks[BlockOf(z.blocks, r.value).value];
    var o := h.blocks[BlockOf(h.blocks, p).value];
    assert |h.mem[p..p + o.size]| == o.size && |z.mem[p..p + b.size]| == b.size;
    assert |z.mem[r.value..r.value + c.size]| == c.size;
    LiveDisjoint(z, p, r.value);
  }
}
