/**
 The C library's heap (lib/libc/src/stdlib.c): block headers in place in a static
 area of 128 KiB, first fit, split and coalesce.

 A block record stands for the 24 header bytes at its address; writing a new header
 destroys what those bytes held.  An empty block list is the heap before its first
 use.  Pointers are offsets into the area.
 */
module LibcHeap {

  import opened Common

  const HEAP: nat := 131072
  const HDR: nat := 24
  const ALIGN: nat := 16
  const SIZE_T: nat := 0x1_0000_0000_0000_0000

  datatype Block = Block(at: nat, size: nat, free: bool)

  datatype Heap = Heap(blocks: seq<Block>, mem: seq<int>)

  function AlignUp(n: nat): nat {
    (n + ALIGN - 1) % SIZE_T / ALIGN * ALIGN
  }

  function End(b: Block): nat { b.at + HDR + b.size }

  // ------------------------------------------------------------------ tiling

  /** The blocks cover `lo..hi` without gap or overlap. */
  predicate Tiles(q: seq<Block>, lo: nat, hi: nat) {
    if q == [] then lo == hi else q[0].at == lo && End(q[0]) <= hi && Tiles(q[1..], End(q[0]), hi)
  }

  function EndOf(q: seq<Block>, lo: nat): nat {
    if q == [] then lo else EndOf(q[1..], End(q[0]))
  }

  predicate Ok(h: Heap) {
    |h.mem| == HEAP && (h.blocks == [] || Tiles(h.blocks, 0, HEAP))
  }

  lemma {:induction false} TilesSplit(a: seq<Block>, b: seq<Block>, lo: nat, hi: nat)
    requires Tiles(a + b, lo, hi)
    ensures Tiles(a, lo, EndOf(a, lo)) && Tiles(b, EndOf(a, lo), hi) && lo <= EndOf(a, lo) <= hi
  {
    TilesBounds(a + b, lo, hi);
    if a == [] {
      assert a + b == b;
    } else {
      assert (a + b)[0] == a[0] && (a + b)[1..] == a[1..] + b;
      TilesSplit(a[1..], b, End(a[0]), hi);
      TilesWiden(a[1..], End(a[0]));
    }
  }

  lemma {:induction false} TilesWiden(q: seq<Block>, lo: nat)
    requires Tiles(q, lo, EndOf(q, lo))
    ensures lo <= EndOf(q, lo)
  {
    TilesBounds(q, lo, EndOf(q, lo));
  }

  lemma {:induction false} TilesBounds(q: seq<Block>, lo: nat, hi: nat)
    requires Tiles(q, lo, hi)
    ensures lo <= hi && EndOf(q, lo) == hi
    ensures forall b | b in q :: lo <= b.at && End(b) <= hi
  {
    if q != [] { TilesBounds(q[1..], End(q[0]), hi); }
  }

  lemma {:induction false} TilesJoin(a: seq<Block>, b: seq<Block>, lo: nat, mid: nat, hi: nat)
    requires Tiles(a, lo, mid) && Tiles(b, mid, hi)
    ensures Tiles(a + b, lo, hi)
  {
    TilesBounds(b, mid, hi);
    if a == [] {
      assert a + b == b;
    } else {
      assert (a + b)[0] == a[0] && (a + b)[1..] == a[1..] + b;
      TilesBounds(a[1..], End(a[0]), mid);
      TilesJoin(a[1..], b, End(a[0]), mid, hi);
    }
  }

  // ------------------------------------------------------------ live payloads

  function Payload(mem: seq<int>, b: Block): seq<int>
    requires End(b) <= |mem|
  {
    mem[b.at + HDR..End(b)]
  }

  /** The bytes a live pointer refers to; None for any other pointer. */
  function View(q: seq<Block>, mem: seq<int>, p: nat): Option<seq<int>>
    requires Fits(q, mem)
  {
    if q == [] then None
    else if !q[0].free && q[0].at + HDR == p then Some(Payload(mem, q[0]))
    else View(q[1..], mem, p)
  }

  predicate Fits(q: seq<Block>, mem: seq<int>) {
    forall i | 0 <= i < |q| :: End(q[i]) <= |mem|
  }

  lemma TilesFit(q: seq<Block>, mem: seq<int>, lo: nat, hi: nat)
    requires Tiles(q, lo, hi) && hi <= |mem|
    ensures Fits(q, mem)
  {
    TilesBounds(q, lo, hi);
    forall i | 0 <= i < |q| ensures End(q[i]) <= |mem| { assert q[i] in q; }
  }

  lemma {:induction false} ViewConcat(a: seq<Block>, b: seq<Block>, mem: seq<int>, p: nat)
    requires Fits(a + b, mem)
    ensures Fits(a, mem) && Fits(b, mem)
    ensures View(a + b, mem, p) == if View(a, mem, p).Some? then View(a, mem, p) else View(b, mem, p)
  {
    forall i | 0 <= i < |a| ensures End(a[i]) <= |mem| { assert (a + b)[i] == a[i]; }
    forall i | 0 <= i < |b| ensures End(b[i]) <= |mem| { assert (a + b)[|a| + i] == b[i]; }
    if a == [] {
      assert a + b == b;
    } else {
      assert (a + b)[0] == a[0] && (a + b)[1..] == a[1..] + b;
      ViewConcat(a[1..], b, mem, p);
    }
  }

  /** Pointers belong to the stretch their blocks tile. */
  lemma {:induction false} ViewWithin(q: seq<Block>, mem: seq<int>, lo: nat, hi: nat, p: nat)
    requires Tiles(q, lo, hi) && hi <= |mem| && Fits(q, mem)
    ensures View(q, mem, p).Some? ==> lo + HDR <= p && p + |View(q, mem, p).value| <= hi && View(q, mem, p).value == mem[p..p + |View(q, mem, p).value|]
  {
    if q != [] {
      TilesBounds(q[1..], End(q[0]), hi);
      ViewWithin(q[1..], mem, End(q[0]), hi, p);
    }
  }

  lemma SubSlice(s: seq<int>, lo: nat, hi: nat, a: nat, b: nat)
    requires lo <= a <= b <= hi <= |s|
    ensures s[lo..hi][a - lo..b - lo] == s[a..b]
  {
    var t := s[lo..hi];
    assert |t[a - lo..b - lo]| == |s[a..b]|;
    forall i | 0 <= i < b - a ensures t[a - lo..b - lo][i] == s[a..b][i] {
      assert t[a - lo + i] == s[a + i];
    }
  }

  /** Changing bytes elsewhere changes no payload here. */
  lemma {:induction false} ViewFrame(q: seq<Block>, mem: seq<int>, mem': seq<int>, lo: nat, hi: nat, p: nat)
    requires Tiles(q, lo, hi) && hi <= |mem| == |mem'| && Fits(q, mem) && mem[lo..hi] == mem'[lo..hi]
    ensures View(q, mem', p) == View(q, mem, p)
  {
    if q != [] {
      TilesBounds(q[1..], End(q[0]), hi);
      SubSlice(mem, lo, hi, lo + HDR, End(q[0]));
      SubSlice(mem', lo, hi, lo + HDR, End(q[0]));
      SubSlice(mem, lo, hi, End(q[0]), hi);
      SubSlice(mem', lo, hi, End(q[0]), hi);
      ViewFrame(q[1..], mem, mem', End(q[0]), hi, p);
    }
  }

  // --------------------------------------------------------------- coalescing

  /** `coalesce_blocks`. */
  function Coalesce(q: seq<Block>): seq<Block>
    decreases |q|
  {
    if |q| < 2 then q
    else if q[0].free && q[1].free then Coalesce([Block(q[0].at, q[0].size + HDR + q[1].size, true)] + q[2..])
    else [q[0]] + Coalesce(q[1..])
  }

  predicate NoFreePair(q: seq<Block>) {
    forall i | 0 < i < |q| :: !(q[i - 1].free && q[i].free)
  }

  lemma {:induction false} CoalesceTiles(q: seq<Block>, lo: nat, hi: nat)
    requires Tiles(q, lo, hi)
    ensures Tiles(Coalesce(q), lo, hi)
    decreases |q|
  {
    if |q| >= 2 {
      assert q[1..][0] == q[1] && q[1..][1..] == q[2..];
      if q[0].free && q[1].free {
        var r := [Block(q[0].at, q[0].size + HDR + q[1].size, true)] + q[2..];
        assert r[1..] == q[2..];
        CoalesceTiles(r, lo, hi);
      } else {
        CoalesceTiles(q[1..], End(q[0]), hi);
        var r := Coalesce(q[1..]);
        assert ([q[0]] + r)[1..] == r;
      }
    }
  }

  /** Merging free blocks moves no live payload. */
  lemma {:induction false} CoalesceView(q: seq<Block>, mem: seq<int>, lo: nat, hi: nat, p: nat)
    requires Tiles(q, lo, hi) && hi <= |mem| && Fits(q, mem) && Fits(Coalesce(q), mem)
    ensures View(Coalesce(q), mem, p) == View(q, mem, p)
    decreases |q|
  {
    if |q| >= 2 {
      assert q[1..][0] == q[1] && q[1..][1..] == q[2..];
      if q[0].free && q[1].free {
        var r := [Block(q[0].at, q[0].size + HDR + q[1].size, true)] + q[2..];
        assert r[1..] == q[2..];
        TilesFit(r, mem, lo, hi);
        CoalesceView(r, mem, lo, hi, p);
      } else {
        CoalesceTiles(q[1..], End(q[0]), hi);
        TilesFit(Coalesce(q[1..]), mem, End(q[0]), hi);
        CoalesceView(q[1..], mem, End(q[0]), hi, p);
        assert ([q[0]] + Coalesce(q[1..]))[1..] == Coalesce(q[1..]);
      }
    }
  }

  /** No two neighbours are left free, and a used first block stays first. */
  lemma {:induction false} CoalescePairs(q: seq<Block>)
    ensures NoFreePair(Coalesce(q)) && (q != [] ==> Coalesce(q) != [] && Coalesce(q)[0].free == q[0].free)
    ensures q == [] ==> Coalesce(q) == []
    decreases |q|
  {
    if |q| >= 2 {
      if q[0].free && q[1].free {
        CoalescePairs([Block(q[0].at, q[0].size + HDR + q[1].size, true)] + q[2..]);
      } else {
        CoalescePairs(q[1..]);
        var r := Coalesce(q[1..]);
        forall i | 0 < i < |[q[0]] + r| ensures !(([q[0]] + r)[i - 1].free && ([q[0]] + r)[i].free) {
          if i > 1 { assert !(r[i - 2].free && r[i - 1].free); }
        }
      }
    }
  }
}
