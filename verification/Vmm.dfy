/**
 Regions of user memory (kernel/mm/vmm.c): mapping, unmapping, cloning and
 destroying address spaces, each an area list over a page table.

 User areas lie below 2^47 and on page boundaries, as the callers arrange; the
 64-bit ends of the list operations themselves are treated with the list.
 */
module Vmm {

  import opened Paging
  import opened PagingOps
  import opened VmPages
  import V = Vma

  const USER_TOP: nat := 0x8000_0000_0000

  predicate PageAligned(a: nat) { a % PAGE_SIZE == 0 }

  predicate AreaOk(v: V.Area) {
    PageAligned(v.start) && PageAligned(v.end) && v.end <= USER_TOP
  }

  predicate AreasOk(q: seq<V.Area>) {
    V.Ok(q) && forall i | 0 <= i < |q| :: AreaOk(q[i])
  }

  /** `vma_to_pte_flags`. */
  function PteFlags(f: V.VFlags): Flags {
    Flags(f.write, true, !f.exec, 0)
  }

  function PageCount(lo: nat, hi: nat): nat {
    if hi <= lo then 0 else (hi - lo + PAGE_SIZE - 1) / PAGE_SIZE
  }

  function PageKeys(lo: nat, hi: nat): seq<Key> {
    seq(PageCount(lo, hi), p requires 0 <= p => KeyAt(lo, p))
  }

  /** The pages of a list of areas, in order. */
  function AreaKeys(q: seq<V.Area>): seq<Key> {
    if q == [] then [] else PageKeys(q[0].start, q[0].end) + AreaKeys(q[1..])
  }

  lemma UserKey(a: nat)
    requires a < USER_TOP
    ensures User(KeyOf(a))
  {
    var x := a / PAGE_SIZE;
    assert x < 0x8_0000_0000;
    assert x / 512 < 0x400_0000;
    assert x / 512 / 512 < 0x2_0000;
    assert x / 512 / 512 / 512 < 256;
  }

  /** Below 2^47 a key belongs to one page. */
  lemma PagesDiffer(a: nat, b: nat)
    requires a < USER_TOP && b < USER_TOP && PageAligned(a) && PageAligned(b) && a != b
    ensures KeyOf(a) != KeyOf(b)
  {
    hide KeyOf;
    var x, y := a / PAGE_SIZE, b / PAGE_SIZE;
    assert a == 0 + PAGE_SIZE * x && b == 0 + PAGE_SIZE * y && x < 0x8_0000_0000 && y < 0x8_0000_0000;
    if x < y { KeysDistinct(0, x, y); } else { KeysDistinct(0, y, x); }
  }

  /** Page number `p` of an aligned range. */
  lemma PageIn(lo: nat, hi: nat, p: nat)
    requires PageAligned(lo) && PageAligned(hi) && p < PageCount(lo, hi)
    ensures lo <= lo + PAGE_SIZE * p < hi && PageAligned(lo + PAGE_SIZE * p)
  {
  }

  lemma PageNumber(lo: nat, hi: nat, a: nat) returns (p: nat)
    requires PageAligned(lo) && PageAligned(hi) && PageAligned(a) && lo <= a < hi
    ensures a == lo + PAGE_SIZE * p && p < PageCount(lo, hi)
  {
    p := (a - lo) / PAGE_SIZE;
  }

  /** The page of `lo..hi` at this address, for page-aligned bounds. */
  lemma PageKeysIff(lo: nat, hi: nat, a: nat)
    requires PageAligned(lo) && PageAligned(hi) && hi <= USER_TOP && PageAligned(a) && a < USER_TOP
    ensures KeyOf(a) in PageKeys(lo, hi) <==> lo <= a < hi
  {
    hide KeyOf, PageAligned, PageCount;
    if lo <= a < hi {
      var p := PageNumber(lo, hi, a);
      assert PageKeys(lo, hi)[p] == KeyOf(a);
    }
    forall p | 0 <= p < PageCount(lo, hi) && PageKeys(lo, hi)[p] == KeyOf(a) ensures lo <= a < hi {
      PageIn(lo, hi, p);
      if a != lo + PAGE_SIZE * p { PagesDiffer(a, lo + PAGE_SIZE * p); }
    }
  }

  lemma PageKeysUser(lo: nat, hi: nat)
    requires hi <= USER_TOP
    ensures forall i | 0 <= i < |PageKeys(lo, hi)| :: User(PageKeys(lo, hi)[i])
    ensures forall p | 0 <= p < PageCount(lo, hi) :: User(KeyAt(lo, p)) && lo + PAGE_SIZE * p < hi
  {
    forall p | 0 <= p < PageCount(lo, hi) ensures User(KeyAt(lo, p)) && lo + PAGE_SIZE * p < hi {
      UserKey(lo + PAGE_SIZE * p);
    }
  }

  lemma {:induction false} AreaKeysUser(q: seq<V.Area>)
    requires AreasOk(q)
    ensures forall i | 0 <= i < |AreaKeys(q)| :: User(AreaKeys(q)[i])
  {
    hide User, PageKeys;
    if q != [] {
      assert AreaOk(q[0]);
      PageKeysUser(q[0].start, q[0].end);
      AreaKeysUser(q[1..]);
    }
  }

  /** A page is among an area list's pages exactly when the list has its address. */
  lemma {:induction false} AreaKeysIff(q: seq<V.Area>, a: nat)
    requires AreasOk(q) && PageAligned(a) && a < USER_TOP
    ensures KeyOf(a) in AreaKeys(q) <==> V.FlagsAt(q, a).Some?
  {
    hide KeyOf, PageKeys;
    if q != [] {
      assert AreaOk(q[0]);
      PageKeysIff(q[0].start, q[0].end, a);
      AreaKeysIff(q[1..], a);
    }
  }

  lemma {:induction false} AreaKeysAddress(q: seq<V.Area>, i: nat) returns (a: nat)
    requires AreasOk(q) && i < |AreaKeys(q)|
    ensures PageAligned(a) && a < USER_TOP && KeyOf(a) == AreaKeys(q)[i] && q != [] && q[0].start <= a
  {
    hide KeyOf;
    assert AreaOk(q[0]);
    var n := PageCount(q[0].start, q[0].end);
    if i < n {
      a := q[0].start + PAGE_SIZE * i;
    } else {
      a := AreaKeysAddress(q[1..], i - n);
    }
  }

  predicate Distinct(ks: seq<Key>) {
    forall i, j | 0 <= i < j < |ks| :: ks[i] != ks[j]
  }

  /** No page of an area list occurs twice. */
  lemma {:induction false} AreaKeysDistinct(q: seq<V.Area>)
    requires AreasOk(q)
    ensures Distinct(AreaKeys(q))
  {
    hide KeyOf;
    if q != [] {
      assert AreaOk(q[0]);
      AreaKeysDistinct(q[1..]);
      var n := PageCount(q[0].start, q[0].end);
      forall i, j | 0 <= i < j < |AreaKeys(q)| ensures AreaKeys(q)[i] != AreaKeys(q)[j] {
        if i < n {
          var a := q[0].start + PAGE_SIZE * i;
          var b: nat;
          if j < n {
            b := q[0].start + PAGE_SIZE * j;
          } else {
            b := AreaKeysAddress(q[1..], j - n);
            assert q[0].end <= q[1].start;
          }
          PagesDiffer(a, b);
        }
      }
    }
  }
}
