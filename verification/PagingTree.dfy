/**
 Creating and destroying whole page tables: a new top level shares the kernel
 half, and destruction frees each user-half table exactly once.
 */
module PagingTree {

  import opened Common
  import opened Paging

  // -------------------------------------------------------------- creation

  /** The slots of a new top-level table: the kernel half is copied. */
  function NewSlots(m: Mem, kernel: Option<nat>): seq<Entry>
    requires kernel.Some? ==> kernel.value in m.tables && |m.tables[kernel.value].slots| == 512
  {
    if kernel.None? then seq(512, _ => ABSENT)
    else seq(256, _ => ABSENT) + m.tables[kernel.value].slots[256..]
  }

  /** `paging_create_pml4`. */
  function CreateRoot(m: Mem, kernel: Option<nat>): (Mem, Option<nat>)
    requires kernel.Some? ==> kernel.value in m.tables && |m.tables[kernel.value].slots| == 512
  {
    if m.pool == [] then (m, None)
    else (Mem(m.tables[m.pool[0] := Table(4, NewSlots(m, kernel))], m.pool[1..]), Some(m.pool[0]))
  }

  lemma CreateWf(m: Mem, kernel: Option<nat>)
    requires Wf(m) && m.pool != [] && (kernel.Some? ==> IsRoot(m, kernel.value))
    ensures kernel.Some? ==> TableOk(m, kernel.value)
    ensures m.pool[0] !in m.tables && Wf(CreateRoot(m, kernel).0)
  {
    var c := m.pool[0];
    assert c !in m.tables;
    if kernel.Some? { assert TableOk(m, kernel.value); }
    var n := CreateRoot(m, kernel).0;
    assert forall i | 0 <= i && Points(n.tables[c], i) ::
      i >= 256 && kernel.Some? && n.tables[c].slots[i] == m.tables[kernel.value].slots[i] && Points(m.tables[kernel.value], i);
    forall g | g in n.tables ensures TableOk(n, g) {
      if g != c { assert TableOk(m, g); }
    }
    forall f, a, g, b |
      && f in n.tables && g in n.tables && 0 <= a && 0 <= b && Points(n.tables[f], a) && Points(n.tables[g], b)
      && n.tables[f].slots[a].frame == n.tables[g].slots[b].frame
      ensures (f == g && a == b) || Shared(n.tables[f], a, b)
    {
      var f' := if f == c then kernel.value else f;
      var g' := if g == c then kernel.value else g;
      assert Points(m.tables[f'], a) && Points(m.tables[g'], b);
    }
  }

  lemma {:induction false} CreateKeeps(m: Mem, kernel: Option<nat>, g: nat, k: Key)
    requires Wf(m) && m.pool != [] && (kernel.Some? ==> IsRoot(m, kernel.value)) && g in m.tables
    ensures kernel.Some? ==> TableOk(m, kernel.value)
    ensures var n := CreateRoot(m, kernel).0;
      Wf(n) && g in n.tables && n.tables[g] == m.tables[g]
      && Trans(n, g, k) == Trans(m, g, k) && PathFlags(n, g, k) == PathFlags(m, g, k) && Huge(n, g, k) == Huge(m, g, k)
    decreases m.tables[g].level
  {
    hide Injective;
    CreateWf(m, kernel);
    assert TableOk(m, g);
    var T := m.tables[g];
    if Points(T, IdxAt(k, T.level)) { CreateKeeps(m, kernel, T.slots[IdxAt(k, T.level)].frame, k); }
  }

  /**
   A new address space maps nothing in the user half, where every path is fully
   permissive, and translates the kernel half as the kernel does; the others are
   as before.
   */
  lemma CreateSpec(m: Mem, kernel: Option<nat>, r: nat, k: Key)
    requires Wf(m) && m.pool != [] && (kernel.Some? ==> IsRoot(m, kernel.value))
    ensures kernel.Some? ==> TableOk(m, kernel.value)
    ensures var (n, c) := CreateRoot(m, kernel);
      && Wf(n) && c == Some(m.pool[0]) && c.value !in m.tables && IsRoot(n, c.value)
      && (k.i4 < 256 || kernel.None? ==>
            Trans(n, c.value, k) == NoMap && PathFlags(n, c.value, k) == OPEN && !Huge(n, c.value, k))
      && (k.i4 >= 256 && kernel.Some? ==> Trans(n, c.value, k) == Trans(m, kernel.value, k))
      && (IsRoot(m, r) ==> IsRoot(n, r) && Trans(n, r, k) == Trans(m, r, k))
  {
    hide Injective;
    CreateWf(m, kernel);
    var n := CreateRoot(m, kernel).0;
    var c := m.pool[0];
    assert TableOk(n, c);
    if IsRoot(m, r) { CreateKeeps(m, kernel, r, k); }
    if kernel.Some? {
      var T := m.tables[kernel.value];
      CreateKeeps(m, kernel, kernel.value, k);
      assert k.i4 >= 256 ==> n.tables[c].slots[k.i4] == T.slots[k.i4];
    }
  }

  // ------------------------------------------------------------ destruction

  /** Tables freed for the entries `lo..hi` of table `f`, in the order of the nested loops. */
  ghost function FreedIn(m: Mem, f: nat, lo: nat, hi: nat): seq<nat>
    requires Wf(m) && f in m.tables && lo <= hi <= 512
    decreases m.tables[f].level, hi - lo
  {
    if lo == hi then []
    else
      assert TableOk(m, f);
      var T := m.tables[f];
      (if Points(T, lo) then FreedIn(m, T.slots[lo].frame, 0, 512) + [T.slots[lo].frame] else [])
      + FreedIn(m, f, lo + 1, hi)
  }

  /** `paging_destroy_pml4`: everything below the user half, then the top level. */
  ghost function Freed(m: Mem, root: nat): seq<nat>
    requires Wf(m) && IsRoot(m, root)
  {
    FreedIn(m, root, 0, 256) + [root]
  }

  /** `x` is table `c` or lies below it. */
  ghost predicate Under(m: Mem, c: nat, x: nat)
    requires Wf(m) && c in m.tables
    decreases m.tables[c].level
  {
    assert TableOk(m, c);
    x == c || exists i | 0 <= i < 512 && Points(m.tables[c], i) :: Under(m, m.tables[c].slots[i].frame, x)
  }

  /** `x` lies below one of the entries `lo..hi` of `f`. */
  ghost predicate Below(m: Mem, f: nat, lo: nat, hi: nat, x: nat)
    requires Wf(m) && f in m.tables && hi <= 512
  {
    assert TableOk(m, f);
    exists i | lo <= i < hi && Points(m.tables[f], i) :: Under(m, m.tables[f].slots[i].frame, x)
  }

  lemma {:induction false} UnderLevel(m: Mem, c: nat, x: nat)
    requires Wf(m) && c in m.tables && Under(m, c, x)
    ensures x in m.tables && m.tables[x].level <= m.tables[c].level
    ensures x != c ==> m.tables[x].level < m.tables[c].level
    decreases m.tables[c].level
  {
    hide Injective;
    assert TableOk(m, c);
    if x != c {
      var i :| 0 <= i < 512 && Points(m.tables[c], i) && Under(m, m.tables[c].slots[i].frame, x);
      UnderLevel(m, m.tables[c].slots[i].frame, x);
    }
  }

  /** Below the top level the tables form a forest: nothing lies under two tables of one level. */
  lemma {:induction false} UnderUnique(m: Mem, c: nat, d: nat, x: nat)
    requires Wf(m) && c in m.tables && d in m.tables && m.tables[c].level == m.tables[d].level <= 3
    requires Under(m, c, x) && Under(m, d, x)
    ensures c == d
    decreases m.tables[c].level
  {
    assert TableOk(m, c) && TableOk(m, d);
    UnderLevel(m, c, x);
    UnderLevel(m, d, x);
    if x != c && x != d {
      var i :| 0 <= i < 512 && Points(m.tables[c], i) && Under(m, m.tables[c].slots[i].frame, x);
      var j :| 0 <= j < 512 && Points(m.tables[d], j) && Under(m, m.tables[d].slots[j].frame, x);
      UnderUnique(m, m.tables[c].slots[i].frame, m.tables[d].slots[j].frame, x);
    }
  }

  /** The nested loops free exactly what lies below. */
  lemma {:induction false} FreedInIff(m: Mem, f: nat, lo: nat, hi: nat, x: nat)
    requires Wf(m) && f in m.tables && lo <= hi <= 512
    ensures x in FreedIn(m, f, lo, hi) <==> Below(m, f, lo, hi, x)
    decreases m.tables[f].level, hi - lo
  {
    hide Injective, PoolOk;
    if lo < hi {
      assert TableOk(m, f);
      var T := m.tables[f];
      FreedInIff(m, f, lo + 1, hi, x);
      if Points(T, lo) {
        FreedInIff(m, T.slots[lo].frame, 0, 512, x);
        assert TableOk(m, T.slots[lo].frame);
        assert Under(m, T.slots[lo].frame, x) <==> x == T.slots[lo].frame || Below(m, T.slots[lo].frame, 0, 512, x);
      }
      assert Below(m, f, lo, hi, x) <==> (Points(T, lo) && Under(m, T.slots[lo].frame, x)) || Below(m, f, lo + 1, hi, x);
    }
  }

  lemma NoDupConcat(a: seq<nat>, b: seq<nat>)
    requires NoDup(a) && NoDup(b) && forall x | x in a :: x !in b
    ensures NoDup(a + b)
  {
    forall i, j | 0 <= i < j < |a + b| ensures (a + b)[i] != (a + b)[j] {
      if i < |a| <= j { assert a[i] in a && b[j - |a|] in b; }
    }
  }

  /** Nothing is freed twice. */
  lemma {:induction false} FreedInOnce(m: Mem, f: nat, lo: nat, hi: nat)
    requires Wf(m) && f in m.tables && lo <= hi <= (if m.tables[f].level == 4 then 256 else 512)
    ensures NoDup(FreedIn(m, f, lo, hi)) && f !in FreedIn(m, f, lo, hi)
    decreases m.tables[f].level, hi - lo
  {
    hide Under, Below, NoDup, Injective, PoolOk;
    FreedInIff(m, f, lo, hi, f);
    NotBelowSelf(m, f, lo, hi);
    if lo == hi {
      NoDupNil();
    } else {
      assert TableOk(m, f);
      var T := m.tables[f];
      var rest := FreedIn(m, f, lo + 1, hi);
      FreedInOnce(m, f, lo + 1, hi);
      if Points(T, lo) {
        var c := T.slots[lo].frame;
        FreedInOnce(m, c, 0, 512);
        NoDupNil();
        NoDupConcat(FreedIn(m, c, 0, 512), [c]);
        forall x | x in FreedIn(m, c, 0, 512) + [c] ensures x !in rest {
          FreedInIff(m, c, 0, 512, x);
          FreedInIff(m, f, lo + 1, hi, x);
          DisjointBelow(m, f, lo, hi, x);
        }
        NoDupConcat(FreedIn(m, c, 0, 512) + [c], rest);
      } else {
        assert [] + rest == rest;
      }
    }
  }

  lemma NoDupNil()
    ensures NoDup([]) && forall x: nat :: NoDup([x])
  {
  }

  lemma NotBelowSelf(m: Mem, f: nat, lo: nat, hi: nat)
    requires Wf(m) && f in m.tables && hi <= 512
    ensures !Below(m, f, lo, hi, f)
  {
    hide Injective;
    assert TableOk(m, f);
    forall i | lo <= i < hi && Points(m.tables[f], i) ensures !Under(m, m.tables[f].slots[i].frame, f) {
      if Under(m, m.tables[f].slots[i].frame, f) { UnderLevel(m, m.tables[f].slots[i].frame, f); }
    }
  }

  lemma DisjointBelow(m: Mem, f: nat, lo: nat, hi: nat, x: nat)
    requires Wf(m) && f in m.tables && lo < hi <= (if m.tables[f].level == 4 then 256 else 512)
    requires TableOk(m, f) && Points(m.tables[f], lo)
    requires x == m.tables[f].slots[lo].frame || Below(m, m.tables[f].slots[lo].frame, 0, 512, x)
    ensures !Below(m, f, lo + 1, hi, x)
  {
    var c := m.tables[f].slots[lo].frame;
    assert TableOk(m, c) && Under(m, c, x);
    forall i | lo + 1 <= i < hi && Points(m.tables[f], i) ensures !Under(m, m.tables[f].slots[i].frame, x) {
      if Under(m, m.tables[f].slots[i].frame, x) { UnderUnique(m, c, m.tables[f].slots[i].frame, x); }
    }
  }

  /** Give a list of tables back to the pool. */
  function Release(m: Mem, q: seq<nat>): Mem {
    Mem(m.tables - (set x | x in q), m.pool + q)
  }

  ghost function DestroyRoot(m: Mem, root: nat): Mem
    requires Wf(m) && IsRoot(m, root)
  {
    Release(m, Freed(m, root))
  }

  /** What is freed: the top level and the tables below its user half. */
  lemma FreedIff(m: Mem, root: nat, x: nat)
    requires Wf(m) && IsRoot(m, root)
    ensures x in Freed(m, root) <==> x == root || Below(m, root, 0, 256, x)
    ensures x in Freed(m, root) ==> x in m.tables
  {
    hide Injective;
    FreedInIff(m, root, 0, 256, x);
    if Below(m, root, 0, 256, x) {
      assert TableOk(m, root);
      var i :| 0 <= i < 256 && Points(m.tables[root], i) && Under(m, m.tables[root].slots[i].frame, x);
      UnderLevel(m, m.tables[root].slots[i].frame, x);
    }
  }

  /** Whoever points into a subtree below the top level is its owner or inside it. */
  lemma {:induction false} PointerInside(m: Mem, c: nat, g: nat, j: nat)
    requires Wf(m) && c in m.tables && m.tables[c].level <= 3 && g in m.tables && Points(m.tables[g], j)
    requires Under(m, c, m.tables[g].slots[j].frame) && m.tables[g].slots[j].frame != c
    ensures Under(m, c, g)
    decreases m.tables[c].level
  {
    assert TableOk(m, c) && TableOk(m, g);
    var x := m.tables[g].slots[j].frame;
    var i :| 0 <= i < 512 && Points(m.tables[c], i) && Under(m, m.tables[c].slots[i].frame, x);
    var d := m.tables[c].slots[i].frame;
    if x == d {
      assert g == c;
    } else {
      PointerInside(m, d, g, j);
    }
  }

  /** A table that stays has no pointer to one that goes. */
  lemma StaysClear(m: Mem, root: nat, g: nat, j: nat)
    requires Wf(m) && IsRoot(m, root) && g in m.tables && g !in Freed(m, root) && Points(m.tables[g], j)
    ensures m.tables[g].slots[j].frame !in Freed(m, root)
  {
    assert TableOk(m, g) && TableOk(m, root);
    var x := m.tables[g].slots[j].frame;
    FreedIff(m, root, x);
    FreedIff(m, root, g);
    if Below(m, root, 0, 256, x) {
      var i :| 0 <= i < 256 && Points(m.tables[root], i) && Under(m, m.tables[root].slots[i].frame, x);
      var c := m.tables[root].slots[i].frame;
      if x != c { PointerInside(m, c, g, j); }
    }
  }

  lemma DestroyWf(m: Mem, root: nat)
    requires Wf(m) && IsRoot(m, root)
    ensures Wf(DestroyRoot(m, root))
  {
    var n := DestroyRoot(m, root);
    var q := Freed(m, root);
    forall x | x in q ensures x in m.tables { FreedIff(m, root, x); }
    forall g | g in n.tables ensures TableOk(n, g) {
      assert TableOk(m, g);
      forall j | 0 <= j && Points(n.tables[g], j) ensures n.tables[g].slots[j].frame in n.tables {
        StaysClear(m, root, g, j);
      }
    }
    FreedInOnce(m, root, 0, 256);
    forall f, a, g, b |
      && f in n.tables && g in n.tables && 0 <= a && 0 <= b && Points(n.tables[f], a) && Points(n.tables[g], b)
      && n.tables[f].slots[a].frame == n.tables[g].slots[b].frame
      ensures (f == g && a == b) || Shared(n.tables[f], a, b)
    {
      assert Points(m.tables[f], a) && Points(m.tables[g], b);
    }
  }

  lemma {:induction false} DestroyKeeps(m: Mem, root: nat, g: nat, k: Key)
    requires Wf(m) && IsRoot(m, root) && g in m.tables && g !in Freed(m, root)
    ensures Wf(DestroyRoot(m, root)) && g in DestroyRoot(m, root).tables
    ensures Trans(DestroyRoot(m, root), g, k) == Trans(m, g, k)
    ensures PathFlags(DestroyRoot(m, root), g, k) == PathFlags(m, g, k)
    ensures Huge(DestroyRoot(m, root), g, k) == Huge(m, g, k)
    decreases m.tables[g].level
  {
    hide Injective, Freed;
    DestroyWf(m, root);
    assert TableOk(m, g);
    var T := m.tables[g];
    var j := IdxAt(k, T.level);
    if Points(T, j) {
      StaysClear(m, root, g, j);
      DestroyKeeps(m, root, T.slots[j].frame, k);
    }
  }

  /**
   Destroying an address space frees each of its user-half tables, and its top
   level, exactly once, keeps the rest well formed and leaves every translation
   of every other address space as it was.
   */
  lemma DestroySpec(m: Mem, root: nat, r: nat, k: Key)
    requires Wf(m) && IsRoot(m, root) && IsRoot(m, r) && r != root
    ensures NoDup(Freed(m, root)) && (forall x | x in Freed(m, root) :: x in m.tables)
    ensures forall x :: x in Freed(m, root) <==> x == root || Below(m, root, 0, 256, x)
    ensures var n := DestroyRoot(m, root);
      Wf(n) && n.pool == m.pool + Freed(m, root) && IsRoot(n, r) && Trans(n, r, k) == Trans(m, r, k)
  {
    FreedInOnce(m, root, 0, 256);
    NoDupConcat(FreedIn(m, root, 0, 256), [root]);
    forall x ensures x in Freed(m, root) <==> x == root || Below(m, root, 0, 256, x)
             ensures x in Freed(m, root) ==> x in m.tables {
      FreedIff(m, root, x);
    }
    RootStays(m, root, r);
    DestroyKeeps(m, root, r, k);
  }

  lemma RootStays(m: Mem, root: nat, r: nat)
    requires Wf(m) && IsRoot(m, root) && IsRoot(m, r) && r != root
    ensures r !in Freed(m, root)
  {
    hide Injective;
    FreedIff(m, root, r);
    assert TableOk(m, root);
    if Below(m, root, 0, 256, r) {
      var i :| 0 <= i < 256 && Points(m.tables[root], i) && Under(m, m.tables[root].slots[i].frame, r);
      UnderLevel(m, m.tables[root].slots[i].frame, r);
    }
  }

  // The loops free one entry's subtree after another.

  ghost function Subtree(m: Mem, f: nat, i: nat): seq<nat>
    requires Wf(m) && f in m.tables && i < 512
  {
    assert TableOk(m, f);
    var T := m.tables[f];
    if Points(T, i) then FreedIn(m, T.slots[i].frame, 0, 512) + [T.slots[i].frame] else []
  }

  lemma {:induction false} FreedSplit(m: Mem, f: nat, lo: nat, hi: nat)
    requires Wf(m) && f in m.tables && lo <= hi < 512
    ensures FreedIn(m, f, lo, hi + 1) == FreedIn(m, f, lo, hi) + Subtree(m, f, hi)
    decreases hi - lo
  {
    if lo == hi {
      assert FreedIn(m, f, hi, hi + 1) == Subtree(m, f, hi) + FreedIn(m, f, hi + 1, hi + 1);
    } else {
      FreedSplit(m, f, lo + 1, hi);
      assert Subtree(m, f, lo) + (FreedIn(m, f, lo + 1, hi) + Subtree(m, f, hi))
          == (Subtree(m, f, lo) + FreedIn(m, f, lo + 1, hi)) + Subtree(m, f, hi);
    }
  }

  lemma LaterNotEarlier(q: seq<nat>, r: seq<nat>, x: nat)
    requires NoDup(q + r) && x in r
    ensures x !in q && x in q + r
  {
    var j :| 0 <= j < |r| && r[j] == x;
    assert (q + r)[|q| + j] == x;
    forall i | 0 <= i < |q| ensures q[i] != x { assert (q + r)[i] == q[i]; }
  }

  /** When the loops reach an entry, nothing of its subtree has been freed. */
  lemma SubtreeIntact(m: Mem, f: nat, i: nat, x: nat)
    requires Wf(m) && f in m.tables && i < (if m.tables[f].level == 4 then 256 else 512)
    requires TableOk(m, f) && Points(m.tables[f], i) && Under(m, m.tables[f].slots[i].frame, x)
    ensures x !in FreedIn(m, f, 0, i) && x != f && Under(m, f, x)
  {
    hide Injective, PoolOk;
    var c := m.tables[f].slots[i].frame;
    FreedInOnce(m, f, 0, i + 1);
    FreedSplit(m, f, 0, i);
    FreedInIff(m, c, 0, 512, x);
    assert TableOk(m, c);
    assert Under(m, f, x);
    assert x in Subtree(m, f, i);
    LaterNotEarlier(FreedIn(m, f, 0, i), Subtree(m, f, i), x);
  }
}
