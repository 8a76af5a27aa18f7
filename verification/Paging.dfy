/**
 The x86-64 four-level page tables (kernel/arch/x86_64/mm/paging.c) as values:
 frames holding tables of 512 entries and a pool of free frames.

 A table carries its level, which the program knows from where it reached it.
 `Trans` is the processor's walk (Intel SDM volume 3A, section 4.5), including
 1 GiB and 2 MiB pages, which this code never creates but may meet.
 */
module Paging {

  import opened Common

  type Idx = i: nat | i < 512

  /** The bits of an entry that are not PRESENT, HUGE or the address. */
  datatype Flags = Flags(writable: bool, user: bool, noExec: bool, rest: nat)

  const OPEN: Flags := Flags(true, true, false, 0)

  datatype Entry = Entry(present: bool, huge: bool, frame: nat, flags: Flags)

  const ABSENT: Entry := Entry(false, false, 0, Flags(false, false, false, 0))

  datatype Table = Table(level: nat, slots: seq<Entry>)

  datatype Mem = Mem(tables: map<nat, Table>, pool: seq<nat>)

  /** The four indices of a virtual address. */
  datatype Key = Key(i4: Idx, i3: Idx, i2: Idx, i1: Idx)

  datatype Xlat = NoMap | Page(frame: nat, flags: Flags)

  const PAGE_SIZE: nat := 4096
  const U64: nat := 0x1_0000_0000_0000_0000

  /** Nine bits per level above the twelve of the page offset. */
  function KeyOf(virt: nat): Key {
    KeyOfPage(virt / PAGE_SIZE)
  }

  function KeyOfPage(x: nat): Key {
    Key(x / 512 / 512 / 512 % 512, x / 512 / 512 % 512, x / 512 % 512, x % 512)
  }

  function IdxAt(k: Key, level: nat): Idx {
    if level == 4 then k.i4 else if level == 3 then k.i3 else if level == 2 then k.i2 else k.i1
  }

  // ------------------------------------------------------- well-formedness

  /** The entry leads to a table one level down; level 4 has no huge pages. */
  predicate Points(T: Table, i: nat) {
    T.level > 1 && i < |T.slots| && T.slots[i].present && (T.level == 4 || !T.slots[i].huge)
  }

  ghost predicate TableOk(m: Mem, f: nat)
    requires f in m.tables
  {
    var T := m.tables[f];
    && |T.slots| == 512 && 1 <= T.level <= 4
    && forall i | 0 <= i && Points(T, i) ::
         T.slots[i].frame in m.tables && m.tables[T.slots[i].frame].level == T.level - 1
  }

  /** Only whole kernel-half entries of top-level tables are shared. */
  predicate Shared(T: Table, i: nat, j: nat) {
    T.level == 4 && i == j >= 256
  }

  ghost predicate Injective(m: Mem) {
    forall f, i, g, j |
      && f in m.tables && g in m.tables && 0 <= i && 0 <= j
      && Points(m.tables[f], i) && Points(m.tables[g], j)
      && m.tables[f].slots[i].frame == m.tables[g].slots[j].frame
      :: (f == g && i == j) || Shared(m.tables[f], i, j)
  }

  predicate PoolOk(m: Mem) {
    && (forall i, j | 0 <= i < j < |m.pool| :: m.pool[i] != m.pool[j])
    && (forall i | 0 <= i < |m.pool| :: m.pool[i] !in m.tables)
  }

  ghost predicate Wf(m: Mem) {
    && (forall f | f in m.tables :: TableOk(m, f))
    && Injective(m)
    && PoolOk(m)
  }

  ghost predicate IsRoot(m: Mem, r: nat) {
    r in m.tables && m.tables[r].level == 4
  }

  // ----------------------------------------------------------------- walks

  function Meet(a: Flags, b: Flags): Flags {
    Flags(a.writable && b.writable, a.user && b.user, a.noExec || b.noExec, b.rest)
  }

  function Narrow(a: Flags, x: Xlat): Xlat {
    if x.NoMap? then NoMap else Page(x.frame, Meet(a, x.flags))
  }

  /** The part of a huge page's frame number that the lower indices supply. */
  function Offset(k: Key, level: nat): nat {
    if level == 3 then k.i2 * 512 + k.i1 else k.i1
  }

  /** The processor's translation of a key below table `f`. */
  ghost function Trans(m: Mem, f: nat, k: Key): Xlat
    requires Wf(m) && f in m.tables
    decreases m.tables[f].level
  {
    assert TableOk(m, f);
    var T := m.tables[f];
    var i := IdxAt(k, T.level);
    var e := T.slots[i];
    if !e.present then NoMap
    else if T.level == 1 then Page(e.frame, e.flags)
    else if Points(T, i) then Narrow(e.flags, Trans(m, e.frame, k))
    else Page(e.frame + Offset(k, T.level), e.flags)
  }

  /** The level-1 table that holds the key's entry, if there is one. */
  ghost function Leaf(m: Mem, f: nat, k: Key): Option<nat>
    requires Wf(m) && f in m.tables
    decreases m.tables[f].level
  {
    assert TableOk(m, f);
    var T := m.tables[f];
    if T.level == 1 then Some(f)
    else if Points(T, IdxAt(k, T.level)) then Leaf(m, T.slots[IdxAt(k, T.level)].frame, k)
    else None
  }

  /** The permissions that the upper levels allow on the key's path; a missing level allows all. */
  ghost function PathFlags(m: Mem, f: nat, k: Key): Flags
    requires Wf(m) && f in m.tables
    decreases m.tables[f].level
  {
    assert TableOk(m, f);
    var T := m.tables[f];
    var i := IdxAt(k, T.level);
    if T.level > 1 && Points(T, i) then Meet(T.slots[i].flags, PathFlags(m, T.slots[i].frame, k)) else OPEN
  }

  // ------------------------------------------------------------ operations

  /** Install a zeroed table, taken from the pool, in an absent slot. */
  function AddTable(m: Mem, f: nat, i: nat): Mem
    requires f in m.tables && i < |m.tables[f].slots| && m.tables[f].level > 1 && m.pool != []
  {
    var c := m.pool[0];
    var T := m.tables[f];
    Mem(m.tables[f := T.(slots := T.slots[i := Entry(true, false, c, OPEN)])]
                [c := Table(T.level - 1, seq(512, _ => ABSENT))],
        m.pool[1..])
  }

  /** `get_or_create_pte` with `create`, from table `f` down. */
  ghost function Ensure(m: Mem, f: nat, k: Key): (Mem, Option<nat>)
    requires Wf(m) && f in m.tables
    decreases m.tables[f].level
  {
    assert TableOk(m, f);
    var T := m.tables[f];
    var i := IdxAt(k, T.level);
    if T.level == 1 then (m, Some(f))
    else if !T.slots[i].present then
      if m.pool == [] then (m, None)
      else AddTableWf(m, f, i); Ensure(AddTable(m, f, i), m.pool[0], k)
    else if Points(T, i) then Ensure(m, T.slots[i].frame, k)
    else (m, None)
  }

  function SetEntry(m: Mem, f: nat, i: nat, e: Entry): Mem
    requires f in m.tables && i < |m.tables[f].slots|
  {
    m.(tables := m.tables[f := m.tables[f].(slots := m.tables[f].slots[i := e])])
  }

  // ---------------------------------------------------------------- lemmas

  lemma AddTableOk(m: Mem, f: nat, i: nat)
    requires Wf(m) && f in m.tables && i < 512 && m.tables[f].level > 1 && m.pool != []
    requires TableOk(m, f) ==> !m.tables[f].slots[i].present
    ensures TableOk(m, f)
    ensures forall g | g in AddTable(m, f, i).tables :: TableOk(AddTable(m, f, i), g)
    ensures PoolOk(AddTable(m, f, i)) && m.pool[0] !in m.tables
  {
    hide Injective;
    var n := AddTable(m, f, i);
    var c := m.pool[0];
    assert c !in m.tables && TableOk(m, f);
    forall g | g in n.tables ensures TableOk(n, g) {
      if g != c {
        assert TableOk(m, g);
        forall j | 0 <= j && Points(n.tables[g], j)
          ensures n.tables[g].slots[j].frame in n.tables && n.tables[n.tables[g].slots[j].frame].level == n.tables[g].level - 1
        {
          if g != f || j != i { assert Points(m.tables[g], j); }
        }
      }
    }
  }

  lemma AddTableWf(m: Mem, f: nat, i: nat)
    requires Wf(m) && f in m.tables && i < 512 && m.tables[f].level > 1 && m.pool != []
    requires TableOk(m, f) ==> !m.tables[f].slots[i].present
    ensures TableOk(m, f) && Wf(AddTable(m, f, i))
  {
    AddTableOk(m, f, i);
    var n := AddTable(m, f, i);
    var c := m.pool[0];
    forall g, j, h, l |
      && g in n.tables && h in n.tables && 0 <= j && 0 <= l
      && Points(n.tables[g], j) && Points(n.tables[h], l)
      && n.tables[g].slots[j].frame == n.tables[h].slots[l].frame
      ensures (g == h && j == l) || Shared(n.tables[g], j, l)
    {
      OldPointer(m, f, i, g, j);
      OldPointer(m, f, i, h, l);
    }
  }

  /** Every pointer of the grown memory is the new one or an old one. */
  lemma OldPointer(m: Mem, f: nat, i: nat, g: nat, j: nat)
    requires Wf(m) && f in m.tables && i < 512 && m.tables[f].level > 1 && m.pool != []
    requires TableOk(m, f) ==> !m.tables[f].slots[i].present
    requires TableOk(m, f) && g in AddTable(m, f, i).tables && Points(AddTable(m, f, i).tables[g], j)
    ensures g in m.tables && j < |m.tables[g].slots| == 512 && AddTable(m, f, i).tables[g].level == m.tables[g].level
    ensures (g == f && j == i && AddTable(m, f, i).tables[g].slots[j].frame == m.pool[0])
         || (Points(m.tables[g], j) && AddTable(m, f, i).tables[g].slots[j] == m.tables[g].slots[j]
             && m.tables[g].slots[j].frame != m.pool[0])
  {
    hide Injective;
    assert m.pool[0] !in m.tables;
    if g != m.pool[0] { assert TableOk(m, g); }
  }

  /** A huge page covers the key. */
  ghost predicate Huge(m: Mem, f: nat, k: Key)
    requires Wf(m) && f in m.tables
    decreases m.tables[f].level
  {
    assert TableOk(m, f);
    var T := m.tables[f];
    var i := IdxAt(k, T.level);
    T.level > 1 && T.slots[i].present && (if Points(T, i) then Huge(m, T.slots[i].frame, k) else true)
  }

  /** An empty table translates nothing, so installing it changes no translation. */
  lemma {:induction false} AddTableKeeps(m: Mem, f: nat, i: nat, g: nat, k: Key)
    requires Wf(m) && f in m.tables && i < 512 && m.tables[f].level > 1 && m.pool != []
    requires TableOk(m, f) && !m.tables[f].slots[i].present && g in m.tables
    ensures Wf(AddTable(m, f, i))
    ensures Trans(AddTable(m, f, i), g, k) == Trans(m, g, k)
    ensures PathFlags(AddTable(m, f, i), g, k) == PathFlags(m, g, k)
    ensures Huge(AddTable(m, f, i), g, k) == Huge(m, g, k)
    decreases m.tables[g].level
  {
    hide Injective;
    AddTableWf(m, f, i);
    var n := AddTable(m, f, i);
    var c := m.pool[0];
    AddTableOk(m, f, i);
    assert TableOk(m, g) && TableOk(n, g) && TableOk(n, c);
    var T := m.tables[g];
    var j := IdxAt(k, T.level);
    if g == f && j == i {
      assert Trans(n, c, k) == NoMap && PathFlags(n, c, k) == OPEN && !Huge(n, c, k);
    } else if Points(T, j) {
      AddTableKeeps(m, f, i, T.slots[j].frame, k);
    }
  }

  /** How many tables are missing on the key's path. */
  ghost function Missing(m: Mem, f: nat, k: Key): nat
    requires Wf(m) && f in m.tables
    decreases m.tables[f].level
  {
    assert TableOk(m, f);
    var T := m.tables[f];
    var i := IdxAt(k, T.level);
    if T.level == 1 then 0
    else if !T.slots[i].present then T.level - 1
    else if Points(T, i) then Missing(m, T.slots[i].frame, k)
    else 0
  }

  /** What `Ensure` leaves behind, for every table that existed before. */
  ghost predicate SameView(m: Mem, n: Mem)
    requires Wf(m) && Wf(n)
  {
    && (forall g | g in m.tables :: g in n.tables && n.tables[g].level == m.tables[g].level)
    && (forall g, k | g in m.tables && g in n.tables :: Trans(n, g, k) == Trans(m, g, k))
    && (forall g, k | g in m.tables && g in n.tables :: PathFlags(n, g, k) == PathFlags(m, g, k))
    && (forall g, k | g in m.tables && g in n.tables :: Huge(n, g, k) == Huge(m, g, k))
  }

  lemma ViewTrans(m: Mem, n: Mem, o: Mem)
    requires Wf(m) && Wf(n) && Wf(o) && SameView(m, n) && SameView(n, o)
    ensures SameView(m, o)
  {
    hide Wf, Trans, PathFlags, Huge;
    forall g, k | g in m.tables && g in o.tables
      ensures Trans(o, g, k) == Trans(m, g, k) && PathFlags(o, g, k) == PathFlags(m, g, k) && Huge(o, g, k) == Huge(m, g, k)
    {
      assert g in n.tables;
      assert Trans(n, g, k) == Trans(m, g, k) && PathFlags(n, g, k) == PathFlags(m, g, k) && Huge(n, g, k) == Huge(m, g, k);
    }
  }

  lemma AddTableView(m: Mem, f: nat, i: nat)
    requires Wf(m) && f in m.tables && i < 512 && m.tables[f].level > 1 && m.pool != []
    requires TableOk(m, f) && !m.tables[f].slots[i].present
    ensures Wf(AddTable(m, f, i)) && SameView(m, AddTable(m, f, i))
    ensures m.pool[0] !in m.tables
  {
    hide TableOk, Injective, Trans, PathFlags, Huge;
    AddTableWf(m, f, i);
    AddTableOk(m, f, i);
    forall g, k | g in m.tables
      ensures Trans(AddTable(m, f, i), g, k) == Trans(m, g, k) && PathFlags(AddTable(m, f, i), g, k) == PathFlags(m, g, k)
      ensures Huge(AddTable(m, f, i), g, k) == Huge(m, g, k)
    {
      AddTableKeeps(m, f, i, g, k);
    }
  }

  /**
   `get_or_create_pte`: whatever it allocates, no translation changes; it fails
   exactly when a huge page is in the way or the pool holds too few frames for
   the missing tables.
   */
  lemma {:induction false} EnsureSpec(m: Mem, f: nat, k: Key)
    requires Wf(m) && f in m.tables
    ensures var (n, pt) := Ensure(m, f, k);
      && Wf(n) && SameView(m, n) && f in n.tables
      && (pt.Some? <==> !Huge(m, f, k) && Missing(m, f, k) <= |m.pool|)
      && (pt.Some? ==> Leaf(n, f, k) == pt && |n.pool| == |m.pool| - Missing(m, f, k))
      && |n.pool| <= |m.pool| && n.pool == m.pool[|m.pool| - |n.pool|..]
    decreases m.tables[f].level
  {
    hide SameView, Injective;
    assert TableOk(m, f);
    var T := m.tables[f];
    var i := IdxAt(k, T.level);
    ViewRefl(m);
    if T.level == 1 {
    } else if !T.slots[i].present {
      if m.pool != [] {
        AddTableView(m, f, i);
        var n := AddTable(m, f, i);
        assert TableOk(n, m.pool[0]) && TableOk(n, f);
        assert Missing(n, m.pool[0], k) == T.level - 2 && !Huge(n, m.pool[0], k);
        EnsureSpec(n, m.pool[0], k);
        ViewTrans(m, n, Ensure(n, m.pool[0], k).0);
        EnsureGrows(n, m.pool[0], k, f);
      }
    } else if Points(T, i) {
      EnsureSpec(m, T.slots[i].frame, k);
      EnsureGrows(m, T.slots[i].frame, k, f);
    }
  }

  lemma ViewRefl(m: Mem)
    requires Wf(m)
    ensures SameView(m, m)
  {
  }

  /** Tables above the walk are left alone. */
  lemma {:induction false} EnsureGrows(m: Mem, f: nat, k: Key, g: nat)
    requires Wf(m) && f in m.tables && g in m.tables && m.tables[g].level > m.tables[f].level
    ensures g in Ensure(m, f, k).0.tables && Ensure(m, f, k).0.tables[g] == m.tables[g]
    decreases m.tables[f].level
  {
    assert TableOk(m, f);
    var T := m.tables[f];
    var i := IdxAt(k, T.level);
    if T.level == 1 {
    } else if !T.slots[i].present {
      if m.pool != [] {
        AddTableWf(m, f, i);
        AddTableOk(m, f, i);
        EnsureGrows(AddTable(m, f, i), m.pool[0], k, g);
      }
    } else if Points(T, i) {
      EnsureGrows(m, T.slots[i].frame, k, g);
    }
  }

  // -------------------------------------------------------- leaf entries

  /** The two keys agree on the indices used at levels 2 up to `level`. */
  predicate Agree(k: Key, l: Key, level: nat) {
    (level >= 2 ==> k.i2 == l.i2) && (level >= 3 ==> k.i3 == l.i3) && (level >= 4 ==> k.i4 == l.i4)
  }

  lemma {:induction false} LeafLevel(m: Mem, f: nat, k: Key)
    requires Wf(m) && f in m.tables && Leaf(m, f, k).Some?
    ensures Leaf(m, f, k).value in m.tables && m.tables[Leaf(m, f, k).value].level == 1
    ensures TableOk(m, Leaf(m, f, k).value)
    decreases m.tables[f].level
  {
    hide Injective;
    assert TableOk(m, f);
    if m.tables[f].level > 1 {
      LeafLevel(m, m.tables[f].slots[IdxAt(k, m.tables[f].level)].frame, k);
    }
  }

  /**
   A level-1 table is reached along one path only, except that address spaces
   share the kernel half.
   */
  lemma {:induction false} LeafUnique(m: Mem, f: nat, k: Key, g: nat, l: Key)
    requires Wf(m) && f in m.tables && g in m.tables && m.tables[f].level == m.tables[g].level
    requires Leaf(m, f, k).Some? && Leaf(m, f, k) == Leaf(m, g, l)
    ensures Agree(k, l, m.tables[f].level)
    ensures f == g || (m.tables[f].level == 4 && k.i4 >= 256)
    decreases m.tables[f].level
  {
    assert TableOk(m, f) && TableOk(m, g);
    var T, U := m.tables[f], m.tables[g];
    if T.level > 1 {
      var i, j := IdxAt(k, T.level), IdxAt(l, U.level);
      LeafUnique(m, T.slots[i].frame, k, U.slots[j].frame, l);
      assert Points(T, i) && Points(U, j);
    }
  }

  lemma SetEntryWf(m: Mem, pt: nat, i: nat, e: Entry)
    requires Wf(m) && pt in m.tables && m.tables[pt].level == 1 && i < 512
    ensures i < |m.tables[pt].slots| && Wf(SetEntry(m, pt, i, e))
  {
    assert TableOk(m, pt);
    var n := SetEntry(m, pt, i, e);
    forall g | g in n.tables ensures TableOk(n, g) {
      assert TableOk(m, g);
      assert forall j | 0 <= j && Points(n.tables[g], j) :: Points(m.tables[g], j) && n.tables[g] == m.tables[g];
    }
    forall f, a, g, b |
      && f in n.tables && g in n.tables && 0 <= a && 0 <= b && Points(n.tables[f], a) && Points(n.tables[g], b)
      && n.tables[f].slots[a].frame == n.tables[g].slots[b].frame
      ensures (f == g && a == b) || Shared(n.tables[f], a, b)
    {
      assert Points(m.tables[f], a) && Points(m.tables[g], b);
    }
  }

  function LeafXlat(e: Entry, path: Flags): Xlat {
    if e.present then Page(e.frame, Meet(path, e.flags)) else NoMap
  }

  lemma MeetAssoc(a: Flags, b: Flags, c: Flags)
    ensures Meet(a, Meet(b, c)) == Meet(Meet(a, b), c)
  {
  }

  /** Writing a level-1 entry changes exactly the walks that end at that entry. */
  lemma {:induction false} SetEntryTrans(m: Mem, pt: nat, i: nat, e: Entry, g: nat, k: Key)
    requires Wf(m) && pt in m.tables && m.tables[pt].level == 1 && i < 512 && g in m.tables
    ensures i < |m.tables[pt].slots| && Wf(SetEntry(m, pt, i, e))
    ensures var n := SetEntry(m, pt, i, e);
      && Leaf(n, g, k) == Leaf(m, g, k)
      && PathFlags(n, g, k) == PathFlags(m, g, k)
      && Huge(n, g, k) == Huge(m, g, k)
      && Trans(n, g, k) == if Leaf(m, g, k) == Some(pt) && k.i1 == i then LeafXlat(e, PathFlags(m, g, k)) else Trans(m, g, k)
    decreases m.tables[g].level
  {
    hide Injective;
    SetEntryWf(m, pt, i, e);
    var n := SetEntry(m, pt, i, e);
    assert TableOk(m, g) && TableOk(n, g) && TableOk(m, pt);
    var T := m.tables[g];
    if T.level == 1 {
      assert Meet(OPEN, e.flags) == e.flags;
    } else {
      var j := IdxAt(k, T.level);
      assert n.tables[g] == T;
      if Points(T, j) {
        var c := T.slots[j].frame;
        SetEntryTrans(m, pt, i, e, c, k);
        MeetAssoc(T.slots[j].flags, PathFlags(m, c, k), e.flags);
      }
    }
  }

  /** The hardware walk agrees with reading the level-1 entry, unless a huge page covers the key. */
  lemma {:induction false} TransIsLeaf(m: Mem, f: nat, k: Key)
    requires Wf(m) && f in m.tables
    ensures Leaf(m, f, k).Some? ==>
      && Leaf(m, f, k).value in m.tables && |m.tables[Leaf(m, f, k).value].slots| == 512
      && Trans(m, f, k) == LeafXlat(m.tables[Leaf(m, f, k).value].slots[k.i1], PathFlags(m, f, k))
    ensures Leaf(m, f, k).None? ==> (Trans(m, f, k) == NoMap <==> !Huge(m, f, k))
    ensures Huge(m, f, k) ==> Leaf(m, f, k).None?
    decreases m.tables[f].level
  {
    hide Injective;
    assert TableOk(m, f);
    var T := m.tables[f];
    var i := IdxAt(k, T.level);
    if T.level == 1 {
      assert Meet(OPEN, T.slots[i].flags) == T.slots[i].flags;
    } else if Points(T, i) {
      var c := T.slots[i].frame;
      TransIsLeaf(m, c, k);
      if Leaf(m, c, k).Some? {
        MeetAssoc(T.slots[i].flags, PathFlags(m, c, k), m.tables[Leaf(m, c, k).value].slots[k.i1].flags);
      }
    }
  }
}
