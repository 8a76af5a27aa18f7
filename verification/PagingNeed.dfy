/**
 How far a range map gets, told from the tables and the pool before the call: up to
 the first page that a huge page covers, or for which the distinct tables missing so
 far outnumber the free frames.
 */
module PagingNeed {

  import opened Common
  import opened Paging
  import opened PagingOps

  /** A place for a table below the top level: its level and the indices that lead to it. */
  datatype Spot = Spot(level: nat, i4: nat, i3: nat, i2: nat)

  function SpotOf(k: Key, level: nat): Spot {
    Spot(level, k.i4, if level <= 2 then k.i3 else 0, if level <= 1 then k.i2 else 0)
  }

  /** The tables missing on the key's path. */
  ghost function Absent(m: Mem, root: nat, k: Key): set<Spot>
    requires Wf(m) && IsRoot(m, root)
  {
    set level | 1 <= level <= Missing(m, root, k) :: SpotOf(k, level)
  }

  lemma AbsentSize(m: Mem, root: nat, k: Key)
    requires Wf(m) && IsRoot(m, root)
    ensures |Absent(m, root, k)| == Missing(m, root, k) <= 3
  {
    hide Wf;
    MissingBound(m, root, k);
    var n := Missing(m, root, k);
    if n == 0 {
      assert Absent(m, root, k) == {};
    } else if n == 1 {
      assert Absent(m, root, k) == {SpotOf(k, 1)};
    } else if n == 2 {
      assert Absent(m, root, k) == {SpotOf(k, 1), SpotOf(k, 2)};
    } else {
      assert Absent(m, root, k) == {SpotOf(k, 1), SpotOf(k, 2), SpotOf(k, 3)};
    }
  }

  lemma {:induction false} MissingBound(m: Mem, f: nat, k: Key)
    requires Wf(m) && f in m.tables
    ensures Missing(m, f, k) < m.tables[f].level
    decreases m.tables[f].level
  {
    hide Injective;
    assert TableOk(m, f);
    var T := m.tables[f];
    if T.level > 1 && Points(T, IdxAt(k, T.level)) { MissingBound(m, T.slots[IdxAt(k, T.level)].frame, k); }
  }

  // ------------------------------------------------------------------- walks

  /** The walk for `k` from table `g` comes to table `f`. */
  ghost predicate On(m: Mem, g: nat, k: Key, f: nat)
    requires Wf(m) && g in m.tables
    decreases m.tables[g].level
  {
    assert TableOk(m, g);
    var T := m.tables[g];
    f == g || (Points(T, IdxAt(k, T.level)) && On(m, T.slots[IdxAt(k, T.level)].frame, k, f))
  }

  lemma {:induction false} OnLevel(m: Mem, g: nat, k: Key, f: nat)
    requires Wf(m) && g in m.tables && On(m, g, k, f)
    ensures f in m.tables && m.tables[f].level <= m.tables[g].level && (f != g ==> m.tables[f].level < m.tables[g].level)
    ensures Missing(m, g, k) == Missing(m, f, k)
    decreases m.tables[g].level
  {
    hide Injective;
    assert TableOk(m, g);
    var T := m.tables[g];
    if f != g { OnLevel(m, T.slots[IdxAt(k, T.level)].frame, k, f); }
  }

  lemma {:induction false} OnStep(m: Mem, g: nat, k: Key, f: nat)
    requires Wf(m) && g in m.tables && f in m.tables && On(m, g, k, f)
    requires Points(m.tables[f], IdxAt(k, m.tables[f].level))
    ensures On(m, g, k, m.tables[f].slots[IdxAt(k, m.tables[f].level)].frame)
    decreases m.tables[g].level
  {
    hide Injective;
    assert TableOk(m, g) && TableOk(m, f);
    var T := m.tables[g];
    if f != g { OnStep(m, T.slots[IdxAt(k, T.level)].frame, k, f); }
  }

  /** Below the top level no table is on the walks from two tables of one level. */
  lemma {:induction false} OnUnique(m: Mem, c: nat, k: Key, d: nat, l: Key, f: nat)
    requires Wf(m) && c in m.tables && d in m.tables && m.tables[c].level == m.tables[d].level <= 3
    requires On(m, c, k, f) && On(m, d, l, f)
    ensures c == d
    decreases m.tables[c].level
  {
    OnLevel(m, c, k, f);
    OnLevel(m, d, l, f);
    assert TableOk(m, c) && TableOk(m, d);
    if f != c {
      var T, U := m.tables[c], m.tables[d];
      var i, j := IdxAt(k, T.level), IdxAt(l, U.level);
      OnUnique(m, T.slots[i].frame, k, U.slots[j].frame, l, f);
      assert Points(T, i) && Points(U, j);
    }
  }

  /** Two walks come to the same table exactly when they take the same turns on the way. */
  lemma {:induction false} OnSame(m: Mem, g: nat, k: Key, l: Key, f: nat)
    requires Wf(m) && g in m.tables && On(m, g, k, f) && f in m.tables
    ensures On(m, g, l, f) <==> forall x | m.tables[f].level < x <= m.tables[g].level :: IdxAt(k, x) == IdxAt(l, x)
    decreases m.tables[g].level
  {
    assert TableOk(m, g);
    OnLevel(m, g, k, f);
    if f != g {
      var T := m.tables[g];
      var i, j := IdxAt(k, T.level), IdxAt(l, T.level);
      if i == j {
        OnSame(m, T.slots[i].frame, k, l, f);
      } else if On(m, g, l, f) {
        assert Points(T, i) && Points(T, j);
        OnUnique(m, T.slots[i].frame, k, T.slots[j].frame, l, f);
      }
    }
  }

  // -------------------------------------------------------- one more table

  /** Installing a table on a key's walk makes it one table shorter, and no other key's. */
  lemma {:induction false} AddTableMissing(m: Mem, f: nat, i: nat, g: nat, l: Key)
    requires Wf(m) && f in m.tables && i < 512 && m.tables[f].level > 1 && m.pool != []
    requires TableOk(m, f) && !m.tables[f].slots[i].present && g in m.tables
    ensures Wf(AddTable(m, f, i))
    ensures Missing(AddTable(m, f, i), g, l)
         == Missing(m, g, l) - if On(m, g, l, f) && IdxAt(l, m.tables[f].level) == i then 1 else 0
    decreases m.tables[g].level
  {
    hide Injective;
    AddTableWf(m, f, i);
    AddTableOk(m, f, i);
    var n, c := AddTable(m, f, i), m.pool[0];
    assert TableOk(m, g) && TableOk(n, g) && TableOk(n, c);
    var T := m.tables[g];
    var j := IdxAt(l, T.level);
    if !(g == f && j == i) && Points(T, j) {
      var d := T.slots[j].frame;
      AddTableMissing(m, f, i, d, l);
      if g == f && On(m, d, l, f) { OnLevel(m, d, l, f); }
    }
  }

  /** The walk that the table was installed for goes on through it. */
  lemma {:induction false} AddTableOn(m: Mem, f: nat, k: Key, g: nat)
    requires Wf(m) && f in m.tables && m.tables[f].level > 1 && m.pool != []
    requires TableOk(m, f) && !m.tables[f].slots[IdxAt(k, m.tables[f].level)].present && g in m.tables && On(m, g, k, f)
    ensures var n := AddTable(m, f, IdxAt(k, m.tables[f].level)); Wf(n) && On(n, g, k, m.pool[0])
    decreases m.tables[g].level
  {
    hide Injective;
    var i := IdxAt(k, m.tables[f].level);
    AddTableWf(m, f, i);
    AddTableOk(m, f, i);
    var n, c := AddTable(m, f, i), m.pool[0];
    assert TableOk(m, g) && TableOk(n, g) && TableOk(n, c);
    if g != f {
      var T := m.tables[g];
      AddTableOn(m, f, k, T.slots[IdxAt(k, T.level)].frame);
    }
  }

  lemma SpotAgrees(k: Key, l: Key, level: nat)
    requires 1 <= level <= 3
    ensures SpotOf(l, level) == SpotOf(k, level) <==> forall x | level < x <= 4 :: IdxAt(k, x) == IdxAt(l, x)
  {
    if forall x | level < x <= 4 :: IdxAt(k, x) == IdxAt(l, x) {
      assert IdxAt(k, 4) == IdxAt(l, 4);
      assert level < 3 ==> IdxAt(k, 3) == IdxAt(l, 3);
      assert level < 2 ==> IdxAt(k, 2) == IdxAt(l, 2);
    }
  }

  /** The new table's spot is no longer absent, for any key. */
  lemma AddTableAbsent(m: Mem, root: nat, f: nat, k: Key, l: Key)
    requires Wf(m) && IsRoot(m, root) && f in m.tables && On(m, root, k, f) && m.tables[f].level > 1 && m.pool != []
    requires TableOk(m, f) && !m.tables[f].slots[IdxAt(k, m.tables[f].level)].present
    ensures var n := AddTable(m, f, IdxAt(k, m.tables[f].level));
      && Wf(n) && IsRoot(n, root)
      && Absent(n, root, l) == Absent(m, root, l) - {SpotOf(k, m.tables[f].level - 1)}
  {
    hide Injective, TableOk;
    var level := m.tables[f].level;
    var i := IdxAt(k, level);
    OnLevel(m, root, k, f);
    AddTableMissing(m, f, i, root, l);
    OnSame(m, root, k, l, f);
    AddTableOk(m, f, i);
    var s := SpotOf(k, level - 1);
    SpotAgrees(k, l, level - 1);
    if On(m, root, l, f) && IdxAt(l, level) == i {
      assert forall x | level < x <= 4 :: IdxAt(k, x) == IdxAt(l, x);
      OnLevel(m, root, l, f);
      assert Missing(m, root, l) == level - 1;
    } else {
      assert SpotOf(l, level - 1) != s;
    }
  }

  /** Once its path is made, a key's missing tables are missing for nobody. */
  lemma {:induction false} EnsureAbsent(m: Mem, root: nat, f: nat, k: Key, l: Key)
    requires Wf(m) && IsRoot(m, root) && f in m.tables && On(m, root, k, f) && Ensure(m, f, k).1.Some?
    ensures var n := Ensure(m, f, k).0;
      Wf(n) && IsRoot(n, root) && Absent(n, root, l) == Absent(m, root, l) - Absent(m, root, k)
    decreases m.tables[f].level
  {
    hide Injective, Missing, On;
    assert TableOk(m, f);
    var T := m.tables[f];
    var i := IdxAt(k, T.level);
    AtTable(m, root, f, k);
    if T.level > 1 {
      if !T.slots[i].present {
        AddTableAbsent(m, root, f, k, l);
        AddTableAbsent(m, root, f, k, k);
        AddTableOn(m, f, k, root);
        AddTableOk(m, f, i);
        EnsureAbsent(AddTable(m, f, i), root, m.pool[0], k, l);
      } else {
        OnStep(m, root, k, f);
        EnsureAbsent(m, root, T.slots[i].frame, k, l);
      }
    }
  }

  /** What is absent, seen from a table on the walk. */
  lemma AtTable(m: Mem, root: nat, f: nat, k: Key)
    requires Wf(m) && IsRoot(m, root) && f in m.tables && On(m, root, k, f) && TableOk(m, f)
    ensures var T := m.tables[f];
      && (T.level == 1 ==> Absent(m, root, k) == {})
      && (T.level > 1 && !T.slots[IdxAt(k, T.level)].present ==> SpotOf(k, T.level - 1) in Absent(m, root, k))
  {
    hide Injective;
    OnLevel(m, root, k, f);
  }

  lemma {:induction false} SetEntryMissing(m: Mem, pt: nat, i: nat, e: Entry, g: nat, l: Key)
    requires Wf(m) && pt in m.tables && m.tables[pt].level == 1 && i < 512 && g in m.tables
    ensures i < |m.tables[pt].slots| && Wf(SetEntry(m, pt, i, e)) && Missing(SetEntry(m, pt, i, e), g, l) == Missing(m, g, l)
    decreases m.tables[g].level
  {
    hide Injective;
    SetEntryWf(m, pt, i, e);
    assert TableOk(m, g) && TableOk(SetEntry(m, pt, i, e), g);
    var T := m.tables[g];
    if T.level > 1 && Points(T, IdxAt(l, T.level)) { SetEntryMissing(m, pt, i, e, T.slots[IdxAt(l, T.level)].frame, l); }
  }

  /** A page mapped takes as many frames as its path missed tables, and leaves them missing for nobody. */
  lemma MapAbsent(m: Mem, root: nat, k: Key, frame: nat, flags: Flags, l: Key)
    requires Wf(m) && IsRoot(m, root)
    ensures var (n, ok) := Map(m, root, k, frame, flags);
      && Wf(n) && IsRoot(n, root)
      && (ok <==> !Huge(m, root, k) && |Absent(m, root, k)| <= |m.pool|)
      && (ok ==> Absent(n, root, l) == Absent(m, root, l) - Absent(m, root, k))
      && (ok ==> |n.pool| == |m.pool| - |Absent(m, root, k)|)
  {
    hide Wf, Huge, Missing, Ensure, On;
    MapSpec(m, root, k, frame, flags, root, l);
    EnsureSpec(m, root, k);
    AbsentSize(m, root, k);
    var (n, pt) := Ensure(m, root, k);
    if pt.Some? {
      StartsOn(m, root, k);
      EnsureAbsent(m, root, root, k, l);
      LeafLevel(n, root, k);
      SetEntryMissing(n, pt.value, k.i1, Entry(true, false, frame, flags), root, l);
    }
  }

  lemma StartsOn(m: Mem, root: nat, k: Key)
    requires Wf(m) && root in m.tables
    ensures On(m, root, k, root)
  {
  }

  // ------------------------------------------------------------------ ranges

  /** The tables missing for pages `lo..hi` of a range. */
  ghost function Need(m: Mem, root: nat, virt: nat, lo: nat, hi: nat): set<Spot>
    requires Wf(m) && IsRoot(m, root)
    decreases hi - lo
  {
    if lo >= hi then {} else Absent(m, root, KeyAt(virt, lo)) + Need(m, root, virt, lo + 1, hi)
  }

  lemma {:induction false} NeedAfter(m: Mem, n: Mem, root: nat, virt: nat, lo: nat, hi: nat, k: Key)
    requires Wf(m) && IsRoot(m, root) && Wf(n) && IsRoot(n, root)
    requires forall l :: Absent(n, root, l) == Absent(m, root, l) - Absent(m, root, k)
    ensures Need(n, root, virt, lo, hi) == Need(m, root, virt, lo, hi) - Absent(m, root, k)
    decreases hi - lo
  {
    hide Wf, Absent;
    if lo < hi { NeedAfter(m, n, root, virt, lo + 1, hi, k); }
  }

  /** What the rest of a range needs after its first page has been mapped. */
  lemma NeedRest(m: Mem, n: Mem, root: nat, virt: nat, lo: nat, hi: nat)
    requires Wf(m) && IsRoot(m, root) && Wf(n) && IsRoot(n, root) && lo < hi
    requires forall l :: Absent(n, root, l) == Absent(m, root, l) - Absent(m, root, KeyAt(virt, lo))
    ensures |Need(m, root, virt, lo, hi)| == |Absent(m, root, KeyAt(virt, lo))| + |Need(n, root, virt, lo + 1, hi)|
  {
    hide Wf, Absent;
    var a, b := Absent(m, root, KeyAt(virt, lo)), Need(n, root, virt, lo + 1, hi);
    NeedAfter(m, n, root, virt, lo + 1, hi, KeyAt(virt, lo));
    assert Need(m, root, virt, lo, hi) == a + b && a * b == {};
  }

  /** Page `p` of a range that starts at page `i` cannot be mapped. */
  ghost predicate Stops(m: Mem, root: nat, virt: nat, i: nat, p: nat)
    requires Wf(m) && IsRoot(m, root)
  {
    Huge(m, root, KeyAt(virt, p)) || |Need(m, root, virt, i, p + 1)| > |m.pool|
  }

  /** The first page from `p` on that cannot be mapped, or `n`. */
  ghost function FirstStop(m: Mem, root: nat, virt: nat, i: nat, p: nat, n: nat): nat
    requires Wf(m) && IsRoot(m, root)
    decreases n - p
  {
    if p >= n then n else if Stops(m, root, virt, i, p) then p else FirstStop(m, root, virt, i, p + 1, n)
  }

  /** The first is the first. */
  lemma {:induction false} FirstStopIs(m: Mem, root: nat, virt: nat, i: nat, p: nat, n: nat)
    requires Wf(m) && IsRoot(m, root) && p <= n
    ensures var j := FirstStop(m, root, virt, i, p, n);
      && p <= j <= n && (j < n ==> Stops(m, root, virt, i, j)) && forall q | p <= q < j :: !Stops(m, root, virt, i, q)
    decreases n - p
  {
    hide Wf, Stops;
    if p < n && !Stops(m, root, virt, i, p) { FirstStopIs(m, root, virt, i, p + 1, n); }
  }

  lemma {:induction false} FirstStopSame(m: Mem, i: nat, z: Mem, j: nat, root: nat, virt: nat, p: nat, n: nat)
    requires Wf(m) && IsRoot(m, root) && Wf(z) && IsRoot(z, root)
    requires forall q | p <= q :: Stops(z, root, virt, j, q) <==> Stops(m, root, virt, i, q)
    ensures FirstStop(z, root, virt, j, p, n) == FirstStop(m, root, virt, i, p, n)
    decreases n - p
  {
    hide Wf, Stops;
    if p < n { FirstStopSame(m, i, z, j, root, virt, p + 1, n); }
  }

  /** After page `i` has been mapped, the pages behind it stop exactly where they would have. */
  lemma StopsAfter(m: Mem, root: nat, virt: nat, frame: nat, i: nat, flags: Flags, q: nat)
    requires Wf(m) && IsRoot(m, root) && i < q && Map(m, root, KeyAt(virt, i), frame, flags).1
    ensures var z := Map(m, root, KeyAt(virt, i), frame, flags).0;
      Wf(z) && IsRoot(z, root) && (Stops(z, root, virt, i + 1, q) <==> Stops(m, root, virt, i, q))
  {
    hide Wf, Huge, Map, Absent, Need, Trans, PathFlags;
    var k := KeyAt(virt, i);
    var z := Map(m, root, k, frame, flags).0;
    MapSpec(m, root, k, frame, flags, root, KeyAt(virt, q));
    MapAbsent(m, root, k, frame, flags, k);
    forall l ensures Absent(z, root, l) == Absent(m, root, l) - Absent(m, root, k) {
      MapAbsent(m, root, k, frame, flags, l);
    }
    NeedRest(m, z, root, virt, i, q + 1);
  }

  /** The mapping loop stops at the first page that cannot be mapped. */
  lemma {:induction false} MapFromStops(m: Mem, root: nat, virt: nat, frame: nat, i: nat, n: nat, flags: Flags)
    requires Wf(m) && IsRoot(m, root) && i <= n
    ensures MapFrom(m, root, virt, frame, i, n, flags).1 == FirstStop(m, root, virt, i, i, n)
    decreases n - i
  {
    hide Wf, Huge, Map, Absent, Trans, PathFlags;
    if i < n {
      var k := KeyAt(virt, i);
      MapAbsent(m, root, k, FrameAt(frame, i), flags, k);
      var (z, ok) := Map(m, root, k, FrameAt(frame, i), flags);
      assert Need(m, root, virt, i, i + 1) == Absent(m, root, k);
      if ok {
        forall q | i + 1 <= q ensures Stops(z, root, virt, i + 1, q) <==> Stops(m, root, virt, i, q) {
          StopsAfter(m, root, virt, FrameAt(frame, i), i, flags, q);
        }
        MapFromStops(z, root, virt, frame, i + 1, n, flags);
        FirstStopSame(m, i, z, i + 1, root, virt, i + 1, n);
      }
    }
  }

  // ---------------------------------------------------- loops that run on

  lemma {:induction false} NeedIff(m: Mem, root: nat, virt: nat, lo: nat, hi: nat, s: Spot)
    requires Wf(m) && IsRoot(m, root)
    ensures s in Need(m, root, virt, lo, hi) <==> exists i :: lo <= i < hi && s in Absent(m, root, KeyAt(virt, i))
    decreases hi - lo
  {
    hide Wf, Absent, KeyOf;
    if lo < hi { NeedIff(m, root, virt, lo + 1, hi, s); }
  }

  /** Pages beyond the first 2^36 select the same entries again and need no further table. */
  lemma NeedCap(m: Mem, root: nat, virt: nat, hi: nat)
    requires Wf(m) && IsRoot(m, root) && hi >= ENTRIES
    ensures Need(m, root, virt, 0, hi) == Need(m, root, virt, 0, ENTRIES)
  {
    hide Wf, Absent, KeyOf, Need;
    forall s ensures s in Need(m, root, virt, 0, hi) <==> s in Need(m, root, virt, 0, ENTRIES) {
      NeedIff(m, root, virt, 0, hi, s);
      NeedIff(m, root, virt, 0, ENTRIES, s);
      if i :| 0 <= i < hi && s in Absent(m, root, KeyAt(virt, i)) {
        KeyAgain(virt, i);
        assert s in Absent(m, root, KeyAt(virt, i % ENTRIES));
      }
      if i :| 0 <= i < ENTRIES && s in Absent(m, root, KeyAt(virt, i)) {
        assert 0 <= i < hi && s in Absent(m, root, KeyAt(virt, i));
      }
    }
  }

  lemma {:induction false} KeyAgain(virt: nat, i: nat)
    ensures KeyAt(virt, i) == KeyAt(virt, i % ENTRIES)
  {
    hide KeyOf;
    if i >= ENTRIES {
      CounterKey(virt, i - ENTRIES);
      KeyAgain(virt, i - ENTRIES);
      assert i % ENTRIES == (i - ENTRIES) % ENTRIES;
    }
  }

  /** A page that stops after 2^36 turns or more means one that stops before. */
  lemma StopsEarly(m: Mem, root: nat, virt: nat, p: nat)
    requires Wf(m) && IsRoot(m, root) && Stops(m, root, virt, 0, p)
    ensures exists q :: 0 <= q < ENTRIES && Stops(m, root, virt, 0, q)
  {
    hide Wf, Huge, Need, KeyOf;
    if p >= ENTRIES {
      KeyAgain(virt, p);
      NeedCap(m, root, virt, p + 1);
      assert Stops(m, root, virt, 0, p % ENTRIES) || Stops(m, root, virt, 0, ENTRIES - 1);
    }
  }

  /** How far a range map gets. */
  ghost function Reach(m: Mem, root: nat, virt: nat, size: nat): nat
    requires Wf(m) && IsRoot(m, root)
  {
    FirstStop(m, root, virt, 0, 0, Limit(virt, size))
  }

  /**
   A range map succeeds exactly when its counter does not wrap and no page of it stops;
   it never ends exactly when the counter wraps and no page ever stops; and every
   translation after it is told by the state before.
   */
  lemma RangeSpec(m: Mem, root: nat, virt: nat, frame: nat, size: nat, flags: Flags, r: nat, l: Key)
    requires Wf(m) && IsRoot(m, root) && IsRoot(m, r)
    ensures var o := MapRange(m, root, virt, frame, size, flags);
      var j := Reach(m, root, virt, size);
      && (o.None? <==> RunsOn(virt, size) && forall p: nat :: !Stops(m, root, virt, 0, p))
      && (o.Some? ==>
           var (z, ok) := o.value;
           var h := LastHit(virt, 0, j, l);
           && Wf(z) && IsRoot(z, root) && IsRoot(z, r)
           && (ok <==> !RunsOn(virt, size) && forall p | 0 <= p < PagesIn(virt, size) :: !Stops(m, root, virt, 0, p))
           && Trans(z, r, l) == (if h.None? || !Alias(m, root, r, l.i4) then Trans(m, r, l)
                                 else if !ok && LastHit(virt, 0, Undone(virt, j), l).Some? then NoMap
                                 else Page(FrameAt(frame, h.value), Meet(PathFlags(m, r, l), flags))))
  {
    hide Wf, Trans, PathFlags, Alias, Stops, RunsOn, PagesIn, KeyOf, MapRange;
    var n := Limit(virt, size);
    MapRangeSpec(m, root, virt, frame, size, flags, r, l);
    MapFromStops(m, root, virt, frame, 0, n, flags);
    FirstStopIs(m, root, virt, 0, 0, n);
    if p: nat :| Stops(m, root, virt, 0, p) { StopsEarly(m, root, virt, p); }
  }

  /**
   A failed range map restores every translation of every address space exactly when no
   page before the first one that stops was mapped before; but if the counter has
   wrapped by then, exactly when those pages were mapped to the same frames before.
   */
  lemma FailedRangeRestoresIff(m: Mem, root: nat, virt: nat, frame: nat, size: nat, flags: Flags)
    requires Wf(m) && IsRoot(m, root) && virt < U64 && Reach(m, root, virt, size) < Limit(virt, size)
    ensures var o := MapRange(m, root, virt, frame, size, flags);
      var j := Reach(m, root, virt, size);
      && o.Some? && !o.value.1 && Wf(o.value.0)
      && (Restored(m, o.value.0) <==>
            if virt + PAGE_SIZE * j < U64 then Unmapped(m, root, virt, j) else Already(m, root, virt, frame, flags, j))
  {
    hide Restored, Unmapped, Already, Wf, Trans, FirstStop, Alias, PathFlags, LastHit, KeyOf, IsRoot, MapFrom, MapRange, PagesIn, RunsOn;
    MapFromStops(m, root, virt, frame, 0, Limit(virt, size), flags);
    MapRangeSpec(m, root, virt, frame, size, flags, root, KeyOf(virt));
    RolledBackIff(m, root, virt, frame, size, flags);
  }

  // ------------------------------------------------------- a mapping is lost

  /** One empty address space, rooted at frame 0. */
  function EmptySpace(pool: seq<nat>): Mem {
    Mem(map[0 := Table(4, seq(512, _ => ABSENT))], pool)
  }

  lemma EmptySpaceWf(pool: seq<nat>, k: Key)
    requires PoolOk(EmptySpace(pool))
    ensures Wf(EmptySpace(pool)) && IsRoot(EmptySpace(pool), 0)
    ensures Missing(EmptySpace(pool), 0, k) == 3 && !Huge(EmptySpace(pool), 0, k) && Trans(EmptySpace(pool), 0, k) == NoMap
  {
    var m := EmptySpace(pool);
    assert forall i | 0 <= i < 512 :: m.tables[0].slots[i] == ABSENT;
    assert TableOk(m, 0);
  }

  /** After one page has taken the last three frames. */
  ghost function OnePage(flags: Flags): Mem {
    assert PoolOk(EmptySpace([1, 2, 3]));
    EmptySpaceWf([1, 2, 3], KeyAt(0, 0));
    Map(EmptySpace([1, 2, 3]), 0, KeyAt(0, 0), 7, flags).0
  }

  lemma OnePageSpec(flags: Flags, l: Key)
    ensures var m := OnePage(flags);
      && Wf(m) && IsRoot(m, 0) && m.pool == [] && !Huge(m, 0, l)
      && Trans(m, 0, KeyAt(0, 0)).Page?
      && Absent(m, 0, l) == (set level | 1 <= level <= 3 :: SpotOf(l, level)) - (set level | 1 <= level <= 3 :: SpotOf(KeyAt(0, 0), level))
  {
    hide Wf, Map, Missing, Trans, Huge;
    var s := EmptySpace([1, 2, 3]);
    EmptySpaceWf([1, 2, 3], l);
    EmptySpaceWf([1, 2, 3], KeyAt(0, 0));
    AbsentSize(s, 0, KeyAt(0, 0));
    MapAbsent(s, 0, KeyAt(0, 0), 7, flags, l);
    MapSpec(s, 0, KeyAt(0, 0), 7, flags, 0, l);
    MapSpec(s, 0, KeyAt(0, 0), 7, flags, 0, KeyAt(0, 0));
  }

  lemma NeedHas(m: Mem, root: nat, virt: nat, lo: nat, hi: nat, p: nat)
    requires Wf(m) && IsRoot(m, root) && lo <= p < hi
    ensures Absent(m, root, KeyAt(virt, p)) <= Need(m, root, virt, lo, hi)
    decreases hi - lo
  {
    hide Wf, Absent;
    if lo < p { NeedHas(m, root, virt, lo + 1, hi, p); }
  }

  lemma KeysUsed()
    ensures KeyAt(0, 0) == Key(0, 0, 0, 0) && KeyAt(0, 512) == Key(0, 0, 1, 0) && Limit(0, 513 * PAGE_SIZE) == 513
  {
  }

  /** Page 0 needs nothing; page 512 needs a second level-1 table, and there is no frame. */
  lemma OnePageStops(flags: Flags)
    ensures var m := OnePage(flags); Wf(m) && IsRoot(m, 0) && !Stops(m, 0, 0, 0, 0) && Stops(m, 0, 0, 0, 512)
  {
    hide Wf, Trans, Huge, Absent, OnePage, KeyAt;
    var m := OnePage(flags);
    KeysUsed();
    OnePageSpec(flags, KeyAt(0, 0));
    OnePageSpec(flags, KeyAt(0, 512));
    SecondTable();
    NeedHas(m, 0, 0, 0, 513, 512);
    assert SpotOf(Key(0, 0, 1, 0), 1) in Need(m, 0, 0, 0, 513);
    assert Need(m, 0, 0, 0, 1) == Absent(m, 0, KeyAt(0, 0)) == {};
  }

  /** A range of 513 pages is mapped over a mapped page, with no frame left for a second level-1 table. */
  lemma MappingLost(frame: nat, flags: Flags)
    ensures var m := OnePage(flags);
      && Wf(m) && IsRoot(m, 0) && Trans(m, 0, KeyAt(0, 0)).Page?
      && var o := MapRange(m, 0, 0, frame, 513 * PAGE_SIZE, flags);
         o.Some? && !o.value.1 && Wf(o.value.0) && !Restored(m, o.value.0)
  {
    hide Wf, Trans, OnePage, MapRange, Restored, Stops, KeyAt, Limit, FirstStop;
    var m := OnePage(flags);
    OnePageSpec(flags, KeyAt(0, 0));
    OnePageStops(flags);
    KeysUsed();
    FirstStopIs(m, 0, 0, 0, 0, 513);
    FailedRangeRestoresIff(m, 0, 0, frame, 513 * PAGE_SIZE, flags);
  }

  lemma SecondTable()
    ensures SpotOf(Key(0, 0, 1, 0), 1) in (set level | 1 <= level <= 3 :: SpotOf(Key(0, 0, 1, 0), level))
    ensures SpotOf(Key(0, 0, 1, 0), 1) !in (set level | 1 <= level <= 3 :: SpotOf(Key(0, 0, 0, 0), level))
  {
    assert SpotOf(Key(0, 0, 1, 0), 1) == Spot(1, 0, 0, 1);
  }

  // ----------------------------------------------------- the counter wraps

  const TOP_PAGE: nat := U64 - PAGE_SIZE

  lemma TopPageKeys()
    ensures KeyAt(TOP_PAGE, 0) == KeyOf(TOP_PAGE) == Key(511, 511, 511, 511) && KeyAt(TOP_PAGE, 1) == Key(0, 0, 0, 0)
    ensures PagesIn(TOP_PAGE, 1) == 1 && RunsOn(TOP_PAGE, 1) && Counter(TOP_PAGE, 1) == 0 && Going(TOP_PAGE, 1, 1)
  {
    assert TOP_PAGE == PAGE_SIZE * 0xF_FFFF_FFFF_FFFF;
    assert TOP_PAGE / PAGE_SIZE == 0xF_FFFF_FFFF_FFFF;
    assert (TOP_PAGE + PAGE_SIZE * 1) / PAGE_SIZE == 0x10_0000_0000_0000;
  }

  /**
   One page is asked for, the last of the address space, and there are frames for its
   tables only: the loop goes on at address 0, which fails, and the rollback takes
   nothing back.  The page stays mapped though the call reports failure.
   */
  lemma TopPageStays(frame: nat, flags: Flags)
    ensures var m := EmptySpace([1, 2, 3]);
      && Wf(m) && IsRoot(m, 0) && PagesIn(TOP_PAGE, 1) == 1 && Trans(m, 0, KeyOf(TOP_PAGE)) == NoMap
      && var o := MapRange(m, 0, TOP_PAGE, frame, 1, flags);
         && o.Some? && !o.value.1 && Wf(o.value.0) && IsRoot(o.value.0, 0)
         && Trans(o.value.0, 0, KeyOf(TOP_PAGE)).Page? && !Restored(m, o.value.0)
  {
    hide Wf, Trans, MapRange, Missing, Huge, KeyAt, KeyOf, RunsOn, PagesIn, Alias, PathFlags;
    var m := EmptySpace([1, 2, 3]);
    TopPageKeys();
    EmptySpaceWf([1, 2, 3], KeyAt(TOP_PAGE, 0));
    EmptySpaceWf([1, 2, 3], KeyAt(TOP_PAGE, 1));
    TopPageStops(m);
    RangeSpec(m, 0, TOP_PAGE, frame, 1, flags, 0, KeyOf(TOP_PAGE));
    AliasSelf(m, 0, 511);
    assert LastHit(TOP_PAGE, 0, 1, KeyAt(TOP_PAGE, 0)) == Some(0);
  }

  lemma TopPageStops(m: Mem)
    requires Wf(m) && IsRoot(m, 0) && |m.pool| == 3
    requires forall p | 0 <= p < 2 :: Missing(m, 0, KeyAt(TOP_PAGE, p)) == 3 && !Huge(m, 0, KeyAt(TOP_PAGE, p))
    ensures Reach(m, 0, TOP_PAGE, 1) == 1 && Stops(m, 0, TOP_PAGE, 0, 1)
  {
    hide Wf, Missing, Huge, KeyAt, KeyOf, PagesIn, RunsOn;
    TopPageKeys();
    var k, l := KeyAt(TOP_PAGE, 0), KeyAt(TOP_PAGE, 1);
    AbsentSize(m, 0, k);
    AbsentSize(m, 0, l);
    var a, b := Absent(m, 0, k), Absent(m, 0, l);
    assert a * b == {};
    assert Need(m, 0, TOP_PAGE, 0, 1) == a;
    assert Need(m, 0, TOP_PAGE, 0, 2) == a + b && |a + b| == |a| + |b|;
    FirstStopIs(m, 0, TOP_PAGE, 0, 0, ENTRIES);
    assert !Stops(m, 0, TOP_PAGE, 0, 0) && Stops(m, 0, TOP_PAGE, 0, 1);
  }
}
