/**
 Runs over several address spaces: the user half of each page table refines a
 flat map from pages to frames and flags.
 */
module PagingRuns {

  import opened Common
  import opened Paging
  import opened PagingOps
  import opened PagingTree

  /** One flat map per live address space. */
  type Flat = map<nat, map<Key, Xlat>>

  datatype Op =
    | OCreate
    | ODestroy(r: nat)
    | OMap(r: nat, k: Key, frame: nat, flags: Flags)
    | OUnmap(r: nat, k: Key)

  function Lookup(F: map<Key, Xlat>, k: Key): Xlat {
    if k in F then F[k] else NoMap
  }

  ghost predicate SpaceOk(m: Mem, F: map<Key, Xlat>, r: nat)
    requires Wf(m)
  {
    && IsRoot(m, r)
    && (forall k: Key | k.i4 < 256 :: Trans(m, r, k) == Lookup(F, k))
    && (forall k: Key | k.i4 < 256 :: PathFlags(m, r, k) == OPEN)
    && (forall k: Key | k.i4 < 256 :: !Huge(m, r, k))
  }

  /** The page tables translate the user half as the flat maps say. */
  ghost predicate Sim(m: Mem, A: Flat, kernel: nat) {
    && Wf(m) && IsRoot(m, kernel) && kernel !in A
    && forall r | r in A :: SpaceOk(m, A[r], r)
  }

  predicate Legal(A: Flat, op: Op) {
    op.OCreate? || op.r in A
  }

  ghost function Concrete(m: Mem, A: Flat, kernel: nat, op: Op): (Mem, bool)
    requires Sim(m, A, kernel) && Legal(A, op)
  {
    match op
    case OCreate => assert TableOk(m, kernel); (CreateRoot(m, Some(kernel)).0, m.pool != [])
    case ODestroy(r) => assert SpaceOk(m, A[r], r); (DestroyRoot(m, r), true)
    case OMap(r, k, frame, flags) => assert SpaceOk(m, A[r], r); Map(m, r, k, frame, flags)
    case OUnmap(r, k) => assert SpaceOk(m, A[r], r); Unmap(m, r, k)
  }

  /** The same operation on the flat maps; kernel-half keys are not theirs. */
  function Abstract(A: Flat, op: Op, ok: bool, newRoot: nat): Flat
    requires Legal(A, op)
  {
    if !ok then A
    else match op
      case OCreate => A[newRoot := map[]]
      case ODestroy(r) => A - {r}
      case OMap(r, k, frame, flags) => if k.i4 < 256 then A[r := A[r][k := Page(frame, flags)]] else A
      case OUnmap(r, k) => if k.i4 < 256 then A[r := A[r] - {k}] else A
  }

  function FreshOf(m: Mem): nat {
    if m.pool == [] then 0 else m.pool[0]
  }

  lemma MapStep(m: Mem, A: Flat, kernel: nat, r: nat, k: Key, frame: nat, flags: Flags)
    requires Sim(m, A, kernel) && r in A && IsRoot(m, r)
    ensures var (n, ok) := Map(m, r, k, frame, flags);
      && Sim(n, Abstract(A, OMap(r, k, frame, flags), ok, 0), kernel)
      && (k.i4 < 256 ==> (ok <==> Missing(m, r, k) <= |m.pool|))
  {
    hide Wf, Trans, PathFlags, Huge, Map, Alias;
    var (n, ok) := Map(m, r, k, frame, flags);
    var B := Abstract(A, OMap(r, k, frame, flags), ok, 0);
    MapSpec(m, r, k, frame, flags, kernel, k);
    assert SpaceOk(m, A[r], r);
    assert Meet(OPEN, flags) == flags;
    forall s | s in B ensures SpaceOk(n, B[s], s) {
      assert SpaceOk(m, A[s], s);
      MapSpec(m, r, k, frame, flags, s, k);
      forall l: Key | l.i4 < 256
        ensures Trans(n, s, l) == Lookup(B[s], l) && PathFlags(n, s, l) == OPEN && !Huge(n, s, l)
      {
        MapSpec(m, r, k, frame, flags, s, l);
        AliasUser(m, r, s, l.i4);
      }
    }
  }

  lemma AliasUser(m: Mem, root: nat, r: nat, i: Idx)
    requires Wf(m) && IsRoot(m, root) && IsRoot(m, r) && i < 256
    ensures Alias(m, root, r, i) <==> r == root
  {
    if Alias(m, root, r, i) && r != root { AliasIsKernel(m, root, r, i); }
  }

  lemma UnmapStep(m: Mem, A: Flat, kernel: nat, r: nat, k: Key)
    requires Sim(m, A, kernel) && r in A && IsRoot(m, r)
    ensures var (n, ok) := Unmap(m, r, k);
      && Sim(n, Abstract(A, OUnmap(r, k), ok, 0), kernel)
      && (k.i4 < 256 ==> (ok <==> Lookup(A[r], k) != NoMap))
  {
    hide Wf, Trans, PathFlags, Huge, Unmap, Alias;
    var (n, ok) := Unmap(m, r, k);
    var B := Abstract(A, OUnmap(r, k), ok, 0);
    UnmapSpec(m, r, k, kernel, k);
    assert SpaceOk(m, A[r], r);
    forall s | s in B ensures SpaceOk(n, B[s], s) {
      assert SpaceOk(m, A[s], s);
      UnmapSpec(m, r, k, s, k);
      forall l: Key | l.i4 < 256
        ensures Trans(n, s, l) == Lookup(B[s], l) && PathFlags(n, s, l) == OPEN && !Huge(n, s, l)
      {
        UnmapSpec(m, r, k, s, l);
        AliasUser(m, r, s, l.i4);
      }
    }
  }

  lemma CreateStep(m: Mem, A: Flat, kernel: nat)
    requires Sim(m, A, kernel) && m.pool != [] && TableOk(m, kernel)
    ensures Sim(CreateRoot(m, Some(kernel)).0, A[m.pool[0] := map[]], kernel)
  {
    hide Wf, Trans, PathFlags, Huge, CreateRoot;
    var n := CreateRoot(m, Some(kernel)).0;
    var c := m.pool[0];
    var B := A[c := map[]];
    CreateSpec(m, Some(kernel), kernel, Key(0, 0, 0, 0));
    forall s | s in B ensures SpaceOk(n, B[s], s) {
      if s != c { assert SpaceOk(m, A[s], s); }
      CreateSpec(m, Some(kernel), s, Key(0, 0, 0, 0));
      forall l: Key | l.i4 < 256
        ensures Trans(n, s, l) == Lookup(B[s], l) && PathFlags(n, s, l) == OPEN && !Huge(n, s, l)
      {
        CreateSpec(m, Some(kernel), s, l);
        if s != c { CreateKeeps(m, Some(kernel), s, l); }
      }
    }
  }

  lemma DestroyStep(m: Mem, A: Flat, kernel: nat, r: nat)
    requires Sim(m, A, kernel) && r in A && IsRoot(m, r)
    ensures Sim(DestroyRoot(m, r), A - {r}, kernel)
  {
    hide Wf, Trans, PathFlags, Huge, DestroyRoot;
    var n := DestroyRoot(m, r);
    DestroySpec(m, r, kernel, Key(0, 0, 0, 0));
    forall s | s in A && s != r ensures SpaceOk(n, A[s], s) {
      assert SpaceOk(m, A[s], s);
      DestroySpec(m, r, s, Key(0, 0, 0, 0));
      forall l: Key | l.i4 < 256
        ensures Trans(n, s, l) == Lookup(A[s], l) && PathFlags(n, s, l) == OPEN && !Huge(n, s, l)
      {
        DestroySpec(m, r, s, l);
        RootStays(m, r, s);
        DestroyKeeps(m, r, s, l);
      }
    }
  }

  lemma StepSim(m: Mem, A: Flat, kernel: nat, op: Op)
    requires Sim(m, A, kernel) && Legal(A, op)
    ensures Sim(Concrete(m, A, kernel, op).0, Abstract(A, op, Concrete(m, A, kernel, op).1, FreshOf(m)), kernel)
  {
    hide Map, Unmap, CreateRoot, DestroyRoot, SpaceOk;
    match op
    case OCreate =>
      assert TableOk(m, kernel);
      if m.pool != [] { CreateStep(m, A, kernel); } else { NoRoom(m, kernel); }
    case ODestroy(r) => RootOf(m, A, kernel, r); DestroyStep(m, A, kernel, r);
    case OMap(r, k, frame, flags) => RootOf(m, A, kernel, r); MapStep(m, A, kernel, r, k, frame, flags);
    case OUnmap(r, k) => RootOf(m, A, kernel, r); UnmapStep(m, A, kernel, r, k);
  }

  lemma NoRoom(m: Mem, kernel: nat)
    requires kernel in m.tables && |m.tables[kernel].slots| == 512 && m.pool == []
    ensures CreateRoot(m, Some(kernel)).0 == m
  {
  }

  lemma RootOf(m: Mem, A: Flat, kernel: nat, r: nat)
    requires Sim(m, A, kernel) && r in A
    ensures IsRoot(m, r)
  {
    assert SpaceOk(m, A[r], r);
  }

  // ------------------------------------------------------------------ runs

  ghost predicate LegalRun(m: Mem, A: Flat, kernel: nat, run: seq<Op>)
    requires Sim(m, A, kernel)
    decreases |run|
  {
    run == [] ||
    (Legal(A, run[0]) &&
     (StepSim(m, A, kernel, run[0]);
      var (n, ok) := Concrete(m, A, kernel, run[0]);
      LegalRun(n, Abstract(A, run[0], ok, FreshOf(m)), kernel, run[1..])))
  }

  ghost function Run(m: Mem, A: Flat, kernel: nat, run: seq<Op>): (Mem, Flat)
    requires Sim(m, A, kernel) && LegalRun(m, A, kernel, run)
    decreases |run|
  {
    if run == [] then (m, A)
    else
      StepSim(m, A, kernel, run[0]);
      var (n, ok) := Concrete(m, A, kernel, run[0]);
      Run(n, Abstract(A, run[0], ok, FreshOf(m)), kernel, run[1..])
  }

  /**
   After any run of creations, destructions, maps and unmaps over any number of
   address spaces, every user page of every space translates exactly as the flat
   map holding only the operations that succeeded.
   */
  lemma {:induction false} RunRefinesFlat(m: Mem, A: Flat, kernel: nat, run: seq<Op>, r: nat, k: Key)
    requires Sim(m, A, kernel) && LegalRun(m, A, kernel, run)
    ensures var (n, B) := Run(m, A, kernel, run);
      && Sim(n, B, kernel)
      && (r in B && k.i4 < 256 ==> IsRoot(n, r) && Trans(n, r, k) == Lookup(B[r], k))
    decreases |run|
  {
    hide Sim, Concrete, Abstract, Legal;
    if run == [] {
      FlatHolds(m, A, kernel, r, k);
    } else {
      StepSim(m, A, kernel, run[0]);
      var (n, ok) := Concrete(m, A, kernel, run[0]);
      RunRefinesFlat(n, Abstract(A, run[0], ok, FreshOf(m)), kernel, run[1..], r, k);
    }
  }

  lemma FlatHolds(m: Mem, A: Flat, kernel: nat, r: nat, k: Key)
    requires Sim(m, A, kernel)
    ensures Wf(m) && (r in A && k.i4 < 256 ==> IsRoot(m, r) && Trans(m, r, k) == Lookup(A[r], k))
  {
    if r in A { assert SpaceOk(m, A[r], r); }
  }
}
