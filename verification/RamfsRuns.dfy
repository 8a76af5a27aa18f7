/**
 What each request does to the tree, and whole runs (fs/ramfs/main.c).
 */
module RamfsRuns {

  import opened Common
  import opened Ramfs

  /** The same files and directories; only the remains in free inodes may differ. */
  predicate Same(a: Fs, b: Fs) {
    && |a.inodes| == |b.inodes| && a.num == b.num
    && forall x | 0 <= x < |a.inodes| ::
         a.inodes[x].kind == b.inodes[x].kind && (a.inodes[x].kind != Free ==> a.inodes[x] == b.inodes[x])
  }

  lemma {:induction false} InUseSame(a: seq<Inode>, b: seq<Inode>)
    requires |a| == |b| && forall x | 0 <= x < |a| :: a[x].kind == b[x].kind
    ensures InUse(a) == InUse(b)
  {
    if a != [] { InUseSame(a[1..], b[1..]); }
  }

  /** What free inodes still hold does not matter. */
  lemma SameInv(a: Fs, b: Fs)
    requires Inv(a) && Same(a, b)
    ensures Inv(b)
  {
    hide CountDirs, InUse, Rooted, Listed;
    InUseSame(a.inodes, b.inodes);
    forall d | IsDir(a, d) ensures Parent(b, d) == Parent(a, d) {}
    forall d | 0 <= d < MAX_INODES && b.inodes[d].kind == Dir ensures DirOk(b, d) && Rooted(b, d) {
      assert DirOk(a, d);
      CountDirsFrame(a.inodes, b.inodes, a.inodes[d].entries[2..]);
      RootedFrame(a, b, d);
    }
    forall d, x: nat ensures Names(b, d, x) <==> Names(a, d, x) {}
  }

  // ------------------------------------------------------------------ create

  function NewFile(): Inode { Inode(File, 1, []) }

  function NewDir(i: nat, d: nat): Inode { Inode(Dir, 2, [Entry(".", i), Entry("..", d)]) }

  /** Why entering a name in a directory fails, if it does. */
  function Refusal(fs: Fs, d: nat, name: string): Option<Error>
    requires d < |fs.inodes|
  {
    if fs.inodes[d].kind != Dir then Some(Invalid)
    else if |fs.inodes[d].entries| >= MAX_ENTRIES then Some(NoMemory)
    else if Find(fs.inodes[d].entries, name).Some? then Some(Exists)
    else None
  }

  /** Creation enters exactly one new file, or changes nothing that is in use. */
  lemma CreateSpec(fs: Fs, d: nat, name: string)
    requires Inv(fs) && d < MAX_INODES
    ensures var (z, r) := Create(fs, d, name); var a := AllocFrom(fs.inodes, 1);
      && Inv(z)
      && r == (if a.None? then Fail(NoMemory) else if Refusal(fs, d, name).Some? then Fail(Refusal(fs, d, name).value) else Done(a.value))
      && (if r.Done? then z == Grow(fs, d, r.ino, name, NewFile()) else Same(fs, z))
  {
    hide Inv;
    RootUsed(fs);
    var (z, r) := Create(fs, d, name);
    if r.Done? {
      GrowInv(fs, d, r.ino, name, NewFile());
    } else {
      SameInv(fs, z);
    }
  }

  /** The directory that would be its own parent. */
  predicate Swallows(fs: Fs, d: nat, name: string) {
    AllocFrom(fs.inodes, 1) == Some(d) && name != "." && name != ".."
  }

  lemma MkdirCases(fs: Fs, d: nat, name: string)
    requires Inv(fs) && d < MAX_INODES && AllocFrom(fs.inodes, 1) != Some(d)
    ensures var (z, r) := Mkdir(fs, d, name); var a := AllocFrom(fs.inodes, 1);
      && r == (if a.None? then Fail(NoMemory) else if Refusal(fs, d, name).Some? then Fail(Refusal(fs, d, name).value) else Done(a.value))
      && (if r.Done? then z == Grow(fs, d, r.ino, name, NewDir(r.ino, d)) else Same(fs, z))
  {
    hide Inv;
    RootUsed(fs);
    var a := AllocFrom(fs.inodes, 1);
    if a.Some? {
      var i := a.value;
      var f1 := InitInode(fs, i, Dir);
      var f2 := f1.(inodes := f1.inodes[i := f1.inodes[i].(nlink := 2)]);
      DotEntries(f2, i, d);
      assert AddEntry(AddEntry(f2, i, ".", i).0, i, "..", d).0.inodes == fs.inodes[i := NewDir(i, d)];
    }
  }

  lemma DotEntries(fs: Fs, i: nat, d: nat)
    requires i < |fs.inodes| && fs.inodes[i].kind == Dir && fs.inodes[i].entries == []
    ensures AddEntry(AddEntry(fs, i, ".", i).0, i, "..", d).0 ==
      fs.(inodes := fs.inodes[i := fs.inodes[i].(entries := [Entry(".", i), Entry("..", d)])])
  {
    var g := AddEntry(fs, i, ".", i).0;
    var one := [Entry(".", i)];
    assert fs.inodes[i].entries + one == one;
    assert g.inodes == fs.inodes[i := fs.inodes[i].(entries := one)];
    assert |"."| == 1 && |".."| == 2;
    assert one[0].name != ".." && one[1..] == [];
    assert Find(one, "..").None?;
    var h := AddEntry(g, i, "..", d).0;
    assert h.inodes[i].entries == [Entry(".", i), Entry("..", d)];
    assert h.inodes == fs.inodes[i := h.inodes[i]];
  }

  /**
   Making a directory enters exactly one, or changes nothing in use.  It keeps the
   tree exactly when the parent is not the free inode about to be used: then the new
   directory would hang from itself.
   */
  lemma MkdirSpec(fs: Fs, d: nat, name: string)
    requires Inv(fs) && d < MAX_INODES
    ensures Inv(Mkdir(fs, d, name).0) <==> !Swallows(fs, d, name)
    ensures !Swallows(fs, d, name) && AllocFrom(fs.inodes, 1) != Some(d) ==>
      var (z, r) := Mkdir(fs, d, name);
      if r.Done? then z == Grow(fs, d, r.ino, name, NewDir(r.ino, d)) else Same(fs, z)
  {
    hide Inv;
    RootUsed(fs);
    var (z, r) := Mkdir(fs, d, name);
    if AllocFrom(fs.inodes, 1) != Some(d) {
      MkdirCases(fs, d, name);
      if r.Done? {
        GrowInv(fs, d, r.ino, name, NewDir(r.ino, d));
      } else {
        SameInv(fs, z);
      }
    } else {
      MkdirInside(fs, d, name);
      if Swallows(fs, d, name) { SelfParent(z, d); } else { SameInv(fs, z); }
    }
  }

  lemma MkdirInside(fs: Fs, d: nat, name: string)
    requires |fs.inodes| == MAX_INODES && d < MAX_INODES && AllocFrom(fs.inodes, 1) == Some(d)
    ensures !Swallows(fs, d, name) ==> Same(fs, Mkdir(fs, d, name).0)
    ensures Swallows(fs, d, name) ==> IsDir(Mkdir(fs, d, name).0, d) && Parent(Mkdir(fs, d, name).0, d) == d
  {
    var f1 := InitInode(fs, d, Dir);
    var f2 := f1.(inodes := f1.inodes[d := f1.inodes[d].(nlink := 2)]);
    DotEntries(f2, d, d);
    var f3 := AddEntry(AddEntry(f2, d, ".", d).0, d, "..", d).0;
    var q := [Entry(".", d), Entry("..", d)];
    assert f3.inodes == fs.inodes[d := Inode(Dir, 2, q)];
    assert Find(q, name).Some? <==> name == "." || name == ".." by {
      assert q[0].name == "." && q[1].name == "..";
    }
  }

  /** A directory that is its own parent and not the root is not part of the tree. */
  lemma SelfParent(fs: Fs, d: nat)
    requires IsDir(fs, d) && Parent(fs, d) == d && d != ROOT
    ensures !Inv(fs)
  {
    forall n: nat ensures Up(fs, d, n) != ROOT { UpSelf(fs, d, n); }
    assert !Rooted(fs, d);
  }

  lemma {:induction false} UpSelf(fs: Fs, d: nat, n: nat)
    requires Parent(fs, d) == d
    ensures Up(fs, d, n) == d
  {
    if n > 0 { UpSelf(fs, d, n - 1); }
  }

  // ------------------------------------------------------------------ unlink

  /** Unlinking removes exactly the named file, or changes nothing. */
  lemma UnlinkSpec(fs: Fs, d: nat, name: string)
    requires Inv(fs) && d < MAX_INODES
    ensures var (z, r) := Unlink(fs, d, name);
      && Inv(z)
      && (if IsDir(fs, d) && Find(fs.inodes[d].entries, name).Some?
             && fs.inodes[d].entries[Find(fs.inodes[d].entries, name).value].ino < MAX_INODES
             && fs.inodes[fs.inodes[d].entries[Find(fs.inodes[d].entries, name).value].ino].kind == File
          then
            var k := Find(fs.inodes[d].entries, name).value;
            r == Done(fs.inodes[d].entries[k].ino) && 2 <= k
            && z == Shrink(fs, d, k, fs.inodes[r.ino].(kind := Free, nlink := 0))
          else r.Fail? && z == fs)
  {
    hide Inv;
    RootUsed(fs);
    if IsDir(fs, d) && Find(fs.inodes[d].entries, name).Some? {
      var k := Find(fs.inodes[d].entries, name).value;
      EntryTarget(fs, d, k);
      var x := fs.inodes[d].entries[k].ino;
      if fs.inodes[x].kind == File {
        OneLink(fs, x);
        ShrinkInv(fs, d, k, fs.inodes[x].(kind := Free, nlink := 0));
      }
    }
  }

  /** Entries lead to inodes in use; the first two lead to directories. */
  lemma EntryTarget(fs: Fs, d: nat, k: nat)
    requires Inv(fs) && IsDir(fs, d) && k < |fs.inodes[d].entries|
    ensures var x := fs.inodes[d].entries[k].ino;
      x < MAX_INODES && fs.inodes[x].kind != Free && (fs.inodes[x].kind == File ==> 2 <= k)
  {
    hide CountDirs, InUse, Rooted;
    assert DirOk(fs, d);
    if k >= 2 { assert ChildOk(fs, d, fs.inodes[d].entries[k].ino); }
  }

  lemma OneLink(fs: Fs, x: nat)
    requires Inv(fs) && x < MAX_INODES && fs.inodes[x].kind == File
    ensures fs.inodes[x].nlink == 1
  {
  }

  /** Creating a file and unlinking it leaves every file and directory as it was. */
  lemma CreateThenUnlink(fs: Fs, d: nat, name: string)
    requires Inv(fs) && d < MAX_INODES && Create(fs, d, name).1.Done?
    ensures var z := Create(fs, d, name).0; var (w, r) := Unlink(z, d, name);
      r == Done(Create(fs, d, name).1.ino) && Same(fs, w)
  {
    hide Inv;
    RootUsed(fs);
    CreateSpec(fs, d, name);
    var (z, c) := Create(fs, d, name);
    UnlinkSpec(z, d, name);
    var q := fs.inodes[d].entries;
    FindAppended(q, name, c.ino);
    assert RemoveAt(q + [Entry(name, c.ino)], |q|) == q;
  }

  lemma {:induction false} FindAppended(q: seq<Entry>, name: string, i: nat)
    requires Find(q, name).None?
    ensures Find(q + [Entry(name, i)], name) == Some(|q|)
  {
    if q != [] {
      assert (q + [Entry(name, i)])[1..] == q[1..] + [Entry(name, i)];
      FindAppended(q[1..], name, i);
    }
  }

  // -------------------------------------------------------------------- runs

  datatype Op = OCreate(d: nat, name: string) | OMkdir(d: nat, name: string) | OUnlink(d: nat, name: string)

  predicate Legal(fs: Fs, op: Op) {
    op.d < MAX_INODES && (op.OMkdir? ==> !Swallows(fs, op.d, op.name))
  }

  function Step(fs: Fs, op: Op): Fs
    requires op.d < |fs.inodes|
  {
    match op
    case OCreate(d, name) => Create(fs, d, name).0
    case OMkdir(d, name) => Mkdir(fs, d, name).0
    case OUnlink(d, name) => Unlink(fs, d, name).0
  }

  lemma StepInv(fs: Fs, op: Op)
    requires Inv(fs) && Legal(fs, op)
    ensures |fs.inodes| == MAX_INODES && Inv(Step(fs, op))
  {
    hide Inv, Create, Mkdir, Unlink;
    RootUsed(fs);
    match op
    case OCreate(d, name) => CreateSpec(fs, d, name);
    case OMkdir(d, name) => MkdirSpec(fs, d, name);
    case OUnlink(d, name) => UnlinkSpec(fs, d, name);
  }

  ghost predicate LegalRun(fs: Fs, run: seq<Op>)
    requires Inv(fs)
    decreases |run|
  {
    run == [] || (Legal(fs, run[0]) && (StepInv(fs, run[0]); LegalRun(Step(fs, run[0]), run[1..])))
  }

  ghost function Run(fs: Fs, run: seq<Op>): Fs
    requires Inv(fs) && LegalRun(fs, run)
    decreases |run|
  {
    if run == [] then fs else StepInv(fs, run[0]); Run(Step(fs, run[0]), run[1..])
  }

  /** After `ramfs_init`: the root directory alone. */
  function Boot(): Fs {
    Fs(seq(MAX_INODES, x => if x == ROOT then Inode(Dir, 2, [Entry(".", ROOT), Entry("..", ROOT)]) else Inode(Free, 0, [])), 1)
  }

  lemma {:induction false} InUseNone(q: seq<Inode>)
    requires forall i | 0 <= i < |q| :: q[i].kind == Free
    ensures InUse(q) == 0
  {
    if q != [] { InUseNone(q[1..]); }
  }

  lemma BootInv()
    ensures Inv(Boot())
  {
    hide CountDirs;
    var fs := Boot();
    var none := fs.inodes[ROOT := Inode(Free, 0, [])];
    InUseNone(none);
    InUsePut(none, ROOT, fs.inodes[ROOT]);
    assert none[ROOT := fs.inodes[ROOT]] == fs.inodes;
    TwoEntries(fs.inodes[ROOT].entries);
    NoneCounted(fs.inodes, fs.inodes[ROOT].entries);
    assert Up(fs, ROOT, 0) == ROOT;
    assert Rooted(fs, ROOT);
    forall d, x: nat ensures !Names(fs, d, x) {}
    assert DirOk(fs, ROOT);
  }

  /**
   Over every run: each directory's ancestors lead to the root, names in a directory
   are unique, every inode in use other than the root is named by exactly one
   directory and none names a free inode, files have one link, directories two more
   than their subdirectories, and the count of inodes is right, failed requests included.
   */
  lemma {:induction false} RunInv(fs: Fs, run: seq<Op>, d: nat, x: nat)
    requires Inv(fs) && LegalRun(fs, run) && d < MAX_INODES && x < MAX_INODES
    ensures var z := Run(fs, run);
      && Inv(z) && |z.inodes| == MAX_INODES && z.num == InUse(z.inodes)
      && (z.inodes[d].kind == Dir ==>
           && Rooted(z, d) && UniqueNames(z.inodes[d].entries) && |z.inodes[d].entries| >= 2
           && z.inodes[d].nlink == 2 + CountDirs(z.inodes, z.inodes[d].entries[2..]))
      && (z.inodes[x].kind != Free && x != ROOT <==> exists e :: Names(z, e, x))
      && (forall e, f | Names(z, e, x) && Names(z, f, x) :: e == f)
    decreases |run|
  {
    hide Inv, Step, CountDirs, InUse, Rooted, Names;
    if run == [] {
      InvFacts(fs, d, x);
    } else {
      RootUsed(fs);
      StepInv(fs, run[0]);
      RunInv(Step(fs, run[0]), run[1..], d, x);
    }
  }

  lemma InvFacts(z: Fs, d: nat, x: nat)
    requires Inv(z) && d < MAX_INODES && x < MAX_INODES
    ensures |z.inodes| == MAX_INODES && z.num == InUse(z.inodes)
    ensures z.inodes[d].kind == Dir ==>
      && Rooted(z, d) && UniqueNames(z.inodes[d].entries) && |z.inodes[d].entries| >= 2
      && z.inodes[d].nlink == 2 + CountDirs(z.inodes, z.inodes[d].entries[2..])
    ensures z.inodes[x].kind != Free && x != ROOT <==> exists e :: Names(z, e, x)
    ensures forall e, f | Names(z, e, x) && Names(z, f, x) :: e == f
  {
    hide CountDirs, InUse, Listed;
    if z.inodes[d].kind == Dir { assert DirOk(z, d) && Rooted(z, d); }
    forall e | Names(z, e, x) ensures z.inodes[x].kind != Free && x != ROOT {
      assert DirOk(z, e);
      ListedChild(z, e, x);
    }
  }

  lemma ListedChild(fs: Fs, d: nat, x: nat)
    requires d < |fs.inodes| && DirOk(fs, d) && Listed(fs.inodes[d].entries, x)
    ensures ChildOk(fs, d, x)
  {
  }

  /** A directory made inside the free inode it is about to get. */
  lemma MkdirInFreeInode()
    ensures Inv(Boot()) && !Inv(Mkdir(Boot(), 2, "a").0)
  {
    hide Inv;
    BootInv();
    MkdirSpec(Boot(), 2, "a");
  }
}
