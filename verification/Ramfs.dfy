/**
 The in-memory file system's directory tree (fs/ramfs/main.c): a table of inodes,
 directories as lists of entries, link counts and the count of inodes in use.

 Names are sequences of characters that fit their field, so that storing and
 comparing them is exact.
 */
module Ramfs {

  import opened Common

  const MAX_INODES: nat := 128
  const MAX_ENTRIES: nat := 32
  const ROOT: nat := 1

  datatype Kind = Free | File | Dir

  datatype Entry = Entry(name: string, ino: nat)

  datatype Inode = Inode(kind: Kind, nlink: int, entries: seq<Entry>)

  datatype Fs = Fs(inodes: seq<Inode>, num: int)

  datatype Error = Invalid | NoMemory | Exists | NotFound | NotPermitted

  datatype Result = Done(ino: nat) | Fail(error: Error)

  // ------------------------------------------------------------- operations

  /** `alloc_inode`: the first free one from `i` on. */
  function AllocFrom(inodes: seq<Inode>, i: nat): (r: Option<nat>)
    ensures r.Some? ==> i <= r.value < |inodes| && inodes[r.value].kind == Free && forall j | i <= j < r.value :: inodes[j].kind != Free
    ensures r.None? ==> forall j | i <= j < |inodes| :: inodes[j].kind != Free
    decreases |inodes| - i
  {
    if i >= |inodes| then None else if inodes[i].kind == Free then Some(i) else AllocFrom(inodes, i + 1)
  }

  /** The position of a name among the entries. */
  function Find(q: seq<Entry>, name: string): (r: Option<nat>)
    ensures r.Some? ==> r.value < |q| && q[r.value].name == name && forall i | 0 <= i < r.value :: q[i].name != name
    ensures r.None? ==> forall i | 0 <= i < |q| :: q[i].name != name
  {
    if q == [] then None
    else if q[0].name == name then Some(0)
    else
      assert q == [q[0]] + q[1..];
      var r := Find(q[1..], name); if r.None? then None else Some(r.value + 1)
  }

  /** `dir_add_entry`. */
  function AddEntry(fs: Fs, d: nat, name: string, ino: nat): (Fs, Option<Error>)
    requires d < |fs.inodes|
  {
    var D := fs.inodes[d];
    if D.kind != Dir then (fs, Some(Invalid))
    else if |D.entries| >= MAX_ENTRIES then (fs, Some(NoMemory))
    else if Find(D.entries, name).Some? then (fs, Some(Exists))
    else (fs.(inodes := fs.inodes[d := D.(entries := D.entries + [Entry(name, ino)])]), None)
  }

  /** `init_inode`. */
  function InitInode(fs: Fs, i: nat, k: Kind): Fs
    requires i < |fs.inodes|
  {
    Fs(fs.inodes[i := Inode(k, 1, [])], fs.num + 1)
  }

  /** Give a half-made inode back. */
  function Undo(fs: Fs, i: nat): Fs
    requires i < |fs.inodes|
  {
    Fs(fs.inodes[i := fs.inodes[i].(kind := Free)], fs.num - 1)
  }

  /** `handle_create`. */
  function Create(fs: Fs, d: nat, name: string): (Fs, Result)
    requires d < |fs.inodes|
  {
    var a := AllocFrom(fs.inodes, 1);
    if a.None? then (fs, Fail(NoMemory))
    else
      var (z, e) := AddEntry(InitInode(fs, a.value, File), d, name, a.value);
      if e.Some? then (Undo(z, a.value), Fail(e.value)) else (z, Done(a.value))
  }

  /** `handle_mkdir`. */
  function Mkdir(fs: Fs, d: nat, name: string): (Fs, Result)
    requires d < |fs.inodes|
  {
    var a := AllocFrom(fs.inodes, 1);
    if a.None? then (fs, Fail(NoMemory))
    else
      var i := a.value;
      var f1 := InitInode(fs, i, Dir);
      var f2 := f1.(inodes := f1.inodes[i := f1.inodes[i].(nlink := 2)]);
      var f3 := AddEntry(AddEntry(f2, i, ".", i).0, i, "..", d).0;
      var (z, e) := AddEntry(f3, d, name, i);
      if e.Some? then (Undo(z, i), Fail(e.value))
      else (z.(inodes := z.inodes[d := z.inodes[d].(nlink := z.inodes[d].nlink + 1)]), Done(i))
  }

  function RemoveAt(q: seq<Entry>, k: nat): seq<Entry>
    requires k < |q|
  {
    q[..k] + q[k + 1..]
  }

  /** `handle_unlink`. */
  function Unlink(fs: Fs, d: nat, name: string): (Fs, Result)
    requires d < |fs.inodes|
  {
    var k := Find(fs.inodes[d].entries, name);
    if fs.inodes[d].kind != Dir || k.None? then (fs, Fail(NotFound))
    else
      var x := fs.inodes[d].entries[k.value].ino;
      if x >= |fs.inodes| || fs.inodes[x].kind == Dir then (fs, Fail(NotPermitted))
      else
        var n := fs.inodes[x].nlink - 1;
        var X := fs.inodes[x].(nlink := n, kind := if n == 0 then Free else fs.inodes[x].kind);
        var z := Fs(fs.inodes[x := X], if n == 0 then fs.num - 1 else fs.num);
        (z.(inodes := z.inodes[d := z.inodes[d].(entries := RemoveAt(z.inodes[d].entries, k.value))]), Done(x))
  }

  // -------------------------------------------------------------- invariant

  /** Directory `d` names `x` by an entry other than "." and "..". */
  predicate Names(fs: Fs, d: nat, x: nat) {
    d < |fs.inodes| && fs.inodes[d].kind == Dir && Listed(fs.inodes[d].entries, x)
  }

  predicate Listed(q: seq<Entry>, x: nat) {
    exists i :: 2 <= i < |q| && q[i].ino == x
  }

  function Parent(fs: Fs, d: nat): nat {
    if d < |fs.inodes| && |fs.inodes[d].entries| >= 2 then fs.inodes[d].entries[1].ino else 0
  }

  /** The ancestor `n` levels up. */
  function Up(fs: Fs, d: nat, n: nat): nat
    decreases n
  {
    if n == 0 then d else Up(fs, Parent(fs, d), n - 1)
  }

  predicate IsDir(fs: Fs, d: nat) {
    d < |fs.inodes| && fs.inodes[d].kind == Dir
  }

  /** How many of the entries name directories. */
  function CountDirs(inodes: seq<Inode>, q: seq<Entry>): nat {
    if q == [] then 0
    else (if q[0].ino < |inodes| && inodes[q[0].ino].kind == Dir then 1 else 0) + CountDirs(inodes, q[1..])
  }

  function InUse(inodes: seq<Inode>): nat {
    if inodes == [] then 0 else (if inodes[0].kind != Free then 1 else 0) + InUse(inodes[1..])
  }

  predicate UniqueNames(q: seq<Entry>) {
    forall i, j | 0 <= i < j < |q| :: q[i].name != q[j].name
  }

  predicate DistinctInodes(q: seq<Entry>) {
    forall i, j | 2 <= i < j < |q| :: q[i].ino != q[j].ino
  }

  /** A directory: itself, its parent, then uniquely named entries for inodes in use. */
  predicate DirOk(fs: Fs, d: nat)
    requires d < |fs.inodes|
  {
    var D := fs.inodes[d];
    && 2 <= |D.entries| <= MAX_ENTRIES
    && D.entries[0] == Entry(".", d) && D.entries[1].name == ".."
    && UniqueNames(D.entries) && DistinctInodes(D.entries)
    && IsDir(fs, D.entries[1].ino)
    && (forall i | 2 <= i < |D.entries| :: ChildOk(fs, d, D.entries[i].ino))
    && D.nlink == 2 + CountDirs(fs.inodes, D.entries[2..])
  }

  /** An entry names an inode in use; a subdirectory knows its parent. */
  predicate ChildOk(fs: Fs, d: nat, x: nat) {
    && x < |fs.inodes| && fs.inodes[x].kind != Free && x != ROOT
    && (fs.inodes[x].kind == Dir ==> Parent(fs, x) == d)
  }

  ghost predicate Rooted(fs: Fs, d: nat) {
    exists n: nat :: Up(fs, d, n) == ROOT
  }

  ghost predicate Inv(fs: Fs) {
    && |fs.inodes| == MAX_INODES && fs.inodes[0].kind == Free && fs.num == InUse(fs.inodes)
    && IsDir(fs, ROOT) && Parent(fs, ROOT) == ROOT
    && (forall d {:trigger DirOk(fs, d)} | 0 <= d < MAX_INODES && fs.inodes[d].kind == Dir :: DirOk(fs, d))
    && (forall d {:trigger Rooted(fs, d)} | 0 <= d < MAX_INODES && fs.inodes[d].kind == Dir :: Rooted(fs, d))
    && (forall x | 0 <= x < MAX_INODES && fs.inodes[x].kind == File :: fs.inodes[x].nlink == 1)
    && (forall x | 0 <= x < MAX_INODES && fs.inodes[x].kind != Free && x != ROOT :: exists d :: Names(fs, d, x))
    && (forall d, e, x: nat | Names(fs, d, x) && Names(fs, e, x) :: d == e)
  }

  // ------------------------------------------------------------------ lemmas

  lemma {:induction false} InUsePut(inodes: seq<Inode>, i: nat, X: Inode)
    requires i < |inodes|
    ensures InUse(inodes[i := X]) == InUse(inodes) - (if inodes[i].kind != Free then 1 else 0) + (if X.kind != Free then 1 else 0)
  {
    if i == 0 {
      assert inodes[0 := X][1..] == inodes[1..];
    } else {
      assert inodes[i := X][1..] == inodes[1..][i - 1 := X];
      InUsePut(inodes[1..], i - 1, X);
    }
  }

  /** The count depends only on which of the named inodes are directories. */
  lemma {:induction false} CountDirsFrame(a: seq<Inode>, b: seq<Inode>, q: seq<Entry>)
    requires |a| == |b|
    requires forall i | 0 <= i < |q| && q[i].ino < |a| :: (a[q[i].ino].kind == Dir <==> b[q[i].ino].kind == Dir)
    ensures CountDirs(a, q) == CountDirs(b, q)
  {
    if q != [] {
      assert q == [q[0]] + q[1..];
      CountDirsFrame(a, b, q[1..]);
    }
  }

  lemma {:induction false} CountDirsConcat(a: seq<Inode>, p: seq<Entry>, q: seq<Entry>)
    ensures CountDirs(a, p + q) == CountDirs(a, p) + CountDirs(a, q)
  {
    if p == [] {
      assert p + q == q;
    } else {
      assert (p + q)[1..] == p[1..] + q;
      CountDirsConcat(a, p[1..], q);
    }
  }

  /** Parents of directories that stay do not change, so neither do their ancestors. */
  lemma {:induction false} UpFrame(a: Fs, b: Fs, d: nat, n: nat)
    requires Inv(a) && IsDir(a, d)
    requires forall x | IsDir(a, x) :: Parent(b, x) == Parent(a, x)
    ensures Up(b, d, n) == Up(a, d, n)
    decreases n
  {
    hide Inv, Parent, IsDir;
    if n > 0 {
      ParentIsDir(a, d);
      UpFrame(a, b, Parent(a, d), n - 1);
    }
  }

  lemma ParentIsDir(fs: Fs, d: nat)
    requires Inv(fs) && IsDir(fs, d)
    ensures IsDir(fs, Parent(fs, d))
  {
    assert DirOk(fs, d);
  }

  lemma RootedFrame(a: Fs, b: Fs, d: nat)
    requires Inv(a) && IsDir(a, d)
    requires forall x | IsDir(a, x) :: Parent(b, x) == Parent(a, x)
    ensures Rooted(b, d)
  {
    assert Rooted(a, d);
    var n: nat :| Up(a, d, n) == ROOT;
    UpFrame(a, b, d, n);
  }

  // ------------------------------------------------------------ growing

  /** Make inode `i` an `X` and enter it in directory `d`. */
  function Grow(fs: Fs, d: nat, i: nat, name: string, X: Inode): Fs
    requires d < |fs.inodes| && i < |fs.inodes|
  {
    var D := fs.inodes[d];
    var D' := D.(entries := D.entries + [Entry(name, i)], nlink := if X.kind == Dir then D.nlink + 1 else D.nlink);
    Fs(fs.inodes[i := X][d := D'], fs.num + 1)
  }

  /** A file with one link, or a directory with "." and "..". */
  predicate Fresh(X: Inode, i: nat, d: nat) {
    || (X.kind == File && X.nlink == 1)
    || (X.kind == Dir && X.nlink == 2 && X.entries == [Entry(".", i), Entry("..", d)])
  }

  predicate CanGrow(fs: Fs, d: nat, i: nat, name: string) {
    && IsDir(fs, d) && 1 <= i < |fs.inodes| && fs.inodes[i].kind == Free
    && |fs.inodes[d].entries| < MAX_ENTRIES && Find(fs.inodes[d].entries, name).None?
  }

  lemma GrowNames(fs: Fs, d: nat, i: nat, name: string, X: Inode, e: nat, x: nat)
    requires Inv(fs) && CanGrow(fs, d, i, name) && Fresh(X, i, d)
    ensures Names(Grow(fs, d, i, name, X), e, x) <==> Names(fs, e, x) || (e == d && x == i)
  {
    hide CountDirs, InUse, Rooted, Listed;
    assert DirOk(fs, d);
    ListedAppend(fs.inodes[d].entries, Entry(name, i), x);
    NotListed(X.entries, x);
  }

  lemma ListedAppend(q: seq<Entry>, e: Entry, x: nat)
    requires |q| >= 2
    ensures Listed(q + [e], x) <==> Listed(q, x) || x == e.ino
  {
    var r := q + [e];
    if Listed(q, x) {
      var i :| 2 <= i < |q| && q[i].ino == x;
      assert r[i].ino == x;
    }
    if x == e.ino { assert r[|q|].ino == x; }
  }

  lemma NotListed(q: seq<Entry>, x: nat)
    ensures |q| <= 2 ==> !Listed(q, x)
  {
  }

  lemma GrowParents(fs: Fs, d: nat, i: nat, name: string, X: Inode, x: nat)
    requires Inv(fs) && CanGrow(fs, d, i, name) && Fresh(X, i, d)
    ensures IsDir(fs, x) ==> Parent(Grow(fs, d, i, name, X), x) == Parent(fs, x)
    ensures X.kind == Dir ==> Parent(Grow(fs, d, i, name, X), i) == d
  {
    hide CountDirs, InUse, Rooted;
    assert DirOk(fs, d);
  }

  lemma GrowChild(fs: Fs, d: nat, i: nat, name: string, X: Inode, e: nat, x: nat)
    requires Inv(fs) && CanGrow(fs, d, i, name) && Fresh(X, i, d)
    requires ChildOk(fs, e, x) || (e == d && x == i)
    ensures ChildOk(Grow(fs, d, i, name, X), e, x)
  {
    hide CountDirs, InUse, Rooted, DirOk, Names, Parent;
    GrowParents(fs, d, i, name, X, x);
    RootUsed(fs);
  }

  lemma RootUsed(fs: Fs)
    requires Inv(fs)
    ensures |fs.inodes| == MAX_INODES && fs.inodes[ROOT].kind == Dir && fs.inodes[0].kind == Free
  {
  }

  lemma GrowDirs(fs: Fs, d: nat, i: nat, name: string, X: Inode, e: nat)
    requires Inv(fs) && CanGrow(fs, d, i, name) && Fresh(X, i, d) && IsDir(Grow(fs, d, i, name, X), e)
    ensures DirOk(Grow(fs, d, i, name, X), e)
  {
    hide Inv, CountDirs, ChildOk, Parent, UniqueNames, DistinctInodes;
    var z := Grow(fs, d, i, name, X);
    RootUsed(fs);
    IsDirOk(fs, d);
    if e == i {
      TwoEntries(X.entries);
      NoneCounted(z.inodes, X.entries);
    } else {
      IsDirOk(fs, e);
      var q, r := fs.inodes[e].entries, z.inodes[e].entries;
      forall k | 2 <= k < |r| ensures ChildOk(z, e, r[k].ino) {
        if k < |q| { assert r[k] == q[k] && ChildOk(fs, e, q[k].ino); }
        GrowChild(fs, d, i, name, X, e, r[k].ino);
      }
      GrowCount(fs, d, i, name, X, e);
      if e == d {
        FreshEntry(fs, d, i);
        OneMore(q, name, i);
      }
    }
  }

  lemma IsDirOk(fs: Fs, d: nat)
    requires Inv(fs) && IsDir(fs, d)
    ensures DirOk(fs, d)
  {
    assert DirOk(fs, d);
  }

  lemma TwoEntries(q: seq<Entry>)
    requires |q| == 2 && q[0].name != q[1].name
    ensures UniqueNames(q) && DistinctInodes(q)
  {
  }

  lemma NoneCounted(inodes: seq<Inode>, q: seq<Entry>)
    requires |q| == 2
    ensures CountDirs(inodes, q[2..]) == 0
  {
    assert q[2..] == [];
  }

  /** A free inode is not among a directory's entries. */
  lemma FreshEntry(fs: Fs, d: nat, i: nat)
    requires Inv(fs) && IsDir(fs, d) && i < |fs.inodes| && fs.inodes[i].kind == Free
    ensures forall k | 2 <= k < |fs.inodes[d].entries| :: fs.inodes[d].entries[k].ino != i
  {
    hide CountDirs, InUse, Rooted;
    assert DirOk(fs, d);
    forall k | 2 <= k < |fs.inodes[d].entries| ensures fs.inodes[d].entries[k].ino != i {
      assert ChildOk(fs, d, fs.inodes[d].entries[k].ino);
    }
  }

  lemma OneMore(q: seq<Entry>, name: string, i: nat)
    requires UniqueNames(q) && DistinctInodes(q) && Find(q, name).None? && forall k | 2 <= k < |q| :: q[k].ino != i
    ensures UniqueNames(q + [Entry(name, i)]) && DistinctInodes(q + [Entry(name, i)])
  {
  }

  lemma GrowCount(fs: Fs, d: nat, i: nat, name: string, X: Inode, e: nat)
    requires Inv(fs) && CanGrow(fs, d, i, name) && Fresh(X, i, d) && IsDir(fs, e) && e != i
    ensures var z := Grow(fs, d, i, name, X);
      |z.inodes[e].entries| >= 2 && z.inodes[e].nlink == 2 + CountDirs(z.inodes, z.inodes[e].entries[2..])
  {
    hide InUse, Rooted;
    var z := Grow(fs, d, i, name, X);
    assert DirOk(fs, e);
    var q := fs.inodes[e].entries;
    forall k | 0 <= k < |q[2..]| ensures q[2..][k].ino != i && ChildOk(fs, e, q[2..][k].ino) {
      assert ChildOk(fs, e, q[k + 2].ino);
    }
    CountDirsFrame(fs.inodes, z.inodes, q[2..]);
    if e == d {
      assert (q + [Entry(name, i)])[2..] == q[2..] + [Entry(name, i)];
      CountDirsConcat(z.inodes, q[2..], [Entry(name, i)]);
      assert CountDirs(z.inodes, [Entry(name, i)][1..]) == 0;
    }
  }

  lemma GrowRooted(fs: Fs, d: nat, i: nat, name: string, X: Inode, e: nat)
    requires Inv(fs) && CanGrow(fs, d, i, name) && Fresh(X, i, d) && IsDir(Grow(fs, d, i, name, X), e)
    ensures Rooted(Grow(fs, d, i, name, X), e)
  {
    hide CountDirs, InUse, Inv;
    var z := Grow(fs, d, i, name, X);
    forall x | IsDir(fs, x) ensures Parent(z, x) == Parent(fs, x) { GrowParents(fs, d, i, name, X, x); }
    if e == i {
      RootedFrame(fs, z, d);
      var n: nat :| Up(z, d, n) == ROOT;
      GrowParents(fs, d, i, name, X, i);
      assert Up(z, i, n + 1) == ROOT;
    } else {
      RootedFrame(fs, z, e);
    }
  }

  /** Entering a new file or directory keeps the tree. */
  lemma GrowInv(fs: Fs, d: nat, i: nat, name: string, X: Inode)
    requires Inv(fs) && CanGrow(fs, d, i, name) && Fresh(X, i, d)
    ensures Inv(Grow(fs, d, i, name, X))
  {
    hide CountDirs, InUse, Rooted, DirOk, Names;
    var z := Grow(fs, d, i, name, X);
    InUsePut(fs.inodes, i, X);
    InUsePut(fs.inodes[i := X], d, z.inodes[d]);
    forall e | 0 <= e < MAX_INODES && z.inodes[e].kind == Dir ensures DirOk(z, e) && Rooted(z, e) {
      GrowDirs(fs, d, i, name, X, e);
      GrowRooted(fs, d, i, name, X, e);
    }
    GrowParents(fs, d, i, name, X, ROOT);
    forall x | 0 <= x < MAX_INODES && z.inodes[x].kind != Free && x != ROOT ensures exists e :: Names(z, e, x) {
      if x == i {
        GrowNames(fs, d, i, name, X, d, i);
      } else {
        var e :| Names(fs, e, x);
        GrowNames(fs, d, i, name, X, e, x);
      }
    }
    forall a, b, x: nat | Names(z, a, x) && Names(z, b, x) ensures a == b {
      GrowNames(fs, d, i, name, X, a, x);
      GrowNames(fs, d, i, name, X, b, x);
      if x == i { NotNamed(fs, i, a); NotNamed(fs, i, b); }
    }
  }

  /** No entry names a free inode. */
  lemma NotNamed(fs: Fs, x: nat, d: nat)
    requires Inv(fs) && x < MAX_INODES && fs.inodes[x].kind == Free
    ensures !Names(fs, d, x)
  {
    hide CountDirs, InUse, Rooted;
    if IsDir(fs, d) {
      assert DirOk(fs, d);
      forall i | 2 <= i < |fs.inodes[d].entries| ensures fs.inodes[d].entries[i].ino != x {
        assert ChildOk(fs, d, fs.inodes[d].entries[i].ino);
      }
    }
  }

  // ---------------------------------------------------------- shrinking

  /** Free file `x`, which entry `k` of directory `d` names. */
  function Shrink(fs: Fs, d: nat, k: nat, X: Inode): Fs
    requires d < |fs.inodes| && k < |fs.inodes[d].entries| && fs.inodes[d].entries[k].ino < |fs.inodes|
  {
    var D := fs.inodes[d];
    Fs(fs.inodes[D.entries[k].ino := X][d := D.(entries := RemoveAt(D.entries, k))], fs.num - 1)
  }

  predicate CanShrink(fs: Fs, d: nat, k: nat, X: Inode) {
    && IsDir(fs, d) && 2 <= k < |fs.inodes[d].entries| && X.kind == Free
    && fs.inodes[d].entries[k].ino < |fs.inodes| && fs.inodes[fs.inodes[d].entries[k].ino].kind == File
  }

  lemma ShrinkNames(fs: Fs, d: nat, k: nat, X: Inode, e: nat, y: nat)
    requires Inv(fs) && CanShrink(fs, d, k, X)
    ensures Names(Shrink(fs, d, k, X), e, y) <==> Names(fs, e, y) && !(e == d && y == fs.inodes[d].entries[k].ino)
  {
    hide CountDirs, InUse, Rooted, Listed, RemoveAt;
    assert DirOk(fs, d);
    ListedRemove(fs.inodes[d].entries, k, y);
  }

  lemma ListedRemove(q: seq<Entry>, k: nat, y: nat)
    requires DistinctInodes(q) && 2 <= k < |q|
    ensures Listed(RemoveAt(q, k), y) <==> Listed(q, y) && y != q[k].ino
  {
    var r := RemoveAt(q, k);
    if Listed(q, y) && y != q[k].ino {
      var j :| 2 <= j < |q| && q[j].ino == y;
      assert r[if j > k then j - 1 else j].ino == y;
    }
    if Listed(r, y) {
      var j :| 2 <= j < |r| && r[j].ino == y;
      assert r[j] == q[if j >= k then j + 1 else j];
    }
  }

  lemma ShrinkParents(fs: Fs, d: nat, k: nat, X: Inode, x: nat)
    requires Inv(fs) && CanShrink(fs, d, k, X) && IsDir(fs, x)
    ensures Parent(Shrink(fs, d, k, X), x) == Parent(fs, x) && IsDir(Shrink(fs, d, k, X), x)
  {
    hide CountDirs, InUse, Rooted;
    assert DirOk(fs, d);
  }

  lemma ShrinkCount(fs: Fs, d: nat, k: nat, X: Inode, e: nat)
    requires Inv(fs) && CanShrink(fs, d, k, X) && IsDir(fs, e)
    ensures var z := Shrink(fs, d, k, X);
      |z.inodes[e].entries| >= 2 && z.inodes[e].nlink == 2 + CountDirs(z.inodes, z.inodes[e].entries[2..])
  {
    hide InUse, Rooted, UniqueNames, DistinctInodes, ChildOk, CountDirs, RemoveAt;
    var z := Shrink(fs, d, k, X);
    assert DirOk(fs, e);
    var q := fs.inodes[e].entries;
    CountDirsFrame(fs.inodes, z.inodes, q[2..]);
    if e == d { CountRemove(z.inodes, q, k); }
  }

  lemma CountRemove(inodes: seq<Inode>, q: seq<Entry>, k: nat)
    requires 2 <= k < |q| && q[k].ino < |inodes| && inodes[q[k].ino].kind != Dir
    ensures |RemoveAt(q, k)| >= 2 && CountDirs(inodes, RemoveAt(q, k)[2..]) == CountDirs(inodes, q[2..])
  {
    var a, b := q[2..k], q[k + 1..];
    assert q[2..] == a + ([q[k]] + b) && RemoveAt(q, k)[2..] == a + b;
    CountDirsConcat(inodes, a, [q[k]] + b);
    CountDirsConcat(inodes, [q[k]], b);
    CountDirsConcat(inodes, a, b);
    assert [q[k]][1..] == [];
  }

  lemma OneLess(q: seq<Entry>, k: nat)
    requires UniqueNames(q) && DistinctInodes(q) && 2 <= k < |q|
    ensures UniqueNames(RemoveAt(q, k)) && DistinctInodes(RemoveAt(q, k))
    ensures forall j | 2 <= j < |RemoveAt(q, k)| :: RemoveAt(q, k)[j].ino != q[k].ino
  {
    var r := RemoveAt(q, k);
    forall i, j | 0 <= i < j < |r| ensures r[i].name != r[j].name && (i >= 2 ==> r[i].ino != r[j].ino) {
      var i', j' := if i < k then i else i + 1, if j < k then j else j + 1;
      assert r[i] == q[i'] && r[j] == q[j'];
    }
    forall j | 2 <= j < |r| ensures r[j].ino != q[k].ino {
      var j' := if j < k then j else j + 1;
      assert r[j] == q[j'];
    }
  }

  lemma ShrinkDirs(fs: Fs, d: nat, k: nat, X: Inode, e: nat)
    requires Inv(fs) && CanShrink(fs, d, k, X) && IsDir(Shrink(fs, d, k, X), e)
    ensures DirOk(Shrink(fs, d, k, X), e)
  {
    hide Inv, CountDirs, UniqueNames, DistinctInodes, Parent, Names;
    var z := Shrink(fs, d, k, X);
    RootUsed(fs);
    assert IsDir(fs, e);
    IsDirOk(fs, d);
    IsDirOk(fs, e);
    var q, r := fs.inodes[e].entries, z.inodes[e].entries;
    var x := fs.inodes[d].entries[k].ino;
    ShrinkCount(fs, d, k, X, e);
    if e == d { OneLess(q, k); }
    ShrinkParents(fs, d, k, X, q[1].ino);
    forall j | 2 <= j < |r| ensures ChildOk(z, e, r[j].ino) {
      var j' := if e == d && j >= k then j + 1 else j;
      assert r[j] == q[j'] && ChildOk(fs, e, q[j'].ino);
      OnlyHere(fs, d, k, e, j', X);
      if fs.inodes[q[j'].ino].kind == Dir { ShrinkParents(fs, d, k, X, q[j'].ino); }
    }
  }

  /** The file's one entry is the one removed. */
  lemma OnlyHere(fs: Fs, d: nat, k: nat, e: nat, j: nat, X: Inode)
    requires Inv(fs) && CanShrink(fs, d, k, X) && IsDir(fs, e) && 2 <= j < |fs.inodes[e].entries| && (e != d || j != k)
    ensures fs.inodes[e].entries[j].ino != fs.inodes[d].entries[k].ino
  {
    hide CountDirs, InUse, Rooted;
    var x := fs.inodes[d].entries[k].ino;
    assert DirOk(fs, d);
    assert Names(fs, d, x);
    if e != d { assert fs.inodes[e].entries[j].ino == x ==> Names(fs, e, x); }
  }

  /** Removing a file keeps the tree. */
  lemma ShrinkInv(fs: Fs, d: nat, k: nat, X: Inode)
    requires Inv(fs) && CanShrink(fs, d, k, X)
    ensures Inv(Shrink(fs, d, k, X))
  {
    hide CountDirs, InUse, Rooted, DirOk, Names, Parent;
    var z := Shrink(fs, d, k, X);
    var x := fs.inodes[d].entries[k].ino;
    InUsePut(fs.inodes, x, X);
    InUsePut(fs.inodes[x := X], d, z.inodes[d]);
    forall y | IsDir(fs, y) ensures Parent(z, y) == Parent(fs, y) { ShrinkParents(fs, d, k, X, y); }
    forall e | 0 <= e < MAX_INODES && z.inodes[e].kind == Dir ensures DirOk(z, e) && Rooted(z, e) {
      ShrinkDirs(fs, d, k, X, e);
      RootedFrame(fs, z, e);
    }
    forall y | 0 <= y < MAX_INODES && z.inodes[y].kind != Free && y != ROOT ensures exists e :: Names(z, e, y) {
      var e :| Names(fs, e, y);
      ShrinkNames(fs, d, k, X, e, y);
    }
    forall a, b, y: nat | Names(z, a, y) && Names(z, b, y) ensures a == b {
      ShrinkNames(fs, d, k, X, a, y);
      ShrinkNames(fs, d, k, X, b, y);
    }
  }
}
