/**
 The inode table as the driver keeps it (fs/ramfs/main.c), with its entry-shifting
 loop.
 */
module RamfsObject {

  import opened Common
  import opened Ramfs
  import opened RamfsRuns

  class RamDisk {
    const inodes: array<Inode>
    var numInodes: int

    ghost function Value(): Fs
      reads this, inodes
    {
      Fs(inodes[..], numInodes)
    }

    /** `ramfs_init`. */
    constructor ()
      ensures fresh(inodes) && Value() == Boot() && Inv(Value())
    {
      inodes := new Inode[MAX_INODES](x => if x == ROOT then Inode(Dir, 2, [Entry(".", ROOT), Entry("..", ROOT)]) else Inode(Free, 0, []));
      numInodes := 1;
      new;
      assert inodes[..] == Boot().inodes;
      BootInv();
    }

    method AllocInode() returns (r: Option<nat>)
      requires inodes.Length >= 1
      ensures r == AllocFrom(inodes[..], 1)
    {
      var i := 1;
      while i < inodes.Length
        invariant 1 <= i <= inodes.Length && AllocFrom(inodes[..], 1) == AllocFrom(inodes[..], i)
      {
        if inodes[i].kind == Free { return Some(i); }
        i := i + 1;
      }
      r := None;
    }

    /** The scan shared by lookup, add and remove. */
    method FindName(d: nat, name: string) returns (r: Option<nat>)
      requires d < inodes.Length
      ensures r == Find(inodes[d].entries, name)
    {
      var q := inodes[d].entries;
      var i := 0;
      while i < |q|
        invariant 0 <= i <= |q|
        invariant Find(q, name) == var f := Find(q[i..], name); if f.None? then None else Some(f.value + i)
      {
        if q[i].name == name { return Some(i); }
        assert q[i..][1..] == q[i + 1..];
        i := i + 1;
      }
      r := None;
    }

    method AddName(d: nat, name: string, ino: nat) returns (e: Option<Error>)
      requires d < inodes.Length
      modifies inodes
      ensures (Value(), e) == AddEntry(old(Value()), d, name, ino)
    {
      if inodes[d].kind != Dir { return Some(Invalid); }
      if |inodes[d].entries| >= MAX_ENTRIES { return Some(NoMemory); }
      var f := FindName(d, name);
      if f.Some? { return Some(Exists); }
      inodes[d] := inodes[d].(entries := inodes[d].entries + [Entry(name, ino)]);
      e := None;
    }

    method InitAt(i: nat, k: Kind)
      requires i < inodes.Length
      modifies this`numInodes, inodes
      ensures Value() == InitInode(old(Value()), i, k)
    {
      inodes[i] := Inode(k, 1, []);
      numInodes := numInodes + 1;
    }

    method CreateFile(d: nat, name: string) returns (r: Result)
      requires d < inodes.Length
      modifies this`numInodes, inodes
      ensures (Value(), r) == Create(old(Value()), d, name)
    {
      var a := AllocInode();
      if a.None? { return Fail(NoMemory); }
      InitAt(a.value, File);
      var e := AddName(d, name, a.value);
      if e.Some? {
        inodes[a.value] := inodes[a.value].(kind := Free);
        numInodes := numInodes - 1;
        return Fail(e.value);
      }
      r := Done(a.value);
    }

    method MakeDir(d: nat, name: string) returns (r: Result)
      requires d < inodes.Length
      modifies this`numInodes, inodes
      ensures (Value(), r) == Mkdir(old(Value()), d, name)
    {
      hide AddEntry, InitInode;
      var a := AllocInode();
      if a.None? { return Fail(NoMemory); }
      var i := a.value;
      InitAt(i, Dir);
      InitShape(old(Value()), i, Dir);
      ghost var f1 := Value();
      inodes[i] := inodes[i].(nlink := 2);
      ghost var f2 := Value();
      assert f2 == f1.(inodes := f1.inodes[i := f1.inodes[i].(nlink := 2)]);
      AddShape(f2, i, ".", i);
      var e1 := AddName(i, ".", i);
      AddShape(Value(), i, "..", d);
      var e2 := AddName(i, "..", d);
      AddShape(Value(), d, name, i);
      var e := AddName(d, name, i);
      if e.Some? {
        inodes[i] := inodes[i].(kind := Free);
        numInodes := numInodes - 1;
        return Fail(e.value);
      }
      inodes[d] := inodes[d].(nlink := inodes[d].nlink + 1);
      r := Done(i);
    }

    /** Shift the entries after `k` down by one. */
    method RemoveEntry(d: nat, k: nat)
      requires d < inodes.Length && k < |inodes[d].entries|
      modifies inodes
      ensures Value() == old(Value()).(inodes := old(inodes[..])[d := old(inodes[d]).(entries := RemoveAt(old(inodes[d]).entries, k))])
    {
      var q := inodes[d].entries;
      var r := q;
      var j := k;
      while j < |q| - 1
        invariant k <= j <= |q| - 1 && |r| == |q|
        invariant r[..j] == q[..k] + q[k + 1..j + 1] && r[j..] == q[j..]
      {
        ghost var before := r;
        r := r[j := r[j + 1]];
        assert r[j] == q[j + 1] && r[..j] == before[..j];
        assert r[..j + 1] == r[..j] + [q[j + 1]] && q[k + 1..j + 2] == q[k + 1..j + 1] + [q[j + 1]];
        assert r[j + 1..] == before[j + 1..] == before[j..][1..];
        j := j + 1;
      }
      assert r[..|q| - 1] == RemoveAt(q, k);
      inodes[d] := inodes[d].(entries := r[..|q| - 1]);
    }

    method UnlinkFile(d: nat, name: string) returns (r: Result)
      requires inodes.Length == MAX_INODES && d < inodes.Length && Inv(Value())
      modifies this`numInodes, inodes
      ensures (Value(), r) == Unlink(old(Value()), d, name) && Inv(Value())
    {
      hide Inv, RemoveAt;
      UnlinkSpec(Value(), d, name);
      if inodes[d].kind != Dir { return Fail(NotFound); }
      var k := FindName(d, name);
      if k.None? { return Fail(NotFound); }
      EntryTarget(Value(), d, k.value);
      var x := inodes[d].entries[k.value].ino;
      if inodes[x].kind == Dir { return Fail(NotPermitted); }
      var n := inodes[x].nlink - 1;
      inodes[x] := inodes[x].(nlink := n);
      if n == 0 {
        inodes[x] := inodes[x].(kind := Free);
        numInodes := numInodes - 1;
      }
      assert inodes[..] == old(inodes[..])[x := inodes[x]];
      RemoveEntry(d, k.value);
      r := Done(x);
    }
  }

  lemma InitShape(fs: Fs, i: nat, k: Kind)
    requires i < |fs.inodes|
    ensures |InitInode(fs, i, k).inodes| == |fs.inodes|
  {
  }

  lemma AddShape(fs: Fs, d: nat, name: string, ino: nat)
    requires d < |fs.inodes|
    ensures |AddEntry(fs, d, name, ino).0.inodes| == |fs.inodes|
  {
  }
}
