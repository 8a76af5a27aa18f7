/**
 The stack builder's loops (kernel/proc/exec.c) over memory and page tables changed
 in place.
 */
module ExecObject {

  import opened Common
  import opened Paging
  import opened VmPages
  import opened Vmm
  import opened VmObject
  import opened ExecStack

  /** The `memcpy` of one chunk into the frame behind its page. */
  method PutBytes(k: Spaces, r: nat, a: nat, bytes: seq<int>, ghost R: set<nat>) returns (ok: bool)
    requires MemOk(k.Here(), R, k.kernel) && r in R && a < USER_TOP && a % PAGE_SIZE + |bytes| <= PAGE_SIZE
    modifies k`data, k.pt
    ensures ok <==> At(old(k.Here()).m, r, KeyOf(a)).Page?
    ensures !ok ==> k.Here() == old(k.Here())
    ensures ok ==> |Read(old(k.Here()), At(old(k.Here()).m, r, KeyOf(a)).frame)| == PAGE_SIZE
    ensures ok ==> k.Here() == PutChunk(old(k.Here()), r, a, bytes)
    ensures MemOk(k.Here(), R, k.kernel)
  {
    hide VInv, KeyOf, Patch;
    UserKey(a);
    PlainIn(k.Here().m, R, k.kernel, r);
    var x := k.Present(r, KeyOf(a));
    if x.NoMap? { return false; }
    PutChunkSpec(k.Here(), R, k.kernel, r, a, bytes, a);
    var page := Read(Phys(Mem(k.pt.tables, k.pt.pool), k.data), x.frame);
    k.data := k.data[x.frame := Patch(page, a % PAGE_SIZE, bytes)];
    ok := true;
  }

  /** `write_user_bytes`. */
  method WriteBytes(k: Spaces, r: nat, a: nat, bytes: seq<int>, ghost R: set<nat>) returns (ok: bool)
    requires MemOk(k.Here(), R, k.kernel) && r in R && a + |bytes| <= USER_TOP
    modifies k`data, k.pt
    ensures (k.Here(), ok) == WriteUser(old(k.Here()), R, k.kernel, r, a, bytes)
    ensures MemOk(k.Here(), R, k.kernel)
  {
    hide MemOk, KeyOf, PutChunk, At;
    ghost var s := k.Here();
    var copied: nat := 0;
    assert bytes[0..] == bytes;
    while copied < |bytes|
      invariant copied <= |bytes| && MemOk(k.Here(), R, k.kernel)
      invariant WriteUser(s, R, k.kernel, r, a, bytes) == WriteUser(k.Here(), R, k.kernel, r, a + copied, bytes[copied..])
    {
      var addr := a + copied;
      var chunk := PAGE_SIZE - addr % PAGE_SIZE;
      if chunk > |bytes| - copied { chunk := |bytes| - copied; }
      ghost var rest := bytes[copied..];
      assert rest[..chunk] == bytes[copied..copied + chunk] && rest[chunk..] == bytes[copied + chunk..];
      var put := PutBytes(k, r, addr, bytes[copied..copied + chunk], R);
      if !put { return false; }
      copied := copied + chunk;
    }
    assert bytes[copied..] == [];
    ok := true;
  }

  /** `push_u64`. */
  method PushWord(k: Spaces, r: nat, sp: nat, v: nat, ghost R: set<nat>) returns (sp': nat, ok: bool)
    requires MemOk(k.Here(), R, k.kernel) && r in R && 8 <= sp <= USER_TOP
    modifies k`data, k.pt
    ensures sp' == sp - 8 && MemOk(k.Here(), R, k.kernel)
    ensures (k.Here(), ok) == WriteUser(old(k.Here()), R, k.kernel, r, sp - 8, Le(v, 8))
  {
    sp' := sp - 8;
    ok := WriteBytes(k, r, sp', Le(v, 8), R);
  }

  /** The string loop of `setup_user_stack`. */
  method PushArgs(k: Spaces, r: nat, args: seq<seq<int>>, ghost R: set<nat>) returns (sp: nat, addrs: seq<nat>, ok: bool)
    requires MemOk(k.Here(), R, k.kernel) && r in R && Bytes(args) <= STACK_TOP
    modifies k`data, k.pt
    ensures MemOk(k.Here(), R, k.kernel)
    ensures var p := PushStrings(old(k.Here()), R, k.kernel, r, STACK_TOP, args);
      k.Here() == p.s && ok == p.ok && (ok ==> sp == p.sp && addrs == p.addrs)
  {
    hide MemOk, WriteUser;
    ghost var s := k.Here();
    ghost var p := PushStrings(s, R, k.kernel, r, STACK_TOP, args);
    sp, addrs := STACK_TOP, [];
    var rest := args;
    while rest != []
      invariant MemOk(k.Here(), R, k.kernel) && Bytes(rest) <= sp <= STACK_TOP
      invariant p == Onto(addrs, PushStrings(k.Here(), R, k.kernel, r, sp, rest))
      decreases |rest|
    {
      sp := sp - (|rest[0]| + 1);
      ok := WriteBytes(k, r, sp, rest[0] + [0], R);
      if !ok { return; }
      OntoStep(addrs, sp, PushStrings(k.Here(), R, k.kernel, r, sp, rest[1..]));
      addrs, rest := addrs + [sp], rest[1..];
    }
    ok := true;
  }

  /** The addresses pushed earlier go in front. */
  ghost function Onto(addrs: seq<nat>, t: Pushed): Pushed {
    t.(addrs := addrs + t.addrs)
  }

  lemma OntoStep(addrs: seq<nat>, sp: nat, t: Pushed)
    ensures Onto(addrs, t.(addrs := [sp] + t.addrs)) == Onto(addrs + [sp], t)
  {
    assert addrs + ([sp] + t.addrs) == (addrs + [sp]) + t.addrs;
  }

  /** `setup_user_stack` after its pages are mapped. */
  method BuildStack(k: Spaces, r: nat, argv: seq<seq<int>>, ghost R: set<nat>) returns (result: Option<nat>)
    requires MemOk(k.Here(), R, k.kernel) && r in R && Bytes(Used(argv)) + 8 * (MAX_ARGS + 3) <= STACK_TOP
    modifies k`data, k.pt
    ensures (k.Here(), result) == SetupStack(old(k.Here()), R, k.kernel, r, argv)
  {
    hide MemOk, WriteUser, Le, PushStrings, PushWords;
    PushStringsSpec(k.Here(), R, k.kernel, r, STACK_TOP, Used(argv), STACK_TOP, []);
    var args := if |argv| <= MAX_ARGS then argv else argv[..MAX_ARGS];
    var sp, addrs, ok := PushArgs(k, r, args, R);
    if !ok { return None; }
    result := PushFrame(k, r, sp / 8 * 8, addrs, R);
  }

  /** The pushes: the terminator, the pointers last to first, the count. */
  method PushFrame(k: Spaces, r: nat, base: nat, addrs: seq<nat>, ghost R: set<nat>) returns (result: Option<nat>)
    requires MemOk(k.Here(), R, k.kernel) && r in R && 8 * (|addrs| + 2) <= base <= USER_TOP
    modifies k`data, k.pt
    ensures var (z, sp, ok) := PushWords(old(k.Here()), R, k.kernel, r, base, Frame(addrs));
      k.Here() == z && result == if ok then Some(sp) else None
  {
    hide MemOk, WriteUser, Le;
    ghost var s := k.Here();
    ghost var ws := Frame(addrs);
    var sp, ok := PushWord(k, r, base, 0, R);
    if !ok { return None; }
    var i := |addrs|;
    assert ws[1..] == ws[|addrs| - i + 1..];
    while i > 0
      invariant 0 <= i <= |addrs| && MemOk(k.Here(), R, k.kernel) && sp == base - 8 * (|addrs| - i + 1)
      invariant PushWords(s, R, k.kernel, r, base, ws) == PushWords(k.Here(), R, k.kernel, r, sp, ws[|addrs| - i + 1..])
    {
      ghost var rest := ws[|addrs| - i + 1..];
      assert rest[0] == Reverse(addrs)[|addrs| - i] == addrs[i - 1] && rest[1..] == ws[|addrs| - i + 2..];
      sp, ok := PushWord(k, r, sp, addrs[i - 1], R);
      if !ok { return None; }
      i := i - 1;
    }
    assert ws[|addrs| + 1..] == [|addrs|] && [|addrs|][1..] == [];
    sp, ok := PushWord(k, r, sp, |addrs|, R);
    if !ok { return None; }
    result := Some(sp);
  }
}
