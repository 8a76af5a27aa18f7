/**
 The initial user stack of a new program (kernel/proc/exec.c): strings and pointers
 written through the page tables, and what crt0 (lib/libc/src/crt0.S) reads back.

 Bytes are integers.  The state is physical memory under one address space `r` of
 an isolated system, so that two pages never share a frame.
 */
module ExecStack {

  import opened Common
  import opened Paging
  import opened VmPages
  import opened Vmm

  const STACK_TOP: nat := 0x7FFF_FFFF_E000
  const MAX_ARGS: nat := 32

  /** An isolated system whose frames hold whole pages. */
  ghost predicate MemOk(s: Phys, R: set<nat>, kernel: nat) {
    VInv(s.m, R, kernel) && forall f | f in s.data :: |s.data[f]| == PAGE_SIZE
  }

  /** The byte the program sees at a user address. */
  ghost function Byte(s: Phys, r: nat, a: nat): Option<int> {
    var x := At(s.m, r, KeyOf(a));
    if x.Page? && |Read(s, x.frame)| == PAGE_SIZE then Some(Read(s, x.frame)[a % PAGE_SIZE]) else None
  }

  /** The program sees these bytes at `a`. */
  ghost predicate Sees(s: Phys, r: nat, a: nat, bytes: seq<int>) {
    forall i | 0 <= i < |bytes| :: Byte(s, r, a + i) == Some(bytes[i])
  }

  // ------------------------------------------------------------ user writes

  function Patch(page: seq<int>, off: nat, bytes: seq<int>): seq<int>
    requires off + |bytes| <= |page|
  {
    page[..off] + bytes + page[off + |bytes|..]
  }

  /** The part of a write that lies in one page. */
  function Chunk(a: nat, n: nat): (c: nat)
    ensures c <= n && a % PAGE_SIZE + c <= PAGE_SIZE && (n > 0 ==> c > 0)
    ensures c < n ==> a % PAGE_SIZE + c == PAGE_SIZE
  {
    var room := PAGE_SIZE - a % PAGE_SIZE;
    if room > n then n else room
  }

  /** `memcpy` into the frame behind one page. */
  ghost function PutChunk(s: Phys, r: nat, a: nat, bytes: seq<int>): Phys
    requires At(s.m, r, KeyOf(a)).Page? && |Read(s, At(s.m, r, KeyOf(a)).frame)| == PAGE_SIZE
    requires a % PAGE_SIZE + |bytes| <= PAGE_SIZE
  {
    var f := At(s.m, r, KeyOf(a)).frame;
    s.(data := s.data[f := Patch(Read(s, f), a % PAGE_SIZE, bytes)])
  }

  lemma ReadPage(s: Phys, R: set<nat>, kernel: nat, f: nat)
    requires MemOk(s, R, kernel)
    ensures |Read(s, f)| == PAGE_SIZE
  {
  }

  /** `write_user_bytes`: page by page, stopping at the first page that is not mapped. */
  ghost function WriteUser(s: Phys, R: set<nat>, kernel: nat, r: nat, a: nat, bytes: seq<int>): (Phys, bool)
    requires MemOk(s, R, kernel)
    decreases |bytes|
  {
    if bytes == [] then (s, true)
    else if At(s.m, r, KeyOf(a)).NoMap? then (s, false)
    else
      var n := Chunk(a, |bytes|);
      ReadPage(s, R, kernel, At(s.m, r, KeyOf(a)).frame);
      WriteUser(PutChunk(s, r, a, bytes[..n]), R, kernel, r, a + n, bytes[n..])
  }

  /** Addresses of one page share a key, and others below 2^47 do not. */
  lemma SamePageIff(a: nat, b: nat)
    requires a < USER_TOP && b < USER_TOP
    ensures KeyOf(a) == KeyOf(b) <==> a / PAGE_SIZE == b / PAGE_SIZE
  {
    hide KeyOf;
    KeyOfBase(a);
    KeyOfBase(b);
    var x, y := a / PAGE_SIZE * PAGE_SIZE, b / PAGE_SIZE * PAGE_SIZE;
    if x != y { PagesDiffer(x, y); }
  }

  lemma KeyOfBase(a: nat)
    ensures var b := a / PAGE_SIZE * PAGE_SIZE; KeyOf(b) == KeyOf(a) && PageAligned(b) && b <= a
  {
    var b := a / PAGE_SIZE * PAGE_SIZE;
    assert b / PAGE_SIZE == a / PAGE_SIZE;
  }

  /** One chunk changes exactly its own bytes. */
  lemma PutChunkSpec(s: Phys, R: set<nat>, kernel: nat, r: nat, a: nat, bytes: seq<int>, b: nat)
    requires MemOk(s, R, kernel) && r in R && a < USER_TOP && b < USER_TOP
    requires At(s.m, r, KeyOf(a)).Page? && a % PAGE_SIZE + |bytes| <= PAGE_SIZE
    ensures |Read(s, At(s.m, r, KeyOf(a)).frame)| == PAGE_SIZE
    ensures MemOk(PutChunk(s, r, a, bytes), R, kernel) && PutChunk(s, r, a, bytes).m == s.m
    ensures Byte(PutChunk(s, r, a, bytes), r, b) == if a <= b < a + |bytes| then Some(bytes[b - a]) else Byte(s, r, b)
  {
    hide KeyOf, Wf, Plain;
    SamePageIff(a, b);
    UserKey(a);
    UserKey(b);
    var f := At(s.m, r, KeyOf(a)).frame;
    var g := At(s.m, r, KeyOf(b));
    ReadPage(s, R, kernel, f);
    if g.Page? && g.frame == f {
      assert KeyOf(a) == KeyOf(b);
      assert a - a % PAGE_SIZE == b - b % PAGE_SIZE;
    }
  }

  /** A successful write changes exactly the bytes of its range, across any number of pages. */
  lemma {:induction false} WriteUserSpec(s: Phys, R: set<nat>, kernel: nat, r: nat, a: nat, bytes: seq<int>, b: nat)
    requires MemOk(s, R, kernel) && r in R && a + |bytes| <= USER_TOP && b < USER_TOP
    ensures var (z, ok) := WriteUser(s, R, kernel, r, a, bytes);
      && MemOk(z, R, kernel) && z.m == s.m
      && (ok ==> Byte(z, r, b) == if a <= b < a + |bytes| then Some(bytes[b - a]) else Byte(s, r, b))
    decreases |bytes|
  {
    hide KeyOf, MemOk, Byte, PutChunk;
    if bytes != [] && At(s.m, r, KeyOf(a)).Page? {
      var n := Chunk(a, |bytes|);
      PutChunkSpec(s, R, kernel, r, a, bytes[..n], b);
      WriteUserSpec(PutChunk(s, r, a, bytes[..n]), R, kernel, r, a + n, bytes[n..], b);
    }
  }

  lemma WriteSees(s: Phys, R: set<nat>, kernel: nat, r: nat, a: nat, bytes: seq<int>, c: nat, other: seq<int>)
    requires MemOk(s, R, kernel) && r in R && a + |bytes| <= c && c + |other| <= USER_TOP
    ensures var (z, ok) := WriteUser(s, R, kernel, r, a, bytes);
      && MemOk(z, R, kernel)
      && (ok ==> Sees(z, r, a, bytes))
      && (ok && Sees(s, r, c, other) ==> Sees(z, r, c, other))
  {
    hide MemOk, Byte, WriteUser;
    var (z, ok) := WriteUser(s, R, kernel, r, a, bytes);
    WriteUserSpec(s, R, kernel, r, a, bytes, 0);
    if ok {
      forall i | 0 <= i < |bytes| ensures Byte(z, r, a + i) == Some(bytes[i]) {
        WriteUserSpec(s, R, kernel, r, a, bytes, a + i);
      }
      if Sees(s, r, c, other) {
        forall i | 0 <= i < |other| ensures Byte(z, r, c + i) == Some(other[i]) {
          WriteUserSpec(s, R, kernel, r, a, bytes, c + i);
        }
      }
    }
  }

  // ------------------------------------------------------------------ words

  /** The `n` low bytes of a number, least significant first. */
  function Le(v: nat, n: nat): (q: seq<int>)
    ensures |q| == n
  {
    if n == 0 then [] else [v % 256] + Le(v / 256, n - 1)
  }

  function FromLe(q: seq<int>): int {
    if q == [] then 0 else q[0] + 256 * FromLe(q[1..])
  }

  function Pow256(n: nat): nat {
    if n == 0 then 1 else 256 * Pow256(n - 1)
  }

  lemma {:induction false} LeRoundTrip(v: nat, n: nat)
    requires v < Pow256(n)
    ensures FromLe(Le(v, n)) == v
  {
    if n > 0 {
      LeRoundTrip(v / 256, n - 1);
      assert Le(v, n)[1..] == Le(v / 256, n - 1);
    }
  }

  lemma U64IsPow256()
    ensures Pow256(8) == 0x1_0000_0000_0000_0000
  {
    assert Pow256(4) == 0x1_0000_0000;
  }

  // ---------------------------------------------------------------- strings

  /** A C string: no NUL inside. */
  predicate CString(q: seq<int>) {
    forall i | 0 <= i < |q| :: q[i] != 0
  }

  /** The bytes all strings need, with their terminators. */
  function Bytes(args: seq<seq<int>>): nat {
    if args == [] then 0 else |args[0]| + 1 + Bytes(args[1..])
  }

  datatype Pushed = Pushed(s: Phys, sp: nat, addrs: seq<nat>, ok: bool)

  /** The string loop: each string goes below the one before it. */
  ghost function PushStrings(s: Phys, R: set<nat>, kernel: nat, r: nat, sp: nat, args: seq<seq<int>>): Pushed
    requires MemOk(s, R, kernel) && r in R && Bytes(args) <= sp <= USER_TOP
    decreases |args|
  {
    if args == [] then Pushed(s, sp, [], true)
    else
      var at := sp - (|args[0]| + 1);
      WriteUserSpec(s, R, kernel, r, at, args[0] + [0], 0);
      var (z, ok) := WriteUser(s, R, kernel, r, at, args[0] + [0]);
      if !ok then Pushed(z, at, [], false)
      else
        var p := PushStrings(z, R, kernel, r, at, args[1..]);
        p.(addrs := [at] + p.addrs)
  }

  /** On success every string stands at its address, below `sp`, and what stood above `sp` still does. */
  lemma {:induction false} PushStringsSpec(s: Phys, R: set<nat>, kernel: nat, r: nat, sp: nat, args: seq<seq<int>>, c: nat, other: seq<int>)
    requires MemOk(s, R, kernel) && r in R && Bytes(args) <= sp && sp <= c && c + |other| <= USER_TOP
    ensures var p := PushStrings(s, R, kernel, r, sp, args);
      && MemOk(p.s, R, kernel)
      && (p.ok ==>
           && |p.addrs| == |args| && p.sp == sp - Bytes(args)
           && (forall i | 0 <= i < |args| ::
                 p.sp <= p.addrs[i] && p.addrs[i] + |args[i]| + 1 <= sp && Sees(p.s, r, p.addrs[i], args[i] + [0]))
           && (Sees(s, r, c, other) ==> Sees(p.s, r, c, other)))
    decreases |args|
  {
    hide MemOk, Sees, WriteUser;
    if args != [] {
      var at := sp - (|args[0]| + 1);
      WriteUserSpec(s, R, kernel, r, at, args[0] + [0], 0);
      WriteSees(s, R, kernel, r, at, args[0] + [0], c, other);
      var (z, ok) := WriteUser(s, R, kernel, r, at, args[0] + [0]);
      if ok {
        PushStringsSpec(z, R, kernel, r, at, args[1..], c, other);
        PushStringsSpec(z, R, kernel, r, at, args[1..], at, args[0] + [0]);
        var p := PushStrings(s, R, kernel, r, sp, args);
        var q := PushStrings(z, R, kernel, r, at, args[1..]);
        if p.ok {
          forall i | 0 <= i < |args|
            ensures p.sp <= p.addrs[i] && p.addrs[i] + |args[i]| + 1 <= sp && Sees(p.s, r, p.addrs[i], args[i] + [0])
          {
            if i > 0 { assert p.addrs[i] == q.addrs[i - 1] && args[i] == args[1..][i - 1]; }
          }
        }
      }
    }
  }

  // ---------------------------------------------------------------- pushes

  /** `push_u64` for each word in turn. */
  ghost function PushWords(s: Phys, R: set<nat>, kernel: nat, r: nat, sp: nat, ws: seq<nat>): (Phys, nat, bool)
    requires MemOk(s, R, kernel) && r in R && 8 * |ws| <= sp <= USER_TOP
    decreases |ws|
  {
    if ws == [] then (s, sp, true)
    else
      WriteUserSpec(s, R, kernel, r, sp - 8, Le(ws[0], 8), 0);
      var (z, ok) := WriteUser(s, R, kernel, r, sp - 8, Le(ws[0], 8));
      if !ok then (z, sp - 8, false) else PushWords(z, R, kernel, r, sp - 8, ws[1..])
  }

  /** Where word number `k` of the pushed sequence ends up. */
  function Slot(sp: nat, k: nat): int {
    sp - 8 * (k + 1)
  }

  lemma {:induction false} PushWordsSpec(s: Phys, R: set<nat>, kernel: nat, r: nat, sp: nat, ws: seq<nat>, c: nat, other: seq<int>)
    requires MemOk(s, R, kernel) && r in R && 8 * |ws| <= sp && sp <= c && c + |other| <= USER_TOP
    ensures var (z, sp', ok) := PushWords(s, R, kernel, r, sp, ws);
      && MemOk(z, R, kernel)
      && (ok ==>
           && sp' == sp - 8 * |ws|
           && (forall k | 0 <= k < |ws| :: Slot(sp, k) >= 0 && Sees(z, r, Slot(sp, k), Le(ws[k], 8)))
           && (Sees(s, r, c, other) ==> Sees(z, r, c, other)))
    decreases |ws|
  {
    hide MemOk, Sees, WriteUser, Le;
    if ws != [] {
      WriteUserSpec(s, R, kernel, r, sp - 8, Le(ws[0], 8), 0);
      WriteSees(s, R, kernel, r, sp - 8, Le(ws[0], 8), c, other);
      var (z, ok) := WriteUser(s, R, kernel, r, sp - 8, Le(ws[0], 8));
      if ok {
        PushWordsSpec(z, R, kernel, r, sp - 8, ws[1..], c, other);
        PushWordsSpec(z, R, kernel, r, sp - 8, ws[1..], sp - 8, Le(ws[0], 8));
        var (y, sp', done) := PushWords(s, R, kernel, r, sp, ws);
        if done {
          forall k | 0 <= k < |ws| ensures Slot(sp, k) >= 0 && Sees(y, r, Slot(sp, k), Le(ws[k], 8)) {
            if k > 0 { assert Slot(sp, k) == Slot(sp - 8, k - 1) && ws[k] == ws[1..][k - 1]; }
          }
        }
      }
    }
  }

  // ------------------------------------------------------------------ stack

  function Reverse(q: seq<nat>): seq<nat> {
    seq(|q|, i requires 0 <= i < |q| => q[|q| - 1 - i])
  }

  /** What is pushed after the strings: the terminator, the pointers last to first, the count. */
  function Frame(addrs: seq<nat>): seq<nat> {
    [0] + Reverse(addrs) + [|addrs|]
  }

  function AlignDown8(sp: nat): nat {
    sp / 8 * 8
  }

  /** The first 32 arguments are used. */
  function Used(argv: seq<seq<int>>): seq<seq<int>> {
    if |argv| <= MAX_ARGS then argv else argv[..MAX_ARGS]
  }

  /** `setup_user_stack` once the stack pages are there: the stack pointer, or failure. */
  ghost function SetupStack(s: Phys, R: set<nat>, kernel: nat, r: nat, argv: seq<seq<int>>): (Phys, Option<nat>)
    requires MemOk(s, R, kernel) && r in R && Bytes(Used(argv)) + 8 * (MAX_ARGS + 3) <= STACK_TOP
  {
    PushStringsSpec(s, R, kernel, r, STACK_TOP, Used(argv), STACK_TOP, []);
    var p := PushStrings(s, R, kernel, r, STACK_TOP, Used(argv));
    if !p.ok then (p.s, None)
    else
      var (z, sp, ok) := PushWords(p.s, R, kernel, r, AlignDown8(p.sp), Frame(p.addrs));
      (z, if ok then Some(sp) else None)
  }

  /** The word a program loads from an address. */
  ghost predicate Loads(s: Phys, r: nat, a: nat, v: nat) {
    exists q :: |q| == 8 && Sees(s, r, a, q) && FromLe(q) == v
  }

  /** Entry `i` of the pointer array at `a` points to the string. */
  ghost predicate PointsTo(s: Phys, r: nat, a: nat, i: nat, arg: seq<int>) {
    exists p :: Loads(s, r, a + 8 * i, p) && Sees(s, r, p, arg + [0])
  }

  /** A program sees at most one word at an address. */
  lemma LoadsOne(s: Phys, r: nat, a: nat, v: nat, w: nat)
    requires Loads(s, r, a, v) && Loads(s, r, a, w)
    ensures v == w
  {
    var p :| |p| == 8 && Sees(s, r, a, p) && FromLe(p) == v;
    var q :| |q| == 8 && Sees(s, r, a, q) && FromLe(q) == w;
    forall i | 0 <= i < 8 ensures p[i] == q[i] {
      assert Byte(s, r, a + i) == Some(p[i]) && Byte(s, r, a + i) == Some(q[i]);
    }
    assert p == q;
  }

  /** A program sees at most one string at an address. */
  lemma StringOne(s: Phys, r: nat, a: nat, p: seq<int>, q: seq<int>)
    requires CString(p) && CString(q) && Sees(s, r, a, p + [0]) && Sees(s, r, a, q + [0])
    ensures p == q
  {
    forall i | 0 <= i < |p| && i < |q| ensures p[i] == q[i] {
      assert (p + [0])[i] == p[i] && (q + [0])[i] == q[i];
      assert Byte(s, r, a + i) == Some(p[i]) && Byte(s, r, a + i) == Some(q[i]);
    }
    var n := if |p| < |q| then |p| else |q|;
    assert Byte(s, r, a + n) == Some((p + [0])[n]) && Byte(s, r, a + n) == Some((q + [0])[n]);
  }

  lemma StoredWord(s: Phys, r: nat, a: nat, v: nat)
    requires v < 0x1_0000_0000_0000_0000 && Sees(s, r, a, Le(v, 8))
    ensures Loads(s, r, a, v)
  {
    U64IsPow256();
    LeRoundTrip(v, 8);
  }

  /** Where crt0 looks for the pieces of the frame. */
  lemma FrameSlots(base: nat, addrs: seq<nat>)
    requires 8 * (|addrs| + 2) <= base
    ensures var sp := base - 8 * |Frame(addrs)|; var n := |addrs|;
      && |Frame(addrs)| == n + 2
      && Slot(base, n + 1) == sp && Frame(addrs)[n + 1] == n
      && (forall i | 0 <= i < n :: Slot(base, n - i) == sp + 8 + 8 * i && Frame(addrs)[n - i] == addrs[i])
      && Slot(base, 0) == sp + 8 + 8 * n && Frame(addrs)[0] == 0
  {
    var n := |addrs|;
    forall i | 0 <= i < n ensures Frame(addrs)[n - i] == addrs[i] {
      assert Frame(addrs)[n - i] == Reverse(addrs)[n - i - 1];
    }
  }

  /**
   The round trip: when the stack is set up, the program finds at its stack pointer
   the number of arguments, then a pointer to each of them in order, each pointing to
   its NUL-terminated string, and then a null pointer.
   */
  lemma StackRoundTrip(s: Phys, R: set<nat>, kernel: nat, r: nat, argv: seq<seq<int>>)
    requires MemOk(s, R, kernel) && r in R && Bytes(Used(argv)) + 8 * (MAX_ARGS + 3) <= STACK_TOP
    requires SetupStack(s, R, kernel, r, argv).1.Some?
    ensures var (z, sp) := SetupStack(s, R, kernel, r, argv); var n := |Used(argv)|;
      && sp.value % 8 == 0
      && Loads(z, r, sp.value, n)
      && (forall i | 0 <= i < n :: PointsTo(z, r, sp.value + 8, i, Used(argv)[i]))
      && Loads(z, r, sp.value + 8 + 8 * n, 0)
  {
    hide MemOk, Sees, PushStrings, PushWords, Le, Loads, Frame, Slot, Bytes;
    var args := Used(argv);
    var n := |args|;
    PushStringsSpec(s, R, kernel, r, STACK_TOP, args, STACK_TOP, []);
    var p := PushStrings(s, R, kernel, r, STACK_TOP, args);
    var base := AlignDown8(p.sp);
    var ws := Frame(p.addrs);
    FrameSlots(base, p.addrs);
    PushWordsSpec(p.s, R, kernel, r, base, ws, base, []);
    var (z, sp, ok) := PushWords(p.s, R, kernel, r, base, ws);
    StoredWord(z, r, sp, n);
    StoredWord(z, r, sp + 8 + 8 * n, 0);
    forall i | 0 <= i < n
      ensures PointsTo(z, r, sp + 8, i, args[i])
    {
      StoredWord(z, r, sp + 8 + 8 * i, p.addrs[i]);
      PushWordsSpec(p.s, R, kernel, r, base, ws, p.addrs[i], args[i] + [0]);
      assert Loads(z, r, sp + 8 + 8 * i, p.addrs[i]) && Sees(z, r, p.addrs[i], args[i] + [0]);
    }
  }

  // ----------------------------------------------------------------- success

  /** Every address of `lo..hi` is mapped. */
  ghost predicate Mapped(m: Mem, r: nat, lo: nat, hi: nat) {
    forall a | lo <= a < hi :: At(m, r, KeyOf(a)).Page?
  }

  lemma MappedParts(m: Mem, r: nat, lo: nat, mid: nat, hi: nat)
    requires lo <= mid <= hi
    ensures Mapped(m, r, lo, hi) <==> Mapped(m, r, lo, mid) && Mapped(m, r, mid, hi)
  {
    hide At, KeyOf;
    if Mapped(m, r, lo, mid) && Mapped(m, r, mid, hi) {
      forall a | lo <= a < hi ensures At(m, r, KeyOf(a)).Page? {
        if a < mid { assert At(m, r, KeyOf(a)).Page?; }
      }
    }
  }

  lemma SamePage(a: nat, b: nat)
    requires a <= b && a % PAGE_SIZE + (b - a) < PAGE_SIZE
    ensures KeyOf(a) == KeyOf(b)
  {
    assert a / PAGE_SIZE == b / PAGE_SIZE;
  }

  /** A write succeeds exactly when every byte of its range is mapped. */
  lemma {:induction false} WriteOkIff(s: Phys, R: set<nat>, kernel: nat, r: nat, a: nat, bytes: seq<int>)
    requires MemOk(s, R, kernel) && r in R && a + |bytes| <= USER_TOP
    ensures var (z, ok) := WriteUser(s, R, kernel, r, a, bytes);
      MemOk(z, R, kernel) && z.m == s.m && (ok <==> Mapped(s.m, r, a, a + |bytes|))
    decreases |bytes|
  {
    hide KeyOf, MemOk, At, PutChunk;
    WriteUserSpec(s, R, kernel, r, a, bytes, 0);
    if bytes != [] && At(s.m, r, KeyOf(a)).Page? {
      var n := Chunk(a, |bytes|);
      PutChunkSpec(s, R, kernel, r, a, bytes[..n], 0);
      WriteOkIff(PutChunk(s, r, a, bytes[..n]), R, kernel, r, a + n, bytes[n..]);
      forall b | a <= b < a + n ensures At(s.m, r, KeyOf(b)).Page? { SamePage(a, b); }
      MappedParts(s.m, r, a, a + n, a + |bytes|);
    }
  }

  lemma {:induction false} StringsOkIff(s: Phys, R: set<nat>, kernel: nat, r: nat, sp: nat, args: seq<seq<int>>)
    requires MemOk(s, R, kernel) && r in R && Bytes(args) <= sp <= USER_TOP
    ensures var p := PushStrings(s, R, kernel, r, sp, args); p.s.m == s.m && (p.ok <==> Mapped(s.m, r, sp - Bytes(args), sp))
    decreases |args|
  {
    hide MemOk, Mapped, WriteUser;
    if args == [] {
      NothingMapped(s.m, r, sp);
    } else {
      var at := sp - (|args[0]| + 1);
      WriteOkIff(s, R, kernel, r, at, args[0] + [0]);
      MappedParts(s.m, r, sp - Bytes(args), at, sp);
      var (z, ok) := WriteUser(s, R, kernel, r, at, args[0] + [0]);
      if ok { StringsOkIff(z, R, kernel, r, at, args[1..]); }
    }
  }

  lemma NothingMapped(m: Mem, r: nat, a: nat)
    ensures Mapped(m, r, a, a)
  {
  }

  lemma {:induction false} WordsOkIff(s: Phys, R: set<nat>, kernel: nat, r: nat, sp: nat, ws: seq<nat>)
    requires MemOk(s, R, kernel) && r in R && 8 * |ws| <= sp <= USER_TOP
    ensures var (z, _, ok) := PushWords(s, R, kernel, r, sp, ws); ok <==> Mapped(s.m, r, sp - 8 * |ws|, sp)
    decreases |ws|
  {
    hide MemOk, Mapped, WriteUser, Le;
    if ws == [] {
      NothingMapped(s.m, r, sp);
    } else {
      WriteOkIff(s, R, kernel, r, sp - 8, Le(ws[0], 8));
      MappedParts(s.m, r, sp - 8 * |ws|, sp - 8, sp);
      var (z, ok) := WriteUser(s, R, kernel, r, sp - 8, Le(ws[0], 8));
      if ok { WordsOkIff(z, R, kernel, r, sp - 8, ws[1..]); }
    }
  }

  /** The lowest address the stack setup writes. */
  function Bottom(argv: seq<seq<int>>): nat
    requires Bytes(Used(argv)) + 8 * (MAX_ARGS + 3) <= STACK_TOP
  {
    AlignDown8(STACK_TOP - Bytes(Used(argv))) - 8 * (|Used(argv)| + 2)
  }

  /** Rounding down to a word stays on the page. */
  lemma GapMapped(m: Mem, r: nat, sp: nat, hi: nat)
    requires sp < hi && At(m, r, KeyOf(sp)).Page?
    ensures Mapped(m, r, AlignDown8(sp), sp)
  {
    hide KeyOf, At;
    forall a | AlignDown8(sp) <= a < sp ensures At(m, r, KeyOf(a)).Page? {
      assert sp % PAGE_SIZE >= sp % 8;
      SamePage(a, sp);
    }
  }

  /** The stack is set up if and only if every page from its lowest written address to its top is mapped. */
  lemma SetupOkIff(s: Phys, R: set<nat>, kernel: nat, r: nat, argv: seq<seq<int>>)
    requires MemOk(s, R, kernel) && r in R && Bytes(Used(argv)) + 8 * (MAX_ARGS + 3) <= STACK_TOP
    ensures SetupStack(s, R, kernel, r, argv).1.Some? <==> Mapped(s.m, r, Bottom(argv), STACK_TOP)
  {
    hide MemOk, Sees, PushStrings, PushWords, Frame, Bytes, At, KeyOf;
    var args := Used(argv);
    var sp := STACK_TOP - Bytes(args);
    var base := AlignDown8(sp);
    PushStringsSpec(s, R, kernel, r, STACK_TOP, args, STACK_TOP, []);
    StringsOkIff(s, R, kernel, r, STACK_TOP, args);
    var p := PushStrings(s, R, kernel, r, STACK_TOP, args);
    MappedParts(s.m, r, base, sp, STACK_TOP);
    MappedParts(s.m, r, Bottom(argv), base, STACK_TOP);
    if p.ok {
      FrameSlots(base, p.addrs);
      WordsOkIff(p.s, R, kernel, r, base, Frame(p.addrs));
      if sp < STACK_TOP {
        assert At(s.m, r, KeyOf(sp)).Page?;
        GapMapped(s.m, r, sp, STACK_TOP);
      }
    }
  }
}
