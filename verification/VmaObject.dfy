/**
 The area list edited in place (kernel/mm/vmm.c) and the user pointer checks that
 walk it (kernel/mm/uaccess.c).
 */
module VmaObject {

  import opened Common
  import opened Vma

  datatype Result = Done(n: nat) | Fault | Invalid | TooLong

  /** The flags a caller demands of every area in the range. */
  datatype Need = Need(read: bool, write: bool, exec: bool)

  predicate Allows(f: VFlags, need: Need) {
    (need.read ==> f.read) && (need.write ==> f.write) && (need.exec ==> f.exec)
  }

  predicate ByteOk(q: seq<Area>, need: Need, a: nat) {
    a <= USER_SPACE_END && FlagsAt(q, a).Some? && Allows(FlagsAt(q, a).value, need)
  }

  /** Every byte of the range is user memory in an area that allows the access. */
  ghost predicate RangeOk(q: seq<Area>, start: nat, len: nat, need: Need) {
    forall a | start <= a < start + len :: ByteOk(q, need, a)
  }

  function Kept(v: Area, lo: nat, hi: nat, mem: bool): seq<Area> {
    if v.end <= lo then [v] else Pieces(v, lo, hi, mem)
  }

  lemma RemoveUnfold(q: seq<Area>, lo: nat, hi: nat, mem: bool)
    requires q != [] && q[0].start < hi
    ensures Remove(q, lo, hi, mem) == Kept(q[0], lo, hi, mem) + Remove(q[1..], lo, hi, mem)
  {
  }

  /** Byte number `i` of the user string. */
  function Byte(memory: nat -> int, src: nat, i: nat): int {
    memory(src + i)
  }

  predicate Readable(q: seq<Area>, src: nat, i: nat) {
    ByteOk(q, Need(true, false, false), src + i)
  }

  /** The first `n` bytes of the user string are readable and none of them ends it. */
  predicate Goes(q: seq<Area>, src: nat, memory: nat -> int, n: nat) {
    forall i | 0 <= i < n :: Readable(q, src, i) && Byte(memory, src, i) != 0
  }

  class AreaList {
    var areas: seq<Area>

    constructor ()
      ensures areas == []
    {
      areas := [];
    }

    method FindArea(a: nat) returns (r: Option<nat>)
      ensures r == Find(areas, a)
    {
      var i := 0;
      while i < |areas|
        invariant i <= |areas|
        invariant Find(areas, a) == var f := Find(areas[i..], a); if f.None? then None else Some(f.value + i)
      {
        var v := areas[i];
        if a >= v.start && a < v.end { return Some(i); }
        if a < v.start { break; }
        assert areas[i..][1..] == areas[i + 1..];
        i := i + 1;
      }
      r := None;
    }

    method Intersects(lo: nat, hi: nat) returns (r: bool)
      ensures r == Intersect(areas, lo, hi)
    {
      var i := 0;
      while i < |areas|
        invariant i <= |areas|
        invariant Intersect(areas, lo, hi) == Intersect(areas[i..], lo, hi)
      {
        var v := areas[i];
        if v.start < hi && v.end > lo { return true; }
        if v.start >= hi { break; }
        assert areas[i..][1..] == areas[i + 1..];
        i := i + 1;
      }
      r := false;
    }

    method InsertArea(v: Area)
      modifies this
      ensures areas == Insert(old(areas), v)
    {
      var done: seq<Area> := [];
      var rest := areas;
      while rest != [] && !(v.start < rest[0].start)
        invariant Insert(areas, v) == done + Insert(rest, v)
        decreases |rest|
      {
        assert Insert(rest, v) == [rest[0]] + Insert(rest[1..], v);
        done, rest := done + [rest[0]], rest[1..];
      }
      areas := done + ([v] + rest);
    }

    /** What the walk leaves in place of one area. */
    method Trim(v: Area, start: nat, end: nat, mem: bool) returns (left: seq<Area>)
      ensures left == Kept(v, start, end, mem)
    {
      if v.end <= start { return [v]; }
      var us := if v.start > start then v.start else start;
      var ue := if v.end < end then v.end else end;
      if us == v.start && ue == v.end {
        left := [];
      } else if us == v.start {
        left := [v.(start := ue)];
      } else if ue == v.end {
        left := [v.(end := us)];
      } else if mem {
        left := [v.(end := us), v.(start := ue)];
      } else {
        left := [v];
      }
    }

    /** The list walk of `vmm_unmap_region`, editing the current area and stepping over a new one. */
    method RemoveRange(start: nat, size: nat, mem: bool)
      modifies this
      ensures areas == Remove(old(areas), start, (start + size) % U64, mem)
    {
      hide Kept;
      var end := (start + size) % U64;
      ghost var q := areas;
      var done: seq<Area> := [];
      var rest := areas;
      while rest != [] && rest[0].start < end
        invariant areas == done + rest
        invariant Remove(q, start, end, mem) == done + Remove(rest, start, end, mem)
        decreases |rest|
      {
        RemoveUnfold(rest, start, end, mem);
        var left := Trim(rest[0], start, end, mem);
        done, rest := done + left, rest[1..];
        areas := done + rest;
      }
    }

    /**
     `validate_user_range`: on any sorted list it succeeds exactly when every byte
     of the range is user memory in an area with the required flags.
     */
    method ValidateRange(start: nat, len: nat, need: Need) returns (r: bool)
      requires Ok(areas)
      ensures start == 0 ==> !r
      ensures start != 0 && len == 0 ==> r
      ensures start != 0 && len > 0 ==> (r <==> RangeOk(areas, start, len, need))
    {
      if start == 0 { return false; }
      if len == 0 { return true; }
      if start > USER_SPACE_END {
        assert !ByteOk(areas, need, start);
        return false;
      }
      if len - 1 > USER_SPACE_END - start {
        assert !ByteOk(areas, need, USER_SPACE_END + 1);
        return false;
      }
      var end := start + len;
      var cursor := start;
      while cursor < end
        invariant start <= cursor
        invariant forall a | start <= a < cursor && a < end :: ByteOk(areas, need, a)
        decreases end - cursor
      {
        FindSpec(areas, cursor);
        var f := FindArea(cursor);
        if f.None? || cursor < areas[f.value].start {
          assert !ByteOk(areas, need, cursor);
          return false;
        }
        var v := areas[f.value];
        if (need.read && !v.flags.read) || (need.write && !v.flags.write) || (need.exec && !v.flags.exec) {
          assert !ByteOk(areas, need, cursor);
          return false;
        }
        forall a | cursor <= a < v.end && a < end ensures ByteOk(areas, need, a) {
          FlagsAtIff(areas, a);
          assert Has(areas[f.value], a);
        }
        if v.end >= end { break; }
        cursor := v.end;
      }
      r := true;
    }

    /**
     `copy_string_from_user`: the string up to its first NUL if and only if that lies
     within the buffer and every byte up to it is readable; otherwise the first obstacle
     decides the error.
     */
    method CopyString(dst: array<int>, size: nat, src: nat, memory: nat -> int) returns (r: Result)
      requires Ok(areas) && size <= dst.Length
      modifies dst
      ensures r == Invalid <==> src == 0 || size == 0
      ensures forall n: nat :: r == Done(n) <==>
        src != 0 && n < size && Goes(areas, src, memory, n) && Readable(areas, src, n) && Byte(memory, src, n) == 0
      ensures r == Fault <==> src != 0 && exists n: nat :: n < size && Goes(areas, src, memory, n) && !Readable(areas, src, n)
      ensures r == TooLong <==> src != 0 && size != 0 && Goes(areas, src, memory, size)
      ensures r.Done? ==> r.n < size && forall i | 0 <= i <= r.n :: dst[i] == Byte(memory, src, i)
      ensures r == TooLong ==> dst[size - 1] == 0 && forall i | 0 <= i < size - 1 :: dst[i] == Byte(memory, src, i)
      ensures forall i | size <= i < dst.Length :: dst[i] == old(dst[i])
    {
      if src == 0 || size == 0 { return Invalid; }
      var i: nat := 0;
      while i < size
        invariant i <= size
        invariant Goes(areas, src, memory, i) && forall j | 0 <= j < i :: dst[j] == Byte(memory, src, j)
        invariant forall j | size <= j < dst.Length :: dst[j] == old(dst[j])
      {
        var ok := ValidateRange(src + i, 1, Need(true, false, false));
        assert ok <==> Readable(areas, src, i);
        if !ok { return Fault; }
        dst[i] := Byte(memory, src, i);
        if dst[i] == 0 { return Done(i); }
        i := i + 1;
      }
      dst[size - 1] := 0;
      r := TooLong;
    }
  }
}
