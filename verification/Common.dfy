/**
 What the components share: optional values, small arithmetic, and the intrusive lists of
 kernel/include/ocean/list.h as sequences of table positions.
 */
module Common {

  datatype Option<+T> = None | Some(value: T)

  function Max(a: nat, b: nat): nat { if a > b then a else b }

  function Min(a: nat, b: nat): nat { if a < b then a else b }

  predicate NoDup(q: seq<nat>) {
    forall i, j | 0 <= i < j < |q| :: q[i] != q[j]
  }

  /** `list_del`: the list without the first occurrence of `p`. */
  function Drop(q: seq<nat>, p: nat): seq<nat> {
    if q == [] then [] else if q[0] == p then q[1..] else [q[0]] + Drop(q[1..], p)
  }

  /** On a list without repetitions exactly `p` goes. */
  lemma {:induction false} DropSpec(q: seq<nat>, p: nat)
    requires NoDup(q)
    ensures NoDup(Drop(q, p)) && |Drop(q, p)| == |q| - if p in q then 1 else 0
    ensures forall x :: x in Drop(q, p) <==> x in q && x != p
    ensures forall i | 0 <= i < |Drop(q, p)| :: Drop(q, p)[i] in q && Drop(q, p)[i] != p
    ensures p !in q ==> Drop(q, p) == q
  {
    if q != [] {
      assert q == [q[0]] + q[1..];
      assert q[0] !in q[1..];
      DropSpec(q[1..], p);
    }
  }

  /** Unlinking by walking to the entry. */
  method Unlinked(q: seq<nat>, p: nat) returns (r: seq<nat>)
    ensures r == Drop(q, p)
  {
    var done: seq<nat> := [];
    var rest := q;
    while rest != [] && rest[0] != p
      invariant Drop(q, p) == done + Drop(rest, p)
      decreases |rest|
    {
      done, rest := done + [rest[0]], rest[1..];
    }
    r := if rest == [] then done else done + rest[1..];
  }
}
