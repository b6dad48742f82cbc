/** Concatenation and its regrouping, for sequences of anything. */
module Sequences {

  lemma Regroup<T>(a: seq<T>, b: seq<T>, c: seq<T>)
    ensures a + (b + c) == a + b + c
  {}

  lemma Regroup4<T>(a: seq<T>, b: seq<T>, c: seq<T>, d: seq<T>)
    ensures a + b + c + d == a + (b + c + d)
  {}

  /** A list of sequences, one after another. */
  function Concat<T>(parts: seq<seq<T>>): seq<T> {
    if parts == [] then [] else parts[0] + Concat(parts[1..])
  }

  lemma {:induction false} ConcatAppend<T>(a: seq<seq<T>>, b: seq<seq<T>>)
    ensures Concat(a + b) == Concat(a) + Concat(b)
  {
    if a == [] {
      assert a + b == b;
    } else {
      assert (a + b)[1..] == a[1..] + b;
      ConcatAppend(a[1..], b);
    }
  }

  lemma ConcatOne<T>(part: seq<T>)
    ensures Concat([part]) == part
  {
    assert [part][1..] == [];
  }

  lemma {:induction false} ConcatAt<T>(parts: seq<seq<T>>, k: nat)
    requires k < |parts|
    ensures Concat(parts) == Concat(parts[..k]) + (parts[k] + Concat(parts[k + 1..]))
  {
    if k > 0 {
      ConcatAt(parts[1..], k - 1);
      assert parts[1..][..k - 1] == parts[..k][1..] && parts[1..][k..] == parts[k + 1..];
      Regroup(parts[0], Concat(parts[..k][1..]), parts[k] + Concat(parts[k + 1..]));
    }
  }
}
