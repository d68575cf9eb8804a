/** Rings: a stretch of an array that may run past its end and on from its beginning. */
module Circular {
  /** An index one time round at most. */
  function Wrap(k: nat, size: nat): (i: nat)
    requires k < 2 * size
    ensures i < size
  {
    if k < size then k else k - size
  }

  /** The elements in use, oldest first. */
  function Contents<T>(a: seq<T>, head: nat, count: nat): (s: seq<T>)
    requires head < |a| && count <= |a|
    ensures |s| == count
  {
    seq(count, i requires 0 <= i < count => a[Wrap(head + i, |a|)])
  }

  lemma Drop<T>(a: seq<T>, head: nat, count: nat, n: nat)
    requires head < |a| && count <= |a| && n <= count
    ensures Contents(a, Wrap(head + n, |a|), count - n) == Contents(a, head, count)[n..]
  {
    var rest, all := Contents(a, Wrap(head + n, |a|), count - n), Contents(a, head, count);
    forall i | 0 <= i < count - n ensures rest[i] == all[n + i] {
      assert Wrap(Wrap(head + n, |a|) + i, |a|) == Wrap(head + (n + i), |a|);
    }
  }

  lemma At<T>(a: seq<T>, head: nat, count: nat, i: nat)
    requires head < |a| && i < count <= |a|
    ensures Contents(a, head, count)[i] == a[Wrap(head + i, |a|)]
  {
  }

  /** Writing behind the last element of a ring with room left. */
  lemma Push<T>(a: seq<T>, head: nat, count: nat, x: T)
    requires head < |a| && count < |a|
    ensures Contents(a[Wrap(head + count, |a|) := x], head, count + 1) == Contents(a, head, count) + [x]
  {
    var before, after := Contents(a, head, count), Contents(a[Wrap(head + count, |a|) := x], head, count + 1);
    forall i | 0 <= i < count ensures after[i] == before[i] {
      assert Wrap(head + i, |a|) != Wrap(head + count, |a|);
    }
  }

  /** Writing over the oldest element of a full one. */
  lemma Overwrite<T>(a: seq<T>, head: nat, x: T)
    requires head < |a|
    ensures Contents(a[head := x], Wrap(head + 1, |a|), |a|) == Contents(a, head, |a|)[1..] + [x]
  {
    Drop(a, head, |a|, 1);
    var rest := Contents(a, Wrap(head + 1, |a|), |a| - 1);
    Push(a, Wrap(head + 1, |a|), |a| - 1, x);
    assert Wrap(Wrap(head + 1, |a|) + (|a| - 1), |a|) == head;
  }
}
