/** Sequence operations shared by the in-place lists of the model: the child list of a
    scene node and the per-kind lists of the collision registry. */
module Sequences {

  /** No element occurs twice. */
  predicate Distinct<T(==)>(s: seq<T>)
  {
    forall i, j :: 0 <= i < j < |s| ==> s[i] != s[j]
  }

  /** The sequence without the first occurrence of `x` (what `std::find` followed by
      `erase` leaves behind); the sequence itself when `x` does not occur. */
  function RemoveFirst<T(==)>(s: seq<T>, x: T): (r: seq<T>)
    ensures |r| == if x in s then |s| - 1 else |s|
    ensures forall y :: y in r ==> y in s
  {
    if s == [] then []
    else if s[0] == x then s[1..]
    else [s[0]] + RemoveFirst(s[1..], x)
  }

  /** Exactly one copy of `x` goes, if there is one, and nothing else. */
  lemma {:induction false} RemoveFirstMultiset<T>(s: seq<T>, x: T)
    ensures multiset(RemoveFirst(s, x)) == multiset(s) - multiset{x}
  {
    if s != [] {
      assert s == [s[0]] + s[1..];
      if s[0] != x {
        RemoveFirstMultiset(s[1..], x);
        assert multiset(RemoveFirst(s, x)) == multiset{s[0]} + (multiset(s[1..]) - multiset{x});
      }
    }
  }

  /** Removing an element that does not occur changes nothing. */
  lemma {:induction false} RemoveFirstAbsent<T>(s: seq<T>, x: T)
    requires x !in s
    ensures RemoveFirst(s, x) == s
  {
    if s != [] {
      RemoveFirstAbsent(s[1..], x);
    }
  }

  /** When `i` is the position of the first occurrence of `x`, exactly that element goes and
      everything before and after it stays, in its order. */
  lemma {:induction false} RemoveFirstAt<T>(s: seq<T>, x: T, i: nat)
    requires i < |s| && s[i] == x && x !in s[..i]
    ensures RemoveFirst(s, x) == s[..i] + s[i + 1..]
  {
    if i > 0 {
      assert s[0] in s[..i];
      assert s[1..][..i - 1] == s[1..i];
      RemoveFirstAt(s[1..], x, i - 1);
    }
  }

  /** Removing from a sequence without duplicates keeps it without duplicates and removes
      every occurrence of the element. */
  lemma {:induction false} RemoveFirstDistinct<T>(s: seq<T>, x: T)
    requires Distinct(s)
    ensures Distinct(RemoveFirst(s, x))
    ensures x !in RemoveFirst(s, x)
    ensures forall y :: y in RemoveFirst(s, x) <==> y in s && y != x
  {
    if s != [] {
      assert Distinct(s[1..]);
      if s[0] != x {
        RemoveFirstDistinct(s[1..], x);
        assert s[0] !in s[1..];
      } else {
        assert x !in s[1..];
      }
    }
  }

  /** Appending a new element keeps a sequence without duplicates. */
  lemma DistinctAppend<T>(s: seq<T>, x: T)
    requires Distinct(s) && x !in s
    ensures Distinct(s + [x])
  {
  }

  /** In a sequence without duplicates, an element that occurs occurs exactly once. */
  lemma {:induction false} DistinctCount<T>(s: seq<T>, x: T)
    requires Distinct(s) && x in s
    ensures multiset(s)[x] == 1
  {
    assert s == [s[0]] + s[1..];
    assert Distinct(s[1..]);
    if s[0] == x {
      assert x !in s[1..];
    } else {
      DistinctCount(s[1..], x);
    }
  }

  /** Appending an element that was absent and then removing it gives the sequence back. */
  lemma AppendThenRemove<T>(s: seq<T>, x: T)
    requires x !in s
    ensures RemoveFirst(s + [x], x) == s
  {
    assert (s + [x])[..|s|] == s;
    RemoveFirstAt(s + [x], x, |s|);
    assert (s + [x])[|s| + 1..] == [];
  }

  /** `std::find`: the index of the first occurrence of `x`, or `|s|` when there is none. */
  method Find<T(==)>(s: seq<T>, x: T) returns (i: nat)
    ensures i <= |s|
    ensures x !in s[..i]
    ensures i < |s| ==> s[i] == x
    ensures i == |s| <==> x !in s
  {
    i := 0;
    while i < |s| && s[i] != x
      invariant i <= |s|
      invariant x !in s[..i]
    {
      assert s[..i + 1] == s[..i] + [s[i]];
      i := i + 1;
    }
    assert s[..|s|] == s;
  }
}
