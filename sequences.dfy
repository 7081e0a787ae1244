/** Sequence operations that the source gets from QList: removeAt, removeOne, contains. */
module Sequences {

  /** QList::removeAt: drops entry `i`, the others keep their order. */
  function RemoveAt<T>(s: seq<T>, i: nat): (r: seq<T>)
    requires i < |s|
    ensures |r| == |s| - 1
    ensures forall k {:trigger r[k]} :: 0 <= k < i ==> r[k] == s[k]
    ensures forall k :: i <= k < |r| ==> r[k] == s[k + 1]
  {
    s[..i] + s[i + 1..]
  }

  /** The position std::find reports for a value that occurs in `s`. */
  function FirstIndexOf<T(==)>(s: seq<T>, x: T): (i: nat)
    requires x in s
    ensures i < |s| && s[i] == x
    ensures forall k :: 0 <= k < i ==> s[k] != x
  {
    if s[0] == x then 0 else 1 + FirstIndexOf(s[1..], x)
  }

  /** QList::removeOne: removes the first occurrence of `x`, if there is one. */
  function RemoveFirst<T(==)>(s: seq<T>, x: T): seq<T> {
    if x in s then RemoveAt(s, FirstIndexOf(s, x)) else s
  }

  predicate NoDuplicates<T(==)>(s: seq<T>) {
    forall i, j :: 0 <= i < j < |s| ==> s[i] != s[j]
  }

  /** Appending after the first occurrence does not move it. */
  lemma FirstIndexOfAppend<T>(a: seq<T>, b: seq<T>, x: T)
    requires x in a
    ensures FirstIndexOf(a + b, x) == FirstIndexOf(a, x)
  {
    var i := FirstIndexOf(a, x);
    var j := FirstIndexOf(a + b, x);
    assert (a + b)[i] == x;
  }

  /** Removing the first occurrence of a value that occurs in `a` leaves what follows `a` alone. */
  lemma RemoveFirstAppend<T>(a: seq<T>, b: seq<T>, x: T)
    requires x in a
    ensures RemoveFirst(a + b, x) == RemoveFirst(a, x) + b
  {
    FirstIndexOfAppend(a, b, x);
    var i := FirstIndexOf(a, x);
    calc {
      RemoveFirst(a + b, x);
      (a + b)[..i] + (a + b)[i + 1..];
      { assert (a + b)[..i] == a[..i]; assert (a + b)[i + 1..] == a[i + 1..] + b; }
      a[..i] + (a[i + 1..] + b);
      (a[..i] + a[i + 1..]) + b;
      RemoveFirst(a, x) + b;
    }
  }

  lemma NoDuplicatesAppend<T>(a: seq<T>, b: seq<T>)
    requires NoDuplicates(a) && NoDuplicates(b)
    requires forall x :: x in a ==> x !in b
    ensures NoDuplicates(a + b)
  {
    forall i, j | 0 <= i < j < |a + b| ensures (a + b)[i] != (a + b)[j] {
      if j >= |a| && i < |a| {
        assert (a + b)[i] in a;
        assert (a + b)[j] == b[j - |a|];
      }
    }
  }
}
