/** Sequence helpers standing in for the `java.util.ArrayList` operations the
    source relies on: `contains`, `indexOf` and `remove(Object)`. */
module Lists {

  /** No element occurs twice. */
  predicate NoDup<T(==)>(xs: seq<T>) {
    forall i, j :: 0 <= i < j < |xs| ==> xs[i] != xs[j]
  }

  /** The position of the first occurrence of `x`, as `indexOf` finds it. */
  function IndexOf<T(==)>(xs: seq<T>, x: T): (i: nat)
    requires x in xs
    ensures i < |xs| && xs[i] == x
    ensures forall j :: 0 <= j < i ==> xs[j] != x
  {
    if xs[0] == x then 0 else 1 + IndexOf(xs[1..], x)
  }

  /** `ArrayList.remove(Object)`: drop the first occurrence of `x`, if any. */
  function RemoveFirst<T(==)>(xs: seq<T>, x: T): (r: seq<T>)
    ensures x !in xs ==> r == xs
    ensures x in xs ==> r == xs[..IndexOf(xs, x)] + xs[IndexOf(xs, x) + 1..]
    ensures |r| == if x in xs then |xs| - 1 else |xs|
  {
    if x in xs then xs[..IndexOf(xs, x)] + xs[IndexOf(xs, x) + 1..] else xs
  }

  /** On a duplicate-free list, removing `x` removes it completely, keeps every
      other element and keeps the list duplicate-free. */
  lemma RemoveFirstNoDup<T>(xs: seq<T>, x: T)
    requires NoDup(xs)
    ensures NoDup(RemoveFirst(xs, x))
    ensures x !in RemoveFirst(xs, x)
    ensures forall y :: y != x ==> (y in RemoveFirst(xs, x) <==> y in xs)
  {
    if x in xs {
      var i := IndexOf(xs, x);
      var r := xs[..i] + xs[i + 1..];
      assert RemoveFirst(xs, x) == r;
      assert |r| == |xs| - 1;
      assert forall k :: 0 <= k < |r| ==> r[k] == xs[if k < i then k else k + 1];
      forall y | y != x
        ensures y in r <==> y in xs
      {
        if y in xs {
          var k := IndexOf(xs, y);
          if k < i { assert r[k] == y; } else { assert r[k - 1] == y; }
        }
      }
    }
  }

  /** Appending an absent element keeps a list duplicate-free. */
  lemma AppendFreshNoDup<T>(xs: seq<T>, x: T)
    requires x !in xs
    ensures NoDup(xs) ==> NoDup(xs + [x])
  {
  }
}
