/** `Array.prototype.sort` with the comparator `(a, b) => key(b) - key(a)`,
    which both the streak calculator and the archive page use to put the most
    recent record first. The engine's algorithm is not visible, so the model is
    an in-place insertion sort proved to leave a newest-first permutation. */
module Sorting {

  /** Every element is at least as recent as every element after it. */
  predicate NewestFirst<T>(s: seq<T>, key: T -> int)
  {
    forall p, q :: 0 <= p < q < |s| ==> key(s[p]) >= key(s[q])
  }

  /** Sorts `a` in place so that larger keys come first; the contents are a
      permutation of what was there before. */
  method SortNewestFirst<T>(a: array<T>, key: T -> int)
    modifies a
    ensures NewestFirst(a[..], key)
    ensures multiset(a[..]) == multiset(old(a[..]))
  {
    var i := 0;
    while i < a.Length
      invariant 0 <= i <= a.Length
      invariant NewestFirst(a[..i], key)
      invariant multiset(a[..]) == multiset(old(a[..]))
    {
      InsertNewest(a, i, key);
      i := i + 1;
    }
    assert a[..a.Length] == a[..];
  }

  /** One insertion step: moves `a[i]` down into the sorted prefix `a[..i]`,
      leaving `a[..i + 1]` sorted and the rest of the array untouched. */
  method InsertNewest<T>(a: array<T>, i: int, key: T -> int)
    requires 0 <= i < a.Length
    requires NewestFirst(a[..i], key)
    modifies a
    ensures NewestFirst(a[..i + 1], key)
    ensures a[i + 1..] == old(a[i + 1..])
    ensures multiset(a[..]) == multiset(old(a[..]))
  {
    var j := i;
    while j > 0 && key(a[j - 1]) < key(a[j])
      invariant 0 <= j <= i
      invariant forall p, q :: 0 <= p < q < j ==> key(a[p]) >= key(a[q])
      invariant forall p, q :: j <= p < q <= i ==> key(a[p]) >= key(a[q])
      invariant forall p, q :: 0 <= p < j < q <= i ==> key(a[p]) >= key(a[q])
      invariant a[i + 1..] == old(a[i + 1..])
      invariant multiset(a[..]) == multiset(old(a[..]))
    {
      Swap(a, j - 1, j);
      j := j - 1;
    }
  }

  /** Exchanges two adjacent elements. */
  method Swap<T>(a: array<T>, i: int, j: int)
    requires 0 <= i < j < a.Length
    modifies a
    ensures a[i] == old(a[j]) && a[j] == old(a[i])
    ensures forall k :: 0 <= k < a.Length && k != i && k != j ==> a[k] == old(a[k])
    ensures multiset(a[..]) == multiset(old(a[..]))
  {
    a[i], a[j] := a[j], a[i];
  }
}
