/** Sorting a list by falling keys, as sort.Slice does with After. */
module Sorting {
  predicate Falling<T>(s: seq<T>, key: T -> int) {
    forall i, j | 0 <= i < j < |s| :: key(s[i]) >= key(s[j])
  }

  predicate Distinct<T(==)>(s: seq<T>) {
    forall i, j | 0 <= i < j < |s| :: s[i] != s[j]
  }

  function Inserted<T>(s: seq<T>, k: nat, x: T): seq<T>
    requires k <= |s|
  {
    s[..k] + [x] + s[k..]
  }

  lemma InsertedElements<T>(s: seq<T>, k: nat, x: T)
    requires k <= |s|
    ensures multiset(Inserted(s, k, x)) == multiset(s) + multiset{x}
  {
    assert s == s[..k] + s[k..];
  }

  lemma InsertedDistinct<T>(s: seq<T>, k: nat, x: T)
    requires k <= |s| && Distinct(s) && x !in s
    ensures Distinct(Inserted(s, k, x))
  {
    var t := Inserted(s, k, x);
    assert forall i | 0 <= i < |t| :: t[i] == if i < k then s[i] else if i == k then x else s[i - 1];
  }

  lemma InsertedFalling<T>(s: seq<T>, k: nat, x: T, key: T -> int)
    requires k <= |s| && Falling(s, key)
    requires (forall i | 0 <= i < k :: key(s[i]) >= key(x)) && (k < |s| ==> key(x) >= key(s[k]))
    ensures Falling(Inserted(s, k, x), key)
  {
    var t := Inserted(s, k, x);
    assert forall i | 0 <= i < |t| :: t[i] == if i < k then s[i] else if i == k then x else s[i - 1];
  }

  /** Lists with the same elements have the same members and the same length. */
  lemma SameElements<T>(a: seq<T>, b: seq<T>)
    requires multiset(a) == multiset(b)
    ensures |a| == |b| && forall x :: x in a <==> x in b
  {
    assert |a| == |multiset(a)|;
    assert forall x :: x in a <==> x in multiset(a);
    assert forall x :: x in b <==> x in multiset(b);
  }

  method InsertFalling<T(==)>(s: seq<T>, x: T, key: T -> int) returns (t: seq<T>)
    requires Falling(s, key)
    ensures multiset(t) == multiset(s) + multiset{x} && Falling(t, key)
    ensures Distinct(s) && x !in s ==> Distinct(t)
  {
    var k := 0;
    while k < |s| && key(s[k]) >= key(x)
      invariant 0 <= k <= |s| && forall i | 0 <= i < k :: key(s[i]) >= key(x)
    {
      k := k + 1;
    }
    InsertedElements(s, k, x);
    InsertedFalling(s, k, x, key);
    if Distinct(s) && x !in s {
      InsertedDistinct(s, k, x);
    }
    return Inserted(s, k, x);
  }

  /** The same elements, each as often as before, with falling keys. */
  method SortFalling<T(==)>(items: seq<T>, key: T -> int) returns (sorted: seq<T>)
    ensures multiset(sorted) == multiset(items) && Falling(sorted, key)
    ensures Distinct(items) ==> Distinct(sorted)
  {
    sorted := [];
    for n := 0 to |items|
      invariant multiset(sorted) == multiset(items[..n]) && Falling(sorted, key)
      invariant Distinct(items) ==> Distinct(sorted)
    {
      assert items[..n + 1] == items[..n] + [items[n]];
      SameElements(sorted, items[..n]);
      sorted := InsertFalling(sorted, items[n], key);
    }
    assert items[..|items|] == items;
  }
}
