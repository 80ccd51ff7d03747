/** Finite sets and lists without repetitions, and iteration in an order the program does not control. */
module Choice {

  ghost predicate Distinct<T>(s: seq<T>)
  {
    forall i, j :: 0 <= i < j < |s| ==> s[i] != s[j]
  }

  /** The next key of a Go `range` over what is left of a map. */
  method AnyOf<T>(s: set<T>) returns (x: T)
    requires s != {}
    ensures x in s
  {
    x :| x in s;
  }

  lemma HasElement<T(!new)>(s: set<T>)
    requires s != {}
    ensures exists x :: x in s
  {
    var x :| x in s;
  }

  lemma SubsetSize<T>(a: set<T>, b: set<T>)
    requires a <= b
    ensures |a| <= |b|
  {
    assert b == a + (b - a);
  }
}

/** `sort.Slice` and `sort.Sort`, of which callers may rely on an ordered permutation only. */
module Sorting {

  /** `less` is a strict weak order. */
  ghost predicate WeakOrder<T(!new)>(less: (T, T) -> bool)
  {
    && (forall x, y :: less(x, y) ==> !less(y, x))
    && (forall x, y, z :: less(x, z) ==> less(x, y) || less(y, z))
  }

  ghost predicate Ordered<T>(less: (T, T) -> bool, s: seq<T>)
  {
    forall i, j :: 0 <= i < j < |s| ==> !less(s[j], s[i])
  }

  /** A permutation has the same elements. */
  lemma SameElements<T(!new)>(s: seq<T>, t: seq<T>)
    requires multiset(s) == multiset(t)
    ensures |s| == |t| && forall x :: x in s <==> x in t
  {
    assert |s| == |multiset(s)| == |multiset(t)| == |t|;
    forall x ensures x in s <==> x in t {
      assert x in s <==> x in multiset(s);
      assert x in t <==> x in multiset(t);
    }
  }

  method Sort<T(!new)>(s: seq<T>, less: (T, T) -> bool) returns (r: seq<T>)
    requires WeakOrder(less)
    ensures multiset(r) == multiset(s) && Ordered(less, r)
  {
    r := [];
    for i := 0 to |s|
      invariant multiset(r) == multiset(s[..i]) && Ordered(less, r)
    {
      assert s[..i + 1] == s[..i] + [s[i]];
      r := Insert(r, s[i], less);
    }
    assert s[..|s|] == s;
  }

  method Insert<T(!new)>(s: seq<T>, x: T, less: (T, T) -> bool) returns (r: seq<T>)
    requires WeakOrder(less) && Ordered(less, s)
    ensures multiset(r) == multiset(s) + multiset{x} && Ordered(less, r)
  {
    var k := |s|;
    while k > 0 && less(x, s[k - 1])
      invariant 0 <= k <= |s|
      invariant forall i :: k <= i < |s| ==> less(x, s[i])
    {
      k := k - 1;
    }
    r := s[..k] + [x] + s[k..];
    assert s == s[..k] + s[k..];
    InsertOrdered(s, x, less, k);
  }

  lemma InsertOrdered<T(!new)>(s: seq<T>, x: T, less: (T, T) -> bool, k: int)
    requires WeakOrder(less) && Ordered(less, s) && 0 <= k <= |s|
    requires forall i :: k <= i < |s| ==> less(x, s[i])
    requires k > 0 ==> !less(x, s[k - 1])
    ensures Ordered(less, s[..k] + [x] + s[k..])
  {
  }
}
