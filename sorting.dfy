/**
 * `Array.prototype.sort` with a comparator: the comparator returns a negative
 * number, zero or a positive number, and the sort is stable (items that compare
 * equal keep their order), as ECMAScript has required since its 2019 edition.
 */
module Sorting {

  /** `a` may stay before `b`: the comparator does not ask for them to be swapped. */
  predicate Before<T>(cmp: (T, T) -> int, a: T, b: T)
  {
    cmp(a, b) <= 0
  }

  /** `a` and `b` compare equal. */
  predicate Tied<T>(cmp: (T, T) -> int, a: T, b: T)
  {
    Before(cmp, a, b) && Before(cmp, b, a)
  }

  /** A consistent comparator: every two items compare, and "may come before" is transitive. */
  ghost predicate ConsistentComparator<T(!new)>(cmp: (T, T) -> int)
  {
    && (forall a, b :: Before(cmp, a, b) || Before(cmp, b, a))
    && (forall a, b, c :: Before(cmp, a, b) && Before(cmp, b, c) ==> Before(cmp, a, c))
  }

  /** `s` is in the order the comparator asks for. */
  predicate Ordered<T>(cmp: (T, T) -> int, s: seq<T>)
  {
    forall i, j :: 0 <= i < j < |s| ==> Before(cmp, s[i], s[j])
  }

  /** The items of `s` that compare equal to `x`, in the order they appear in `s`. */
  function Ties<T>(cmp: (T, T) -> int, x: T, s: seq<T>): seq<T>
  {
    if s == [] then []
    else (if Tied(cmp, x, s[0]) then [s[0]] else []) + Ties(cmp, x, s[1..])
  }

  /**
   * `r` is what a stable sort of `s` yields: ordered, a permutation of `s`,
   * and items that compare equal in the order they had in `s`.
   */
  ghost predicate StablySorts<T(!new)>(cmp: (T, T) -> int, r: seq<T>, s: seq<T>)
  {
    && Ordered(cmp, r)
    && multiset(r) == multiset(s)
    && forall x :: Ties(cmp, x, r) == Ties(cmp, x, s)
  }

  /** Insert `x` after the last item of `s` that may come before it. */
  function Insert<T>(cmp: (T, T) -> int, s: seq<T>, x: T): (r: seq<T>)
    ensures |r| == |s| + 1
  {
    if s == [] || Before(cmp, s[|s| - 1], x) then s + [x]
    else Insert(cmp, s[..|s| - 1], x) + [s[|s| - 1]]
  }

  /** The stable sort of `s`, as insertion sort from the front. */
  function StableSort<T>(cmp: (T, T) -> int, s: seq<T>): (r: seq<T>)
    ensures |r| == |s|
  {
    if s == [] then []
    else Insert(cmp, StableSort(cmp, s[..|s| - 1]), s[|s| - 1])
  }

  /** Inserting adds `x` and loses nothing. */
  lemma {:induction false} InsertPermutes<T>(cmp: (T, T) -> int, s: seq<T>, x: T)
    ensures multiset(Insert(cmp, s, x)) == multiset(s) + multiset{x}
  {
    if s != [] && !Before(cmp, s[|s| - 1], x) {
      assert s == s[..|s| - 1] + [s[|s| - 1]];
      InsertPermutes(cmp, s[..|s| - 1], x);
    }
  }

  /** The sort is a permutation of its input. */
  lemma {:induction false} StableSortPermutes<T>(cmp: (T, T) -> int, s: seq<T>)
    ensures multiset(StableSort(cmp, s)) == multiset(s)
  {
    if s != [] {
      assert s == s[..|s| - 1] + [s[|s| - 1]];
      StableSortPermutes(cmp, s[..|s| - 1]);
      InsertPermutes(cmp, StableSort(cmp, s[..|s| - 1]), s[|s| - 1]);
    }
  }

  lemma {:induction false} TiesAppend<T>(cmp: (T, T) -> int, x: T, s: seq<T>, t: seq<T>)
    ensures Ties(cmp, x, s + t) == Ties(cmp, x, s) + Ties(cmp, x, t)
  {
    if s != [] {
      var h := if Tied(cmp, x, s[0]) then [s[0]] else [];
      assert (s + t)[0] == s[0] && (s + t)[1..] == s[1..] + t;
      TiesAppend(cmp, x, s[1..], t);
      calc {
        Ties(cmp, x, s + t);
        h + Ties(cmp, x, s[1..] + t);
        h + (Ties(cmp, x, s[1..]) + Ties(cmp, x, t));
        (h + Ties(cmp, x, s[1..])) + Ties(cmp, x, t);
        Ties(cmp, x, s) + Ties(cmp, x, t);
      }
    } else {
      assert s + t == t;
    }
  }

  lemma {:induction false} InsertOrdered<T(!new)>(cmp: (T, T) -> int, s: seq<T>, x: T)
    requires ConsistentComparator(cmp)
    requires Ordered(cmp, s)
    ensures Ordered(cmp, Insert(cmp, s, x))
  {
    if s != [] && !Before(cmp, s[|s| - 1], x) {
      var init, last := s[..|s| - 1], s[|s| - 1];
      InsertOrdered(cmp, init, x);
      InsertPermutes(cmp, init, x);
      var r := Insert(cmp, init, x);
      forall z | z in r
        ensures Before(cmp, z, last)
      {
        assert z in multiset(r);
        if z != x {
          assert z in multiset(init);
        }
      }
      assert Insert(cmp, s, x) == r + [last];
    }
  }

  lemma {:induction false} InsertTies<T(!new)>(cmp: (T, T) -> int, y: T, s: seq<T>, x: T)
    requires ConsistentComparator(cmp)
    ensures Ties(cmp, y, Insert(cmp, s, x)) == Ties(cmp, y, s) + (if Tied(cmp, y, x) then [x] else [])
  {
    var tx := if Tied(cmp, y, x) then [x] else [];
    if s == [] || Before(cmp, s[|s| - 1], x) {
      TiesAppend(cmp, y, s, [x]);
      assert Ties(cmp, y, [x]) == tx + Ties(cmp, y, [x][1..]);
    } else {
      var init, last := s[..|s| - 1], s[|s| - 1];
      var tl := if Tied(cmp, y, last) then [last] else [];
      assert Ties(cmp, y, [last]) == tl + Ties(cmp, y, [last][1..]);
      assert s == init + [last];
      assert tx == [] || tl == [];
      InsertTies(cmp, y, init, x);
      TiesAppend(cmp, y, Insert(cmp, init, x), [last]);
      TiesAppend(cmp, y, init, [last]);
      calc {
        Ties(cmp, y, Insert(cmp, s, x));
        Ties(cmp, y, Insert(cmp, init, x) + [last]);
        Ties(cmp, y, init) + tx + tl;
        Ties(cmp, y, init) + tl + tx;
        Ties(cmp, y, s) + tx;
      }
    }
  }

  lemma {:induction false} StableSortOrdered<T(!new)>(cmp: (T, T) -> int, s: seq<T>)
    requires ConsistentComparator(cmp)
    ensures Ordered(cmp, StableSort(cmp, s))
  {
    if s != [] {
      StableSortOrdered(cmp, s[..|s| - 1]);
      InsertOrdered(cmp, StableSort(cmp, s[..|s| - 1]), s[|s| - 1]);
    }
  }

  lemma {:induction false} StableSortTies<T(!new)>(cmp: (T, T) -> int, y: T, s: seq<T>)
    requires ConsistentComparator(cmp)
    ensures Ties(cmp, y, StableSort(cmp, s)) == Ties(cmp, y, s)
  {
    if s != [] {
      var init, last := s[..|s| - 1], s[|s| - 1];
      StableSortTies(cmp, y, init);
      InsertTies(cmp, y, StableSort(cmp, init), last);
      assert s == init + [last];
      TiesAppend(cmp, y, init, [last]);
    }
  }

  /** `StableSort` is a stable sort. */
  lemma StableSortCorrect<T(!new)>(cmp: (T, T) -> int, s: seq<T>)
    requires ConsistentComparator(cmp)
    ensures StablySorts(cmp, StableSort(cmp, s), s)
  {
    StableSortOrdered(cmp, s);
    StableSortPermutes(cmp, s);
    forall y
      ensures Ties(cmp, y, StableSort(cmp, s)) == Ties(cmp, y, s)
    {
      StableSortTies(cmp, y, s);
    }
  }

  /** The first items of two stable sorts of one input are the same. */
  lemma StablySortsHead<T(!new)>(cmp: (T, T) -> int, r: seq<T>, t: seq<T>, s: seq<T>)
    requires ConsistentComparator(cmp)
    requires StablySorts(cmp, r, s) && StablySorts(cmp, t, s)
    requires r != []
    ensures t != [] && r[0] == t[0]
  {
    assert r[0] in multiset(t);
    assert t[0] in multiset(r);
    assert Tied(cmp, r[0], t[0]);
    assert Tied(cmp, r[0], r[0]);
    assert Ties(cmp, r[0], r)[0] == r[0];
    assert Ties(cmp, r[0], t)[0] == t[0];
  }

  /** Items tied with `x` after a common first item: dropping that item leaves equal tie lists equal. */
  lemma TiesTail<T>(cmp: (T, T) -> int, x: T, r: seq<T>, t: seq<T>)
    requires r != [] && t != [] && r[0] == t[0]
    requires Ties(cmp, x, r) == Ties(cmp, x, t)
    ensures Ties(cmp, x, r[1..]) == Ties(cmp, x, t[1..])
  {
    var h := if Tied(cmp, x, r[0]) then [r[0]] else [];
    assert Ties(cmp, x, r) == h + Ties(cmp, x, r[1..]);
    assert Ties(cmp, x, t) == h + Ties(cmp, x, t[1..]);
    assert Ties(cmp, x, r[1..]) == Ties(cmp, x, r)[|h|..];
  }

  lemma OrderedTail<T>(cmp: (T, T) -> int, s: seq<T>)
    requires s != [] && Ordered(cmp, s)
    ensures Ordered(cmp, s[1..])
  {
    forall i, j | 0 <= i < j < |s| - 1
      ensures Before(cmp, s[1..][i], s[1..][j])
    {
      assert s[1..][i] == s[i + 1] && s[1..][j] == s[j + 1];
    }
  }

  lemma MultisetTail<T>(r: seq<T>, t: seq<T>)
    requires r != [] && t != [] && r[0] == t[0]
    requires multiset(r) == multiset(t)
    ensures multiset(r[1..]) == multiset(t[1..])
  {
    assert r == [r[0]] + r[1..] && t == [t[0]] + t[1..];
    assert multiset(r[1..]) == multiset(r) - multiset{r[0]};
    assert multiset(t[1..]) == multiset(t) - multiset{r[0]};
  }

  /** Two stable sorts of `s` that start with the same item continue with two stable sorts of one sequence. */
  lemma StablySortsTail<T(!new)>(cmp: (T, T) -> int, r: seq<T>, t: seq<T>, s: seq<T>)
    requires StablySorts(cmp, r, s) && StablySorts(cmp, t, s)
    requires r != [] && t != [] && r[0] == t[0]
    ensures StablySorts(cmp, r[1..], r[1..]) && StablySorts(cmp, t[1..], r[1..])
  {
    OrderedTail(cmp, r);
    OrderedTail(cmp, t);
    MultisetTail(r, t);
    forall x
      ensures Ties(cmp, x, t[1..]) == Ties(cmp, x, r[1..])
    {
      TiesTail(cmp, x, r, t);
    }
  }

  /**
   * Two stable sorts of the same input agree: the result does not depend on
   * which stable algorithm the JavaScript engine uses.
   */
  lemma {:induction false} StablySortsUnique<T(!new)>(cmp: (T, T) -> int, r: seq<T>, t: seq<T>, s: seq<T>)
    requires ConsistentComparator(cmp)
    requires StablySorts(cmp, r, s) && StablySorts(cmp, t, s)
    ensures r == t
    decreases |r|
  {
    if r != [] {
      StablySortsHead(cmp, r, t, s);
      StablySortsTail(cmp, r, t, s);
      StablySortsUnique(cmp, r[1..], t[1..], r[1..]);
      assert r == [r[0]] + r[1..] && t == [t[0]] + t[1..];
    }
  }

  /** Every stable sort of `s` is `StableSort(cmp, s)`. */
  lemma StableSortIsTheStableSort<T(!new)>(cmp: (T, T) -> int, r: seq<T>, s: seq<T>)
    requires ConsistentComparator(cmp)
    requires StablySorts(cmp, r, s)
    ensures r == StableSort(cmp, s)
  {
    StableSortCorrect(cmp, s);
    StablySortsUnique(cmp, r, StableSort(cmp, s), s);
  }

  /** Sorting an already sorted sequence again changes nothing. */
  lemma StableSortIdempotent<T(!new)>(cmp: (T, T) -> int, s: seq<T>)
    requires ConsistentComparator(cmp)
    ensures StableSort(cmp, StableSort(cmp, s)) == StableSort(cmp, s)
  {
    var r := StableSort(cmp, s);
    StableSortCorrect(cmp, r);
    StableSortOrdered(cmp, s);
    StablySortsUnique(cmp, StableSort(cmp, r), r, r);
  }

  /** Sorting one more item of the input inserts it into the sorted prefix. */
  lemma StableSortPrefix<T>(cmp: (T, T) -> int, s: seq<T>, i: int)
    requires 0 <= i < |s|
    ensures StableSort(cmp, s[..i + 1]) == Insert(cmp, StableSort(cmp, s[..i]), s[i])
  {
    assert s[..i + 1][..i] == s[..i] && s[..i + 1][i] == s[i];
  }

  /**
   * `x` is inserted right after the prefix `p[..j]` when the last item of that prefix
   * may come before `x` and every later item must follow it.
   */
  lemma {:induction false} InsertAfterPrefix<T>(cmp: (T, T) -> int, p: seq<T>, x: T, j: int)
    requires 0 <= j <= |p|
    requires j == 0 || Before(cmp, p[j - 1], x)
    requires forall k :: j <= k < |p| ==> !Before(cmp, p[k], x)
    ensures Insert(cmp, p, x) == p[..j] + [x] + p[j..]
    decreases |p|
  {
    if j == |p| {
      assert p[..j] == p && p[j..] == [];
    } else {
      var init := p[..|p| - 1];
      InsertAfterPrefix(cmp, init, x, j);
      assert init[..j] == p[..j];
      assert init[j..] + [p[|p| - 1]] == p[j..];
    }
  }

  /** Once `b` holds `p[..j]`, then `x`, then `p[j..]`, with `x` placed as above, it is the insertion. */
  lemma InsertPlaced<T>(cmp: (T, T) -> int, p: seq<T>, x: T, j: int, b: seq<T>)
    requires 0 <= j <= |p| && |b| == |p| + 1
    requires j == 0 || Before(cmp, p[j - 1], x)
    requires forall k :: j <= k < |p| ==> !Before(cmp, p[k], x)
    requires forall k :: 0 <= k < j ==> b[k] == p[k]
    requires b[j] == x
    requires forall k :: j < k < |b| ==> b[k] == p[k - 1]
    ensures b == Insert(cmp, p, x)
  {
    InsertAfterPrefix(cmp, p, x, j);
    var r := p[..j] + [x] + p[j..];
    forall k | 0 <= k < |b|
      ensures b[k] == r[k]
    {
      if k > j {
        assert r[k] == p[j..][k - j - 1];
      }
    }
  }

  /** `a.sort(cmp)` as insertion sort in place: the array ends up holding the stable sort of what it held. */
  method SortInPlace<T>(a: array<T>, cmp: (T, T) -> int)
    modifies a
    ensures a[..] == StableSort(cmp, old(a[..]))
  {
    ghost var s := a[..];
    for i := 0 to a.Length
      invariant a[..i] == StableSort(cmp, s[..i])
      invariant forall k :: i <= k < a.Length ==> a[k] == s[k]
    {
      InsertAt(a, i, cmp);
      StableSortPrefix(cmp, s, i);
    }
    assert a[..] == a[..a.Length] && s == s[..a.Length];
  }

  /** Move `a[n]` left past the items of the sorted prefix `a[..n]` that must follow it. */
  method InsertAt<T>(a: array<T>, n: int, cmp: (T, T) -> int)
    requires 0 <= n < a.Length
    modifies a
    ensures a[..n + 1] == Insert(cmp, old(a[..n]), old(a[n]))
    ensures forall k :: n < k < a.Length ==> a[k] == old(a[k])
  {
    ghost var p := a[..n];
    var x := a[n];
    var j := n;
    while j > 0 && cmp(a[j - 1], x) > 0
      invariant 0 <= j <= n
      invariant forall k :: 0 <= k < j ==> a[k] == p[k]
      invariant forall k :: j < k <= n ==> a[k] == p[k - 1]
      invariant forall k :: n < k < a.Length ==> a[k] == old(a[k])
      invariant forall k :: j <= k < n ==> !Before(cmp, p[k], x)
    {
      a[j] := a[j - 1];
      j := j - 1;
    }
    a[j] := x;
    InsertPlaced(cmp, p, x, j, a[..n + 1]);
  }
}
