// Sets kept as sorted arrays without duplicates, for any totally ordered type of element.
module SortedSets {

  /** Negative, zero or positive as the first element is below, equal to, or above the second. */
  type Order<!T> = (T, T) -> int

  ghost predicate TotalOrder<T(!new)>(cmp: Order<T>) {
    && (forall x, y :: cmp(x, y) == 0 <==> x == y)
    && (forall x, y :: cmp(x, y) < 0 <==> cmp(y, x) > 0)
    && (forall x, y, z :: cmp(x, y) < 0 && cmp(y, z) < 0 ==> cmp(x, z) < 0)
  }

  predicate Sorted<T>(cmp: Order<T>, s: seq<T>) {
    forall i, j :: 0 <= i < j < |s| ==> cmp(s[i], s[j]) < 0
  }

  /** Insert an element into a sorted array unless it is there already. */
  function Insert<T>(cmp: Order<T>, s: seq<T>, x: T): seq<T> {
    if s == [] || cmp(x, s[0]) < 0 then [x] + s
    else if cmp(x, s[0]) == 0 then s
    else [s[0]] + Insert(cmp, s[1..], x)
  }

  lemma {:induction false} InsertMembers<T(!new)>(cmp: Order<T>, s: seq<T>, x: T, y: T)
    requires TotalOrder(cmp)
    ensures y in Insert(cmp, s, x) <==> y in s || y == x
  {
    if s != [] && cmp(x, s[0]) > 0 {
      InsertMembers(cmp, s[1..], x, y);
      assert y in s <==> y == s[0] || y in s[1..];
      assert y in Insert(cmp, s, x) <==> y == s[0] || y in Insert(cmp, s[1..], x);
    }
  }

  lemma SortedCons<T>(cmp: Order<T>, x: T, s: seq<T>)
    requires Sorted(cmp, s) && forall y :: y in s ==> cmp(x, y) < 0
    ensures Sorted(cmp, [x] + s)
  {
  }

  lemma BelowAll<T(!new)>(cmp: Order<T>, s: seq<T>, x: T)
    requires TotalOrder(cmp) && Sorted(cmp, s) && s != [] && cmp(x, s[0]) < 0
    ensures forall y :: y in s ==> cmp(x, y) < 0
  {
    forall j | 0 <= j < |s| ensures cmp(x, s[j]) < 0 {
      assert j > 0 ==> cmp(s[0], s[j]) < 0;
    }
  }

  lemma {:induction false} InsertSorts<T(!new)>(cmp: Order<T>, s: seq<T>, x: T)
    requires TotalOrder(cmp) && Sorted(cmp, s)
    ensures Sorted(cmp, Insert(cmp, s, x)) && |s| <= |Insert(cmp, s, x)| <= |s| + 1
  {
    if s == [] {
      SortedCons(cmp, x, s);
    } else if cmp(x, s[0]) < 0 {
      BelowAll(cmp, s, x);
      SortedCons(cmp, x, s);
    } else if cmp(x, s[0]) > 0 {
      assert cmp(s[0], x) < 0;
      InsertSorts(cmp, s[1..], x);
      var rest := Insert(cmp, s[1..], x);
      forall y | y in rest ensures cmp(s[0], y) < 0 {
        InsertMembers(cmp, s[1..], x, y);
      }
      hide TotalOrder;
      SortedCons(cmp, s[0], rest);
    }
  }

  /** The sorted array holding the elements of two arrays, of which the first is sorted. */
  function InsertAll<T>(cmp: Order<T>, s: seq<T>, items: seq<T>): seq<T>
    decreases items
  {
    if items == [] then s else InsertAll(cmp, Insert(cmp, s, items[0]), items[1..])
  }

  lemma {:induction false} InsertAllSorts<T(!new)>(cmp: Order<T>, s: seq<T>, items: seq<T>)
    requires TotalOrder(cmp) && Sorted(cmp, s)
    ensures Sorted(cmp, InsertAll(cmp, s, items)) && |s| <= |InsertAll(cmp, s, items)| <= |s| + |items|
    ensures forall y :: y in InsertAll(cmp, s, items) <==> y in s || y in items
    decreases items
  {
    if items != [] {
      InsertSorts(cmp, s, items[0]);
      InsertAllSorts(cmp, Insert(cmp, s, items[0]), items[1..]);
      forall y ensures y in InsertAll(cmp, s, items) <==> y in s || y in items {
        InsertMembers(cmp, s, items[0], y);
        assert y in items <==> y == items[0] || y in items[1..];
      }
    }
  }

  /** Sort an array, dropping duplicates. */
  function SortedSet<T>(cmp: Order<T>, items: seq<T>): seq<T> {
    InsertAll(cmp, [], items)
  }

  /** A sorted set is determined by its elements, however it was put together. */
  lemma {:induction false} SortedUnique<T(!new)>(cmp: Order<T>, s: seq<T>, t: seq<T>)
    requires TotalOrder(cmp) && Sorted(cmp, s) && Sorted(cmp, t)
    requires forall y :: y in s <==> y in t
    ensures s == t
  {
    assert s == [] <==> t == [] by {
      assert s != [] ==> s[0] in t;
      assert t != [] ==> t[0] in s;
    }
    if s != [] {
      assert s[0] in t && t[0] in s;
      assert s[0] == t[0];
      hide TotalOrder;
      forall y ensures y in s[1..] <==> y in t[1..] {
        assert y in s <==> y == s[0] || y in s[1..];
        assert y in t <==> y == t[0] || y in t[1..];
      }
      SortedUnique(cmp, s[1..], t[1..]);
    }
  }

  /** Find an element of a sorted array by bisection, returning its length where there is none. */
  method Find<T(==, !new)>(cmp: Order<T>, s: seq<T>, x: T) returns (index: nat)
    requires TotalOrder(cmp) && Sorted(cmp, s)
    ensures index <= |s| && (index < |s| ==> s[index] == x) && (index == |s| ==> x !in s)
  {
    var lo, hi := 0, |s|;
    while lo < hi
      invariant 0 <= lo <= hi <= |s|
      invariant forall i :: 0 <= i < lo ==> cmp(s[i], x) < 0
      invariant forall i :: hi <= i < |s| ==> cmp(x, s[i]) <= 0
    {
      var mid := (lo + hi) / 2;
      if cmp(x, s[mid]) <= 0 {
        forall i | mid <= i < |s| ensures cmp(x, s[i]) <= 0 {
          assert i > mid ==> cmp(s[mid], s[i]) < 0;
        }
        hi := mid;
      } else {
        forall i | 0 <= i <= mid ensures cmp(s[i], x) < 0 {
          assert i < mid ==> cmp(s[i], s[mid]) < 0;
        }
        lo := mid + 1;
      }
    }
    if lo < |s| && cmp(s[lo], x) == 0 {
      return lo;
    }
    forall i | lo <= i < |s| ensures s[i] != x {
      assert i > lo ==> cmp(s[lo], s[i]) < 0;
    }
    return |s|;
  }

  /** An array without one of its elements. */
  function Without<T(==)>(s: seq<T>, x: T): seq<T> {
    if s == [] then [] else if s[0] == x then s[1..] else [s[0]] + Without(s[1..], x)
  }

  predicate Distinct<T(==)>(s: seq<T>) {
    forall i, j :: 0 <= i < j < |s| ==> s[i] != s[j]
  }

  lemma SortedDistinct<T(!new)>(cmp: Order<T>, s: seq<T>)
    requires TotalOrder(cmp) && Sorted(cmp, s)
    ensures Distinct(s)
  {
    assert forall x :: cmp(x, x) == 0;
  }

  lemma {:induction false} WithoutMembers<T(!new)>(s: seq<T>, x: T)
    requires Distinct(s)
    ensures |Without(s, x)| == |s| - (if x in s then 1 else 0)
    ensures forall y :: y in Without(s, x) <==> y in s && y != x
  {
    if s != [] {
      assert s == [s[0]] + s[1..];
      WithoutMembers(s[1..], x);
    }
  }

  lemma {:induction false} WithoutSorts<T>(cmp: Order<T>, s: seq<T>, x: T)
    requires Sorted(cmp, s)
    ensures Sorted(cmp, Without(s, x)) && forall y :: y in Without(s, x) ==> y in s
  {
    if s != [] {
      WithoutSorts(cmp, s[1..], x);
      if s[0] != x {
        var rest := Without(s[1..], x);
        forall j | 0 <= j < |rest| ensures cmp(s[0], rest[j]) < 0 {
          assert rest[j] in s[1..];
        }
      }
    }
  }

  lemma {:induction false} WithoutAt<T>(s: seq<T>, i: nat)
    requires i < |s| && Distinct(s)
    ensures Without(s, s[i]) == s[..i] + s[i + 1..]
  {
    if i > 0 {
      WithoutAt(s[1..], i - 1);
      assert s[..i] == [s[0]] + s[1..][..i - 1] && s[1..][i..] == s[i + 1..];
    }
  }

  /** Distinct elements of a list are no more than the list is long. */
  lemma {:induction false} SubsetIsSmaller<T>(s: seq<T>, t: seq<T>)
    requires Distinct(s) && forall x :: x in s ==> x in t
    ensures |s| <= |t|
  {
    if s != [] {
      assert s[0] in t;
      var i :| 0 <= i < |t| && t[i] == s[0];
      var rest := t[..i] + t[i + 1..];
      forall x | x in s[1..] ensures x in rest {
        assert x in t;
        var j :| 0 <= j < |t| && t[j] == x;
        assert j != i;
        assert x in t[..i] || x in t[i + 1..];
      }
      SubsetIsSmaller(s[1..], rest);
    }
  }

  // ---------------------------------------------------------------------------
  // Arrays of elements
  // ---------------------------------------------------------------------------

  /** Compare arrays by length, then element by element. */
  function Compare<T>(cmp: Order<T>, s: seq<T>, t: seq<T>): int {
    if |s| < |t| then -1 else if |s| > |t| then 1 else CompareElements(cmp, s, t)
  }

  function CompareElements<T>(cmp: Order<T>, s: seq<T>, t: seq<T>): int
    requires |s| == |t|
  {
    if s == [] then 0 else if cmp(s[0], t[0]) != 0 then cmp(s[0], t[0]) else CompareElements(cmp, s[1..], t[1..])
  }

  lemma {:induction false} CompareElementsOrders<T(!new)>(cmp: Order<T>, r: seq<T>, s: seq<T>, t: seq<T>)
    requires TotalOrder(cmp) && |r| == |s| == |t|
    ensures CompareElements(cmp, r, s) == 0 <==> r == s
    ensures CompareElements(cmp, r, s) < 0 <==> CompareElements(cmp, s, r) > 0
    ensures CompareElements(cmp, r, s) < 0 && CompareElements(cmp, s, t) < 0 ==> CompareElements(cmp, r, t) < 0
  {
    if r != [] {
      CompareElementsOrders(cmp, r[1..], s[1..], t[1..]);
      assert r == [r[0]] + r[1..] && s == [s[0]] + s[1..];
    }
  }

  /** Shorter arrays come first; among those of equal length, the first difference decides. */
  lemma {:induction false} CompareFirst<T(!new)>(cmp: Order<T>, s: seq<T>, t: seq<T>, i: nat)
    requires TotalOrder(cmp)
    ensures |s| < |t| ==> Compare(cmp, s, t) < 0
    ensures |s| == |t| && i < |s| && s[..i] == t[..i] && cmp(s[i], t[i]) < 0 ==> Compare(cmp, s, t) < 0
  {
    if |s| == |t| && 0 < i < |s| && s[..i] == t[..i] {
      assert s[0] == s[..i][0] == t[..i][0] == t[0];
      assert cmp(s[0], t[0]) == 0;
      assert s[1..][..i - 1] == s[..i][1..] == t[..i][1..] == t[1..][..i - 1];
      CompareFirst(cmp, s[1..], t[1..], i - 1);
    }
  }

  /** Comparing arrays of ordered elements is itself an order. */
  lemma CompareOrders<T(!new)>(cmp: Order<T>, r: seq<T>, s: seq<T>, t: seq<T>)
    requires TotalOrder(cmp)
    ensures Compare(cmp, r, s) == 0 <==> r == s
    ensures Compare(cmp, r, s) < 0 <==> Compare(cmp, s, r) > 0
    ensures Compare(cmp, r, s) < 0 && Compare(cmp, s, t) < 0 ==> Compare(cmp, r, t) < 0
  {
    if |r| == |s| == |t| {
      CompareElementsOrders(cmp, r, s, t);
    } else if |r| == |s| {
      CompareElementsOrders(cmp, r, s, s);
    }
  }
}
