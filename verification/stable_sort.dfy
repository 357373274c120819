/**
  A stable sort driven by a JavaScript-style comparator, the model of `Array.prototype.sort`
  with a compare function. A comparator returns a negative number when its first argument
  must come first, a positive number when its second must, and zero when the two may stay
  in input order. Since ECMAScript 2019 the sort is required to be stable.

  The model sorts by insertion. `SortIsTheStableSort` shows that, for a consistent comparator,
  every rearrangement that is ordered and keeps ties in input order equals this one, so the
  result does not depend on the algorithm an engine actually uses.
 */
module StableSort {
  import opened Seqs

  /** The comparator behaves as a total preorder, which `Array.prototype.sort` relies on. */
  ghost predicate Consistent<T(!new)>(cmp: (T, T) -> int) {
    && (forall a, b :: cmp(a, b) < 0 <==> cmp(b, a) > 0)
    && (forall a, b, c {:trigger cmp(a, b), cmp(b, c)} :: cmp(a, b) <= 0 && cmp(b, c) <= 0 ==> cmp(a, c) <= 0)
  }

  /** The elements the comparator cannot tell apart from `e`. */
  function Tied<T>(cmp: (T, T) -> int, e: T): T -> bool {
    y => cmp(e, y) == 0
  }

  /** Every element may precede every later one. */
  ghost predicate Sorted<T>(s: seq<T>, cmp: (T, T) -> int) {
    forall i, j :: 0 <= i < j < |s| ==> cmp(s[i], s[j]) <= 0
  }

  /** `r` lists each group of tied elements in the order `s` lists it. */
  ghost predicate Stable<T(!new)>(r: seq<T>, s: seq<T>, cmp: (T, T) -> int) {
    forall e :: Filter(r, Tied(cmp, e)) == Filter(s, Tied(cmp, e))
  }

  /** Places `x` before the first element it may precede. */
  function InsertFront<T>(x: T, t: seq<T>, cmp: (T, T) -> int): (r: seq<T>)
    ensures multiset(r) == multiset{x} + multiset(t)
  {
    if |t| == 0 || cmp(x, t[0]) <= 0 then [x] + t
    else
      assert t == [t[0]] + t[1..];
      [t[0]] + InsertFront(x, t[1..], cmp)
  }

  /** The elements of `s` rearranged into comparator order, ties in input order. */
  function Sort<T>(s: seq<T>, cmp: (T, T) -> int): (r: seq<T>)
    ensures multiset(r) == multiset(s)
  {
    if |s| == 0 then []
    else
      assert s == [s[0]] + s[1..];
      InsertFront(s[0], Sort(s[1..], cmp), cmp)
  }

  lemma SelfTied<T(!new)>(cmp: (T, T) -> int, x: T)
    requires Consistent(cmp)
    ensures cmp(x, x) == 0
  {
  }

  /** Inserting `x` in front of an ordered `t` whose head it may precede keeps it ordered. */
  lemma InsertAtHeadSorted<T(!new)>(x: T, t: seq<T>, cmp: (T, T) -> int)
    requires Consistent(cmp) && Sorted(t, cmp)
    requires |t| == 0 || cmp(x, t[0]) <= 0
    ensures Sorted([x] + t, cmp)
  {
  }

  /** Every element of `InsertFront(x, t, cmp)` is `x` or an element of `t`. */
  lemma InsertFrontElement<T>(x: T, t: seq<T>, cmp: (T, T) -> int, i: int)
    requires 0 <= i < |InsertFront(x, t, cmp)|
    ensures InsertFront(x, t, cmp)[i] == x || InsertFront(x, t, cmp)[i] in t
  {
    var r := InsertFront(x, t, cmp);
    assert r[i] in multiset(r);
  }

  lemma {:induction false} InsertFrontSorted<T(!new)>(x: T, t: seq<T>, cmp: (T, T) -> int)
    requires Consistent(cmp) && Sorted(t, cmp)
    ensures Sorted(InsertFront(x, t, cmp), cmp)
    decreases |t|
  {
    if |t| == 0 || cmp(x, t[0]) <= 0 {
      InsertAtHeadSorted(x, t, cmp);
    } else {
      var rest := InsertFront(x, t[1..], cmp);
      InsertFrontSorted(x, t[1..], cmp);
      forall j | 0 <= j < |rest|
        ensures cmp(t[0], rest[j]) <= 0
      {
        InsertFrontElement(x, t[1..], cmp, j);
        if rest[j] != x {
          var k :| 0 <= k < |t[1..]| && t[1..][k] == rest[j];
          assert t[k + 1] == rest[j];
        }
      }
      InsertAtHeadSorted(t[0], rest, cmp);
    }
  }

  /** The result is ordered by the comparator. */
  lemma {:induction false} SortSorted<T(!new)>(s: seq<T>, cmp: (T, T) -> int)
    requires Consistent(cmp)
    ensures Sorted(Sort(s, cmp), cmp)
    decreases |s|
  {
    if |s| != 0 {
      SortSorted(s[1..], cmp);
      InsertFrontSorted(s[0], Sort(s[1..], cmp), cmp);
    }
  }

  lemma {:induction false} InsertFrontTies<T(!new)>(x: T, t: seq<T>, cmp: (T, T) -> int, e: T)
    requires Consistent(cmp)
    ensures Filter(InsertFront(x, t, cmp), Tied(cmp, e))
         == (if Tied(cmp, e)(x) then [x] else []) + Filter(t, Tied(cmp, e))
    decreases |t|
  {
    var p := Tied(cmp, e);
    if |t| == 0 || cmp(x, t[0]) <= 0 {
      FilterCons(x, t, p);
    } else {
      var rest := InsertFront(x, t[1..], cmp);
      assert InsertFront(x, t, cmp) == [t[0]] + rest;
      assert t == [t[0]] + t[1..];
      InsertFrontTies(x, t[1..], cmp, e);
      FilterCons(t[0], rest, p);
      FilterCons(t[0], t[1..], p);
      if p(x) {
        TiesExclusive(cmp, e, x, t[0]);
        assert Filter(InsertFront(x, t, cmp), p) == Filter(rest, p);
      } else {
        assert Filter(rest, p) == Filter(t[1..], p);
      }
    }
  }

  lemma TiesExclusive<T(!new)>(cmp: (T, T) -> int, e: T, x: T, y: T)
    requires Consistent(cmp)
    requires cmp(e, x) == 0 && cmp(x, y) > 0
    ensures cmp(e, y) != 0
  {
  }

  lemma {:induction false} SortKeepsTies<T(!new)>(s: seq<T>, cmp: (T, T) -> int, e: T)
    requires Consistent(cmp)
    ensures Filter(Sort(s, cmp), Tied(cmp, e)) == Filter(s, Tied(cmp, e))
    decreases |s|
  {
    if |s| != 0 {
      SortKeepsTies(s[1..], cmp, e);
      InsertFrontTies(s[0], Sort(s[1..], cmp), cmp, e);
      assert s == [s[0]] + s[1..];
      FilterCons(s[0], s[1..], Tied(cmp, e));
    }
  }

  /** Tied elements keep their input order. */
  lemma SortStable<T(!new)>(s: seq<T>, cmp: (T, T) -> int)
    requires Consistent(cmp)
    ensures Stable(Sort(s, cmp), s, cmp)
  {
    forall e
      ensures Filter(Sort(s, cmp), Tied(cmp, e)) == Filter(s, Tied(cmp, e))
    {
      SortKeepsTies(s, cmp, e);
    }
  }

  lemma SortedTail<T>(a: seq<T>, cmp: (T, T) -> int)
    requires |a| > 0 && Sorted(a, cmp)
    ensures Sorted(a[1..], cmp)
  {
  }

  /** The head of an ordered sequence may precede every element of it. */
  lemma HeadFirst<T(!new)>(a: seq<T>, cmp: (T, T) -> int, y: T)
    requires Consistent(cmp) && Sorted(a, cmp)
    requires y in multiset(a)
    ensures cmp(a[0], y) <= 0
  {
  }

  lemma MutuallyTied<T(!new)>(cmp: (T, T) -> int, x: T, y: T)
    requires Consistent(cmp)
    requires cmp(x, y) <= 0 && cmp(y, x) <= 0
    ensures cmp(x, y) == 0
  {
  }

  /** Heads that are tied and start the same group of ties are equal. */
  lemma SameHead<T>(a: seq<T>, b: seq<T>, cmp: (T, T) -> int)
    requires |a| > 0 && |b| > 0
    requires cmp(a[0], a[0]) == 0 && cmp(a[0], b[0]) == 0
    requires Filter(a, Tied(cmp, a[0])) == Filter(b, Tied(cmp, a[0]))
    ensures a[0] == b[0]
  {
  }

  lemma TailPermutation<T>(a: seq<T>, b: seq<T>)
    requires multiset(a) == multiset(b) && |a| > 0 && |b| > 0 && a[0] == b[0]
    ensures multiset(a[1..]) == multiset(b[1..])
  {
    assert a == [a[0]] + a[1..] && b == [b[0]] + b[1..];
    assert multiset(a[1..]) == multiset(a) - multiset{a[0]};
    assert multiset(b[1..]) == multiset(b) - multiset{b[0]};
  }

  lemma {:induction false} SameTailTies<T>(a: seq<T>, b: seq<T>, cmp: (T, T) -> int, e: T)
    requires |a| > 0 && |b| > 0 && a[0] == b[0]
    requires Filter(a, Tied(cmp, e)) == Filter(b, Tied(cmp, e))
    ensures Filter(a[1..], Tied(cmp, e)) == Filter(b[1..], Tied(cmp, e))
  {
    var x := a[0];
    assert a == [x] + a[1..] && b == [x] + b[1..];
    FilterCons(x, a[1..], Tied(cmp, e));
    FilterCons(x, b[1..], Tied(cmp, e));
    var h := if Tied(cmp, e)(x) then [x] else [];
    assert Filter(a[1..], Tied(cmp, e)) == (h + Filter(a[1..], Tied(cmp, e)))[|h|..];
    assert Filter(b[1..], Tied(cmp, e)) == (h + Filter(b[1..], Tied(cmp, e)))[|h|..];
  }

  /** Two ordered, stable rearrangements of the same elements are the same sequence. */
  lemma {:induction false} StableSortUnique<T(!new)>(a: seq<T>, b: seq<T>, cmp: (T, T) -> int)
    requires Consistent(cmp)
    requires multiset(a) == multiset(b)
    requires Sorted(a, cmp) && Sorted(b, cmp)
    requires forall e :: Filter(a, Tied(cmp, e)) == Filter(b, Tied(cmp, e))
    ensures a == b
    decreases |a|
  {
    if |a| == 0 {
      assert |b| == |multiset(b)| == 0;
    } else {
      assert |b| == |multiset(b)| == |multiset(a)| == |a|;
      HeadFirst(a, cmp, b[0]);
      HeadFirst(b, cmp, a[0]);
      MutuallyTied(cmp, a[0], b[0]);
      SelfTied(cmp, a[0]);
      SameHead(a, b, cmp);
      forall e
        ensures Filter(a[1..], Tied(cmp, e)) == Filter(b[1..], Tied(cmp, e))
      {
        SameTailTies(a, b, cmp, e);
      }
      TailPermutation(a, b);
      SortedTail(a, cmp);
      SortedTail(b, cmp);
      StableSortUnique(a[1..], b[1..], cmp);
    }
  }

  /**
    `Sort` is characterised by its three properties: a rearrangement `r` of `s` is `Sort(s, cmp)`
    exactly when it is ordered and keeps ties in input order.
   */
  lemma SortIsTheStableSort<T(!new)>(s: seq<T>, r: seq<T>, cmp: (T, T) -> int)
    requires Consistent(cmp)
    requires multiset(r) == multiset(s)
    ensures r == Sort(s, cmp) <==> Sorted(r, cmp) && Stable(r, s, cmp)
  {
    SortSorted(s, cmp);
    SortStable(s, cmp);
    if Sorted(r, cmp) && Stable(r, s, cmp) {
      StableSortUnique(r, Sort(s, cmp), cmp);
    }
  }
}
