/** `sort.Slice` and `sort.Strings`: insertion by a comparator, and what any sorted arrangement has in common. */
module Sorting {
  /** On these items the comparator never contradicts itself, and not being before is transitive. */
  ghost predicate StrictWeakOrder<T(!new)>(less: (T, T) -> bool, items: multiset<T>) {
    && (forall a, b :: a in items && b in items && less(a, b) ==> !less(b, a))
    && (forall a, b, c :: a in items && b in items && c in items && !less(b, a) && !less(c, b) ==> !less(c, a))
  }

  /** No two different items tie. */
  ghost predicate Separates<T(!new)>(less: (T, T) -> bool, items: multiset<T>) {
    forall a, b :: a in items && b in items && a != b ==> less(a, b) || less(b, a)
  }

  ghost predicate Sorted<T(!new)>(less: (T, T) -> bool, s: seq<T>) {
    forall i, j :: 0 <= i < j < |s| ==> !less(s[j], s[i])
  }

  /** The new last item moves left past every item it is before. */
  function Insert<T>(less: (T, T) -> bool, x: T, s: seq<T>): seq<T> {
    if s == [] || !less(x, s[|s| - 1]) then s + [x]
    else Insert(less, x, s[..|s| - 1]) + [s[|s| - 1]]
  }

  function Sort<T>(less: (T, T) -> bool, s: seq<T>): seq<T> {
    if s == [] then [] else Insert(less, s[|s| - 1], Sort(less, s[..|s| - 1]))
  }

  lemma SplitLast<T>(s: seq<T>)
    requires s != []
    ensures s == s[..|s| - 1] + [s[|s| - 1]]
    ensures multiset(s) == multiset(s[..|s| - 1]) + multiset{s[|s| - 1]}
  {
    assert s == s[..|s| - 1] + [s[|s| - 1]];
  }

  lemma {:induction false} InsertKeeps<T>(less: (T, T) -> bool, x: T, s: seq<T>)
    ensures multiset(Insert(less, x, s)) == multiset(s) + multiset{x}
  {
    if s != [] && less(x, s[|s| - 1]) {
      InsertKeeps(less, x, s[..|s| - 1]);
      SplitLast(s);
    }
  }

  lemma {:induction false} SortKeeps<T>(less: (T, T) -> bool, s: seq<T>)
    ensures multiset(Sort(less, s)) == multiset(s)
  {
    if s != [] {
      SortKeeps(less, s[..|s| - 1]);
      InsertKeeps(less, s[|s| - 1], Sort(less, s[..|s| - 1]));
      SplitLast(s);
    }
  }

  lemma Shrink<T(!new)>(less: (T, T) -> bool, items: multiset<T>, fewer: multiset<T>)
    requires StrictWeakOrder(less, items) && forall x :: x in fewer ==> x in items
    ensures StrictWeakOrder(less, fewer)
  {
  }

  lemma AppendSorted<T(!new)>(less: (T, T) -> bool, s: seq<T>, x: T)
    requires Sorted(less, s) && forall y :: y in s ==> !less(x, y)
    ensures Sorted(less, s + [x])
  {
  }

  lemma {:induction false} InsertSorts<T(!new)>(less: (T, T) -> bool, x: T, s: seq<T>)
    requires StrictWeakOrder(less, multiset(s) + multiset{x}) && Sorted(less, s)
    ensures Sorted(less, Insert(less, x, s))
  {
    if s == [] {
    } else if less(x, s[|s| - 1]) {
      var front, last := s[..|s| - 1], s[|s| - 1];
      SplitLast(s);
      Shrink(less, multiset(s) + multiset{x}, multiset(front) + multiset{x});
      InsertSorts(less, x, front);
      InsertKeeps(less, x, front);
      forall y | y in Insert(less, x, front) ensures !less(last, y) {
        assert y in multiset(Insert(less, x, front));
        assert y in front || y == x;
        assert less(x, last) && x in multiset(s) + multiset{x} && last in multiset(s) + multiset{x};
      }
      AppendSorted(less, Insert(less, x, front), last);
    } else {
      LastIsHighest(less, x, s);
      AppendSorted(less, s, x);
    }
  }

  lemma LastIsHighest<T(!new)>(less: (T, T) -> bool, x: T, s: seq<T>)
    requires StrictWeakOrder(less, multiset(s) + multiset{x}) && Sorted(less, s)
    requires s != [] && !less(x, s[|s| - 1])
    ensures forall y :: y in s ==> !less(x, y)
  {
    var last := s[|s| - 1];
    var items := multiset(s) + multiset{x};
    forall y | y in s ensures !less(x, y) {
      var i :| 0 <= i < |s| && s[i] == y;
      assert i < |s| - 1 ==> !less(last, y);
      assert y in items && last in items && x in items;
    }
  }

  /** Sorting sorts, whenever the comparator is a strict weak order on the items. */
  lemma {:induction false} SortSorts<T(!new)>(less: (T, T) -> bool, s: seq<T>)
    requires StrictWeakOrder(less, multiset(s))
    ensures Sorted(less, Sort(less, s)) && multiset(Sort(less, s)) == multiset(s)
  {
    SortKeeps(less, s);
    if s != [] {
      var front := s[..|s| - 1];
      SplitLast(s);
      Shrink(less, multiset(s), multiset(front));
      SortSorts(less, front);
      InsertSorts(less, s[|s| - 1], Sort(less, front));
    }
  }

  /** Without ties there is one sorted arrangement. */
  lemma {:induction false} SortedUnique<T(!new)>(less: (T, T) -> bool, s: seq<T>, t: seq<T>)
    requires multiset(s) == multiset(t) && Separates(less, multiset(s))
    requires Sorted(less, s) && Sorted(less, t)
    ensures s == t
    decreases |s|
  {
    SameLength(s, t);
    if s != [] {
      LastsAgree(less, s, t);
      FrontsAgree(s, t);
      FrontSeparates(less, s);
      SortedUnique(less, s[..|s| - 1], t[..|t| - 1]);
      SplitLast(s);
      SplitLast(t);
    }
  }

  lemma SameLength<T>(s: seq<T>, t: seq<T>)
    requires multiset(s) == multiset(t)
    ensures |s| == |t|
  {
    assert |multiset(s)| == |s| && |multiset(t)| == |t|;
  }

  lemma FrontSeparates<T(!new)>(less: (T, T) -> bool, s: seq<T>)
    requires s != [] && Separates(less, multiset(s))
    ensures Separates(less, multiset(s[..|s| - 1]))
  {
    SplitLast(s);
  }

  lemma FrontsAgree<T>(s: seq<T>, t: seq<T>)
    requires |s| == |t| > 0 && multiset(s) == multiset(t) && s[|s| - 1] == t[|t| - 1]
    ensures multiset(s[..|s| - 1]) == multiset(t[..|t| - 1])
  {
    SplitLast(s);
    SplitLast(t);
    var last := multiset{s[|s| - 1]};
    assert multiset(s[..|s| - 1]) == multiset(s) - last;
    assert multiset(t[..|t| - 1]) == multiset(t) - last;
  }

  lemma LastsAgree<T(!new)>(less: (T, T) -> bool, s: seq<T>, t: seq<T>)
    requires |s| == |t| > 0
    requires multiset(s) == multiset(t) && Separates(less, multiset(s))
    requires Sorted(less, s) && Sorted(less, t)
    ensures s[|s| - 1] == t[|t| - 1]
  {
    var a, b := s[|s| - 1], t[|t| - 1];
    assert a in multiset(t) && b in multiset(s);
    var i :| 0 <= i < |t| && t[i] == a;
    var j :| 0 <= j < |s| && s[j] == b;
    assert i < |t| - 1 ==> !less(b, a);
    assert j < |s| - 1 ==> !less(a, b);
    assert a in multiset(s);
  }

  // ----- who comes first, for any comparator -----

  lemma {:induction false} InsertFirst<T>(less: (T, T) -> bool, x: T, s: seq<T>)
    requires s != []
    ensures Insert(less, x, s) != [] && Insert(less, x, s)[0] in {x, s[0]}
    ensures !less(x, s[0]) ==> Insert(less, x, s)[0] == s[0]
  {
    if |s| > 1 && less(x, s[|s| - 1]) {
      InsertFirst(less, x, s[..|s| - 1]);
    }
  }

  lemma {:induction false} InsertToFront<T>(less: (T, T) -> bool, x: T, s: seq<T>)
    requires forall y :: y in s ==> less(x, y)
    ensures Insert(less, x, s) == [x] + s
  {
    if s != [] {
      InsertToFront(less, x, s[..|s| - 1]);
      SplitLast(s);
    }
  }

  ghost predicate AllDifferent<T>(s: seq<T>) {
    forall i, j :: 0 <= i < j < |s| ==> s[i] != s[j]
  }

  /** One item is before every other one. */
  ghost predicate BeatsAll<T(!new)>(less: (T, T) -> bool, s: seq<T>, w: T) {
    w in s && forall d :: d in s && d != w ==> less(w, d) && !less(d, w)
  }

  /** Then it is sorted to the front, whatever the comparator does with the others. */
  lemma {:induction false} BestIsFirst<T(!new)>(less: (T, T) -> bool, s: seq<T>, w: T)
    requires AllDifferent(s) && BeatsAll(less, s, w)
    ensures Sort(less, s) != [] && Sort(less, s)[0] == w
  {
    var front, last := s[..|s| - 1], s[|s| - 1];
    SplitLast(s);
    SortKeeps(less, front);
    if last == w {
      forall y | y in Sort(less, front) ensures less(w, y) {
        assert y in multiset(Sort(less, front));
        assert y in front;
      }
      InsertToFront(less, w, Sort(less, front));
    } else {
      assert w in front;
      BestIsFirst(less, front, w);
      InsertFirst(less, last, Sort(less, front));
    }
  }

  /** An item that arrives right behind the first one and is not before it never gets to the front. */
  lemma {:induction false} SecondStaysBehind<T>(less: (T, T) -> bool, d: T, w: T, rest: seq<T>)
    requires d != w && w !in rest && !less(w, d)
    ensures Sort(less, [d, w] + rest) != [] && Sort(less, [d, w] + rest)[0] != w
    decreases |rest|
  {
    var s := [d, w] + rest;
    if rest == [] {
      assert s[..1] == [d] && [d][..0] == [];
      assert Sort(less, [d]) == [d];
    } else {
      var front := rest[..|rest| - 1];
      assert s[..|s| - 1] == [d, w] + front;
      SecondStaysBehind(less, d, w, front);
      InsertFirst(less, rest[|rest| - 1], Sort(less, [d, w] + front));
    }
  }
}
