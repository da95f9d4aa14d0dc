/** Python's `sorted(xs, key=...)` / `list.sort(key=...)` (a stable sort)
    and `min(xs, key=...)` (the first minimal element), over an arbitrary
    comparison `le` that is a total preorder: keys may tie, and ties are
    exactly the pairs with `le(a, b) && le(b, a)`. */
module Sorting {

  ghost predicate Total<T(!new)>(le: (T, T) -> bool) {
    forall a, b :: le(a, b) || le(b, a)
  }

  ghost predicate Transitive<T(!new)>(le: (T, T) -> bool) {
    forall a, b, c :: le(a, b) && le(b, c) ==> le(a, c)
  }

  ghost predicate TotalPreorder<T(!new)>(le: (T, T) -> bool) {
    Total(le) && Transitive(le)
  }

  ghost predicate SortedBy<T(!new)>(s: seq<T>, le: (T, T) -> bool) {
    forall i, j :: 0 <= i < j < |s| ==> le(s[i], s[j])
  }

  /** The elements of `s` that tie with `x`, in their order in `s`. A sort
      is stable exactly when it keeps every such subsequence unchanged. */
  function Ties<T(!new)>(s: seq<T>, x: T, le: (T, T) -> bool): seq<T> {
    if |s| == 0 then []
    else (if le(s[0], x) && le(x, s[0]) then [s[0]] else []) + Ties(s[1..], x, le)
  }

  /** Insert `x` in front of the first element it does not exceed, i.e.
      after every element strictly below it. */
  function Insert<T(!new)>(x: T, s: seq<T>, le: (T, T) -> bool): (r: seq<T>)
    ensures |r| == |s| + 1
  {
    if |s| == 0 || le(x, s[0]) then [x] + s
    else [s[0]] + Insert(x, s[1..], le)
  }

  /** Inserting into a sorted list keeps it sorted and adds exactly `x`. */
  lemma {:induction false} InsertCorrect<T(!new)>(x: T, s: seq<T>, le: (T, T) -> bool)
    requires TotalPreorder(le)
    requires SortedBy(s, le)
    ensures SortedBy(Insert(x, s, le), le)
    ensures multiset(Insert(x, s, le)) == multiset(s) + multiset{x}
  {
    if |s| == 0 || le(x, s[0]) {
      ConsSorted(x, s, le);
    } else {
      var t := Insert(x, s[1..], le);
      assert SortedBy(s[1..], le) by {
        assert forall i :: 0 <= i < |s[1..]| ==> s[1..][i] == s[i + 1];
      }
      InsertCorrect(x, s[1..], le);
      assert s == [s[0]] + s[1..];
      HeadBelowInserted(s, x, t, le);
      ConsSorted(s[0], t, le);
    }
  }

  /** Stable insertion sort: the head is inserted in front of every element
      of the sorted tail it ties with. */
  function SortBy<T(!new)>(s: seq<T>, le: (T, T) -> bool): (r: seq<T>)
    ensures |r| == |s|
  {
    if |s| == 0 then [] else Insert(s[0], SortBy(s[1..], le), le)
  }

  /** `SortBy` yields a sorted permutation of its input. */
  lemma {:induction false} SortByCorrect<T(!new)>(s: seq<T>, le: (T, T) -> bool)
    requires TotalPreorder(le)
    ensures SortedBy(SortBy(s, le), le)
    ensures multiset(SortBy(s, le)) == multiset(s)
  {
    if |s| > 0 {
      SortByCorrect(s[1..], le);
      InsertCorrect(s[0], SortBy(s[1..], le), le);
      assert s == [s[0]] + s[1..];
    }
  }

  /** Putting an element no greater than any of a sorted list in front
      keeps it sorted. */
  lemma ConsSorted<T(!new)>(h: T, t: seq<T>, le: (T, T) -> bool)
    requires Transitive(le)
    requires SortedBy(t, le)
    requires |t| == 0 || le(h, t[0])
    ensures SortedBy([h] + t, le)
  {
    var r := [h] + t;
    forall i, j | 0 <= i < j < |r|
      ensures le(r[i], r[j])
    {
      if i == 0 && j > 1 {
        assert le(h, t[0]) && le(t[0], t[j - 1]);
      }
    }
  }

  /** The head of a sorted list lies below everything inserting `x` into its
      tail produces, when `x` itself is not below the head. */
  lemma HeadBelowInserted<T(!new)>(s: seq<T>, x: T, t: seq<T>, le: (T, T) -> bool)
    requires TotalPreorder(le)
    requires SortedBy(s, le) && |s| > 0 && !le(x, s[0])
    requires multiset(t) == multiset(s[1..]) + multiset{x}
    ensures |t| == 0 || le(s[0], t[0])
  {
    if |t| > 0 {
      assert t[0] in multiset(t);
      if t[0] != x {
        assert t[0] in multiset(s[1..]);
        var m :| 0 <= m < |s[1..]| && s[1..][m] == t[0];
        assert s[1 + m] == t[0];
      }
    }
  }

  lemma {:induction false} TiesAppend<T(!new)>(a: seq<T>, b: seq<T>, x: T, le: (T, T) -> bool)
    ensures Ties(a + b, x, le) == Ties(a, x, le) + Ties(b, x, le)
  {
    if |a| == 0 {
      assert a + b == b;
    } else {
      assert (a + b)[1..] == a[1..] + b;
      TiesAppend(a[1..], b, x, le);
    }
  }

  lemma {:induction false} InsertKeepsTies<T(!new)>(e: T, s: seq<T>, x: T, le: (T, T) -> bool)
    requires TotalPreorder(le)
    requires SortedBy(s, le)
    ensures Ties(Insert(e, s, le), x, le) == Ties([e] + s, x, le)
  {
    if |s| == 0 || le(e, s[0]) {
    } else {
      var t := Insert(e, s[1..], le);
      assert Insert(e, s, le) == [s[0]] + t;
      InsertKeepsTies(e, s[1..], x, le);
      TiesAppend([s[0]], t, x, le);
      TiesAppend([e], s[1..], x, le);
      TiesAppend([s[0]], s[1..], x, le);
      assert [s[0]] + s[1..] == s;
      TiesAppend([e], s, x, le);
      // e and s[0] cannot both tie with x, since s[0] is strictly below e
      var te := Ties([e], x, le);
      var t0 := Ties([s[0]], x, le);
      assert te == [] || t0 == [] by {
        if le(e, x) && le(x, e) {
          assert !(le(x, s[0]));
        }
      }
      assert t0 + te == te + t0;
    }
  }

  /** `SortBy` is stable: the elements tying with any `x` keep their
      relative order. */
  lemma {:induction false} SortByStable<T(!new)>(s: seq<T>, x: T, le: (T, T) -> bool)
    requires TotalPreorder(le)
    ensures Ties(SortBy(s, le), x, le) == Ties(s, x, le)
  {
    if |s| > 0 {
      SortByStable(s[1..], x, le);
      SortByStableStep(s, x, le);
    }
  }

  lemma SortByStableStep<T(!new)>(s: seq<T>, x: T, le: (T, T) -> bool)
    requires TotalPreorder(le)
    requires |s| > 0 && Ties(SortBy(s[1..], le), x, le) == Ties(s[1..], x, le)
    ensures Ties(SortBy(s, le), x, le) == Ties(s, x, le)
  {
    var t := SortBy(s[1..], le);
    var h := Ties([s[0]], x, le);
    assert Ties(SortBy(s, le), x, le) == Ties([s[0]] + t, x, le) by {
      SortByCorrect(s[1..], le);
      InsertKeepsTies(s[0], t, x, le);
    }
    assert Ties([s[0]] + t, x, le) == h + Ties(s[1..], x, le) by {
      TiesAppend([s[0]], t, x, le);
    }
    assert h + Ties(s[1..], x, le) == Ties(s, x, le) by {
      TiesAppend([s[0]], s[1..], x, le);
      assert [s[0]] + s[1..] == s;
    }
  }

  lemma SortedHeadIsLeast<T(!new)>(s: seq<T>, y: T, le: (T, T) -> bool)
    requires Total(le)
    requires SortedBy(s, le)
    requires y in s
    ensures le(s[0], y)
  {
    var i :| 0 <= i < |s| && s[i] == y;
    if i == 0 {
      assert le(y, y) || le(y, y);
    } else {
      assert le(s[0], s[i]);
    }
  }

  /** A sorted permutation is unique when no two distinct elements tie, so
      a result computed from the sorted list does not depend on input order. */
  lemma {:induction false} SortedUnique<T(!new)>(a: seq<T>, b: seq<T>, le: (T, T) -> bool)
    requires Total(le)
    requires forall i, j :: 0 <= i < |a| && 0 <= j < |a| && le(a[i], a[j]) && le(a[j], a[i]) ==> a[i] == a[j]
    requires SortedBy(a, le) && SortedBy(b, le)
    requires multiset(a) == multiset(b)
    ensures a == b
  {
    assert |a| == |multiset(a)| == |multiset(b)| == |b|;
    if |a| > 0 {
      SortedSameHead(a, b, le);
      SortedTail(a, le);
      SortedTail(b, le);
      SortedUnique(a[1..], b[1..], le);
      assert a == [a[0]] + a[1..];
      assert b == [b[0]] + b[1..];
    }
  }

  /** Two sorted permutations without distinct ties start alike, and their
      tails are again permutations of each other. */
  lemma SortedSameHead<T(!new)>(a: seq<T>, b: seq<T>, le: (T, T) -> bool)
    requires Total(le)
    requires forall i, j :: 0 <= i < |a| && 0 <= j < |a| && le(a[i], a[j]) && le(a[j], a[i]) ==> a[i] == a[j]
    requires SortedBy(a, le) && SortedBy(b, le)
    requires multiset(a) == multiset(b) && |a| > 0
    ensures |b| > 0 && a[0] == b[0]
    ensures multiset(a[1..]) == multiset(b[1..])
  {
    assert |a| == |multiset(a)| == |multiset(b)| == |b|;
    assert a[0] in multiset(b) && b[0] in multiset(a);
    SortedHeadIsLeast(b, a[0], le);
    SortedHeadIsLeast(a, b[0], le);
    var j :| 0 <= j < |a| && a[j] == b[0];
    assert a[0] == a[j];
    assert a == [a[0]] + a[1..];
    assert b == [b[0]] + b[1..];
    assert multiset(a[1..]) == multiset(a) - multiset{a[0]};
    assert multiset(b[1..]) == multiset(b) - multiset{b[0]};
  }

  /** The tail of a sorted list without distinct ties is one too. */
  lemma SortedTail<T(!new)>(a: seq<T>, le: (T, T) -> bool)
    requires SortedBy(a, le) && |a| > 0
    ensures SortedBy(a[1..], le)
    ensures (forall i, j :: 0 <= i < |a| && 0 <= j < |a| && le(a[i], a[j]) && le(a[j], a[i]) ==> a[i] == a[j]) ==>
      forall i, j :: 0 <= i < |a[1..]| && 0 <= j < |a[1..]| && le(a[1..][i], a[1..][j]) && le(a[1..][j], a[1..][i]) ==> a[1..][i] == a[1..][j]
  {
    assert forall i :: 0 <= i < |a[1..]| ==> a[1..][i] == a[i + 1];
  }

  /** Sorting any permutation of a sorted list without distinct ties gives
      that list back. */
  lemma SortByUnique<T(!new)>(e: seq<T>, s: seq<T>, le: (T, T) -> bool)
    requires TotalPreorder(le)
    requires forall i, j :: 0 <= i < |e| && 0 <= j < |e| && le(e[i], e[j]) && le(e[j], e[i]) ==> e[i] == e[j]
    requires SortedBy(e, le)
    requires multiset(e) == multiset(s)
    ensures SortBy(s, le) == e
  {
    SortByCorrect(s, le);
    SortedUnique(e, SortBy(s, le), le);
  }

  /** `min(s, key=...)`: the index of the first element no other element is
      strictly below. */
  function FirstMin<T(!new)>(s: seq<T>, le: (T, T) -> bool): (k: nat)
    requires TotalPreorder(le)
    requires |s| > 0
    ensures k < |s|
    ensures forall j :: 0 <= j < |s| ==> le(s[k], s[j])
    ensures forall j :: 0 <= j < k ==> !le(s[j], s[k])
  {
    if |s| == 1 then 0
    else
      var k := FirstMin(s[..|s| - 1], le);
      if le(s[k], s[|s| - 1]) then k else |s| - 1
  }
}
