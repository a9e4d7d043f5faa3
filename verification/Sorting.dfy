/** Sorted copies of member lists. */
module Sorting {

  function Insert(x: int, s: seq<int>): seq<int> {
    if |s| == 0 || x <= s[0] then [x] + s else [s[0]] + Insert(x, s[1..])
  }

  function Sorted(s: seq<int>): seq<int> {
    if |s| == 0 then [] else Insert(s[0], Sorted(s[1..]))
  }

  ghost predicate Ordered(s: seq<int>) {
    forall i, j :: 0 <= i < j < |s| ==> s[i] <= s[j]
  }

  lemma {:induction false} InsertPermutes(x: int, s: seq<int>)
    ensures multiset(Insert(x, s)) == multiset(s) + multiset{x}
  {
    if !(|s| == 0 || x <= s[0]) {
      InsertPermutes(x, s[1..]);
      assert s == [s[0]] + s[1..];
    }
  }

  lemma {:induction false} InsertElements(x: int, s: seq<int>)
    ensures |Insert(x, s)| == |s| + 1 && forall y :: y in Insert(x, s) <==> y == x || y in s
  {
    if !(|s| == 0 || x <= s[0]) {
      InsertElements(x, s[1..]);
      assert s == [s[0]] + s[1..];
    }
  }

  lemma {:induction false} InsertOrdered(x: int, s: seq<int>)
    requires Ordered(s)
    ensures Ordered(Insert(x, s))
  {
    if !(|s| == 0 || x <= s[0]) {
      var tail := Insert(x, s[1..]);
      InsertOrdered(x, s[1..]);
      InsertElements(x, s[1..]);
      forall j | 0 <= j < |tail| ensures s[0] <= tail[j] {
        assert tail[j] in tail;
      }
    }
  }

  /** The copy is in order and has exactly the same elements. */
  lemma {:induction false} SortedCorrect(s: seq<int>)
    ensures Ordered(Sorted(s)) && multiset(Sorted(s)) == multiset(s)
  {
    if |s| > 0 {
      SortedCorrect(s[1..]);
      InsertOrdered(s[0], Sorted(s[1..]));
      InsertPermutes(s[0], Sorted(s[1..]));
      assert s == [s[0]] + s[1..];
    }
  }

  lemma {:induction false} SortedElements(s: seq<int>)
    ensures |Sorted(s)| == |s| && forall y :: y in Sorted(s) <==> y in s
  {
    if |s| > 0 {
      SortedElements(s[1..]);
      InsertElements(s[0], Sorted(s[1..]));
      assert s == [s[0]] + s[1..];
    }
  }

  ghost predicate Distinct(s: seq<int>) {
    forall i, j :: 0 <= i < j < |s| ==> s[i] != s[j]
  }

  lemma {:induction false} InsertDistinct(x: int, s: seq<int>)
    requires Distinct(s) && x !in s
    ensures Distinct(Insert(x, s))
  {
    if !(|s| == 0 || x <= s[0]) {
      var tail := Insert(x, s[1..]);
      InsertDistinct(x, s[1..]);
      InsertElements(x, s[1..]);
      forall j | 0 <= j < |tail| ensures s[0] != tail[j] {
        assert tail[j] in tail;
      }
    }
  }

  lemma {:induction false} SortedDistinct(s: seq<int>)
    requires Distinct(s)
    ensures Distinct(Sorted(s))
  {
    if |s| > 0 {
      SortedDistinct(s[1..]);
      SortedElements(s[1..]);
      InsertDistinct(s[0], Sorted(s[1..]));
    }
  }
}
