/**
 Sorting by a numeric key, and properties of pairs that do not depend on the order.
 */
module Sorting {
  ghost predicate SortedBy<T(!new)>(s: seq<T>, key: T -> int) {
    forall i, j :: 0 <= i < j < |s| ==> key(s[i]) <= key(s[j])
  }

  /** Places x after the elements with a smaller key. */
  function Insert<T>(s: seq<T>, x: T, key: T -> int): (r: seq<T>)
    ensures |r| == |s| + 1
  {
    if s == [] || key(x) <= key(s[0]) then [x] + s else [s[0]] + Insert(s[1..], x, key)
  }

  /** A sorted permutation; equal keys keep their order. */
  function Sort<T>(s: seq<T>, key: T -> int): (r: seq<T>)
    ensures |r| == |s|
  {
    if s == [] then [] else Insert(Sort(s[1..], key), s[0], key)
  }

  lemma {:induction false} InsertMembers<T>(s: seq<T>, x: T, key: T -> int, y: T)
    ensures y in Insert(s, x, key) <==> y == x || y in s
  {
    if s != [] && key(x) > key(s[0]) {
      InsertMembers(s[1..], x, key, y);
      assert s == [s[0]] + s[1..];
    }
  }

  lemma {:induction false} SortMembers<T>(s: seq<T>, key: T -> int, y: T)
    ensures y in Sort(s, key) <==> y in s
  {
    if s != [] {
      SortMembers(s[1..], key, y);
      InsertMembers(Sort(s[1..], key), s[0], key, y);
      assert s == [s[0]] + s[1..];
    }
  }

  lemma {:induction false} InsertPermutes<T>(s: seq<T>, x: T, key: T -> int)
    ensures multiset(Insert(s, x, key)) == multiset(s) + multiset{x}
  {
    if s != [] && key(x) > key(s[0]) {
      InsertPermutes(s[1..], x, key);
      assert s == [s[0]] + s[1..];
    }
  }

  lemma {:induction false} SortPermutes<T>(s: seq<T>, key: T -> int)
    ensures multiset(Sort(s, key)) == multiset(s)
  {
    if s != [] {
      SortPermutes(s[1..], key);
      InsertPermutes(Sort(s[1..], key), s[0], key);
      assert s == [s[0]] + s[1..];
    }
  }

  lemma {:induction false} InsertSorted<T(!new)>(s: seq<T>, x: T, key: T -> int)
    requires SortedBy(s, key)
    ensures SortedBy(Insert(s, x, key), key)
  {
    if s != [] && key(x) > key(s[0]) {
      var rest := Insert(s[1..], x, key);
      InsertSorted(s[1..], x, key);
      forall i | 0 <= i < |rest| ensures key(s[0]) <= key(rest[i]) {
        InsertMembers(s[1..], x, key, rest[i]);
      }
    }
  }

  lemma {:induction false} SortSorted<T(!new)>(s: seq<T>, key: T -> int)
    ensures SortedBy(Sort(s, key), key)
  {
    if s != [] {
      SortSorted(s[1..], key);
      InsertSorted(Sort(s[1..], key), s[0], key);
    }
  }

  //////////////////////////////////////////////////////////////////////////////
  // Pairs
  //////////////////////////////////////////////////////////////////////////////

  ghost predicate All<T(!new)>(s: seq<T>, x: T, p: (T, T) -> bool) {
    forall i :: 0 <= i < |s| ==> p(x, s[i])
  }

  /** p holds of every two elements at different places. */
  ghost predicate Pairwise<T(!new)>(s: seq<T>, p: (T, T) -> bool) {
    forall i, j :: 0 <= i < j < |s| ==> p(s[i], s[j])
  }

  ghost predicate Symmetric<T(!new)>(p: (T, T) -> bool) {
    forall x, y :: p(x, y) ==> p(y, x)
  }

  lemma PairwiseCons<T(!new)>(x: T, s: seq<T>, p: (T, T) -> bool)
    ensures Pairwise([x] + s, p) <==> All(s, x, p) && Pairwise(s, p)
  {
    var t := [x] + s;
    if Pairwise(t, p) {
      forall i | 0 <= i < |s| ensures p(x, s[i]) {
        assert p(t[0], t[i + 1]);
      }
      forall i, j | 0 <= i < j < |s| ensures p(s[i], s[j]) {
        assert p(t[i + 1], t[j + 1]);
      }
    }
  }

  lemma {:induction false} InsertAll<T(!new)>(s: seq<T>, x: T, key: T -> int, y: T, p: (T, T) -> bool)
    ensures All(Insert(s, x, key), y, p) <==> p(y, x) && All(s, y, p)
  {
    if s != [] && key(x) > key(s[0]) {
      InsertAll(s[1..], x, key, y, p);
      AllCons(s[0], s[1..], y, p);
      AllCons(s[0], Insert(s[1..], x, key), y, p);
      assert s == [s[0]] + s[1..];
    } else {
      AllCons(x, s, y, p);
    }
  }

  lemma AllCons<T(!new)>(x: T, s: seq<T>, y: T, p: (T, T) -> bool)
    ensures All([x] + s, y, p) <==> p(y, x) && All(s, y, p)
  {
    var t := [x] + s;
    if All(t, y, p) {
      assert p(y, t[0]);
      forall i | 0 <= i < |s| ensures p(y, s[i]) {
        assert p(y, t[i + 1]);
      }
    }
  }

  lemma {:induction false} InsertPairwise<T(!new)>(s: seq<T>, x: T, key: T -> int, p: (T, T) -> bool)
    requires Symmetric(p)
    ensures Pairwise(Insert(s, x, key), p) <==> All(s, x, p) && Pairwise(s, p)
  {
    if s != [] && key(x) > key(s[0]) {
      InsertPairwise(s[1..], x, key, p);
      PairwiseCons(s[0], Insert(s[1..], x, key), p);
      InsertAll(s[1..], x, key, s[0], p);
      PairwiseCons(s[0], s[1..], p);
      AllCons(s[0], s[1..], x, p);
      assert s == [s[0]] + s[1..];
    } else {
      PairwiseCons(x, s, p);
    }
  }

  /** Sorting does not change which pairs there are. */
  lemma {:induction false} SortPairwise<T(!new)>(s: seq<T>, key: T -> int, p: (T, T) -> bool)
    requires Symmetric(p)
    ensures Pairwise(Sort(s, key), p) <==> Pairwise(s, p)
  {
    if s != [] {
      SortPairwise(s[1..], key, p);
      InsertPairwise(Sort(s[1..], key), s[0], key, p);
      PairwiseCons(s[0], s[1..], p);
      assert s == [s[0]] + s[1..];
      forall y: T ensures y in Sort(s[1..], key) <==> y in s[1..] {
        SortMembers(s[1..], key, y);
      }
      AllSame(Sort(s[1..], key), s[1..], s[0], p);
    }
  }

  lemma AllSame<T(!new)>(s: seq<T>, t: seq<T>, x: T, p: (T, T) -> bool)
    requires forall y :: y in s <==> y in t
    ensures All(s, x, p) <==> All(t, x, p)
  {
    if All(s, x, p) {
      forall i | 0 <= i < |t| ensures p(x, t[i]) {
        assert t[i] in s;
      }
    }
    if All(t, x, p) {
      forall i | 0 <= i < |s| ensures p(x, s[i]) {
        assert s[i] in t;
      }
    }
  }

  //////////////////////////////////////////////////////////////////////////////
  // Two keys
  //////////////////////////////////////////////////////////////////////////////

  /** In order of the first key, and of the second where the first is the same. */
  ghost predicate LexSorted<T(!new)>(s: seq<T>, first: T -> int, second: T -> int) {
    forall i, j :: 0 <= i < j < |s| ==> first(s[i]) < first(s[j]) || (first(s[i]) == first(s[j]) && second(s[i]) < second(s[j]))
  }

  lemma {:induction false} InsertLex<T(!new)>(s: seq<T>, x: T, first: T -> int, second: T -> int)
    requires LexSorted(s, first, second)
    requires forall i :: 0 <= i < |s| ==> second(x) < second(s[i])
    ensures LexSorted(Insert(s, x, first), first, second)
  {
    if s != [] && first(x) > first(s[0]) {
      var rest := Insert(s[1..], x, first);
      InsertLex(s[1..], x, first, second);
      forall i | 0 <= i < |rest| ensures first(s[0]) < first(rest[i]) || (first(s[0]) == first(rest[i]) && second(s[0]) < second(rest[i])) {
        InsertMembers(s[1..], x, first, rest[i]);
        if rest[i] != x {
          var j :| 0 <= j < |s[1..]| && s[1..][j] == rest[i];
          assert s[j + 1] == rest[i];
        }
      }
    }
  }

  /** Sorting by the first key what is in order of the second sorts by both. */
  lemma {:induction false} SortLex<T(!new)>(s: seq<T>, first: T -> int, second: T -> int)
    requires forall i, j :: 0 <= i < j < |s| ==> second(s[i]) < second(s[j])
    ensures LexSorted(Sort(s, first), first, second)
  {
    if s != [] {
      SortLex(s[1..], first, second);
      var t := Sort(s[1..], first);
      forall i | 0 <= i < |t| ensures second(s[0]) < second(t[i]) {
        SortMembers(s[1..], first, t[i]);
        var j :| 0 <= j < |s[1..]| && s[1..][j] == t[i];
        assert s[j + 1] == t[i];
      }
      InsertLex(t, s[0], first, second);
    }
  }

  //////////////////////////////////////////////////////////////////////////////
  // Sums
  //////////////////////////////////////////////////////////////////////////////

  function Sum<T>(s: seq<T>, f: T -> int): int {
    if s == [] then 0 else f(s[0]) + Sum(s[1..], f)
  }

  lemma {:induction false} SumJoin<T>(a: seq<T>, b: seq<T>, f: T -> int)
    ensures Sum(a + b, f) == Sum(a, f) + Sum(b, f)
  {
    if a == [] {
      assert a + b == b;
    } else {
      SumJoin(a[1..], b, f);
      assert (a + b)[1..] == a[1..] + b;
    }
  }

  lemma {:induction false} SumInsert<T>(s: seq<T>, x: T, key: T -> int, f: T -> int)
    ensures Sum(Insert(s, x, key), f) == f(x) + Sum(s, f)
  {
    if s != [] && key(x) > key(s[0]) {
      SumInsert(s[1..], x, key, f);
    } else {
      assert ([x] + s)[1..] == s;
    }
  }

  /** Sorting changes no sum over the elements. */
  lemma {:induction false} SumSort<T>(s: seq<T>, key: T -> int, f: T -> int)
    ensures Sum(Sort(s, key), f) == Sum(s, f)
  {
    if s != [] {
      SumSort(s[1..], key, f);
      SumInsert(Sort(s[1..], key), s[0], key, f);
    }
  }
}
