/**
 Half-open spans of addresses: disjointness by sorting, the merged union, and lookup by binary search.
 */
module Spans {
  import opened Sorting

  datatype Span = Span(start: nat, end: nat)

  predicate Nonempty(s: Span) {
    s.start < s.end
  }

  predicate Holds(s: Span, x: int) {
    s.start <= x < s.end
  }

  predicate Meet(a: Span, b: Span) {
    a.start < b.end && b.start < a.end
  }

  predicate Apart(a: Span, b: Span) {
    a.end <= b.start || b.end <= a.start
  }

  function Start(s: Span): int {
    s.start
  }

  function End(s: Span): int {
    s.end
  }

  ghost predicate AllNonempty(s: seq<Span>) {
    forall i :: 0 <= i < |s| ==> Nonempty(s[i])
  }

  //////////////////////////////////////////////////////////////////////////////
  // Disjointness
  //////////////////////////////////////////////////////////////////////////////

  /** Every span ends before the next one starts. */
  predicate Chained(s: seq<Span>) {
    forall i :: 0 <= i < |s| - 1 ==> s[i].end <= s[i + 1].start
  }

  lemma {:induction false} ChainedOrder(s: seq<Span>, i: nat, j: nat)
    requires AllNonempty(s) && Chained(s) && i < j < |s|
    ensures s[i].end <= s[j].start
    decreases j
  {
    if i < j - 1 {
      ChainedOrder(s, i, j - 1);
      assert Nonempty(s[j - 1]) && s[j - 1].end <= s[j - 1 + 1].start;
    }
  }

  lemma ChainedIsPairwise(s: seq<Span>)
    requires AllNonempty(s) && SortedBy(s, Start)
    ensures Chained(s) <==> Pairwise(s, Apart)
  {
    if Chained(s) {
      forall i, j | 0 <= i < j < |s| ensures Apart(s[i], s[j]) {
        ChainedOrder(s, i, j);
      }
    }
    if Pairwise(s, Apart) {
      forall i | 0 <= i < |s| - 1 ensures s[i].end <= s[i + 1].start {
        assert Apart(s[i], s[i + 1]) && Nonempty(s[i + 1]) && Start(s[i]) <= Start(s[i + 1]);
      }
    }
  }

  /** Comparing neighbours after sorting decides whether all spans are apart. */
  lemma NeighboursDecide(s: seq<Span>)
    requires AllNonempty(s)
    ensures AllNonempty(Sort(s, Start)) && SortedBy(Sort(s, Start), Start)
    ensures Chained(Sort(s, Start)) <==> Pairwise(s, Apart)
  {
    var t := Sort(s, Start);
    SortSorted(s, Start);
    SortPairwise(s, Start, Apart);
    forall i | 0 <= i < |t| ensures Nonempty(t[i]) {
      SortMembers(s, Start, t[i]);
    }
    hide Chained, Pairwise;
    ChainedIsPairwise(t);
  }

  //////////////////////////////////////////////////////////////////////////////
  // Lookup
  //////////////////////////////////////////////////////////////////////////////

  /** `partition_point(|s| s.start <= bound)` over [lo, hi), by halving. */
  function PartitionPoint(s: seq<Span>, bound: int, lo: nat, hi: nat): (r: nat)
    requires lo <= hi <= |s|
    ensures lo <= r <= hi
    decreases hi - lo
  {
    if lo == hi then lo
    else
      var mid := (lo + hi) / 2;
      if s[mid].start <= bound then PartitionPoint(s, bound, mid + 1, hi) else PartitionPoint(s, bound, lo, mid)
  }

  lemma {:induction false} PartitionPointSplits(s: seq<Span>, bound: int, lo: nat, hi: nat)
    requires SortedBy(s, Start) && lo <= hi <= |s|
    ensures forall i :: lo <= i < PartitionPoint(s, bound, lo, hi) ==> s[i].start <= bound
    ensures forall i :: PartitionPoint(s, bound, lo, hi) <= i < hi ==> s[i].start > bound
    decreases hi - lo
  {
    if lo < hi {
      var mid := (lo + hi) / 2;
      forall i | lo <= i <= mid ensures s[i].start <= s[mid].start {
        assert i < mid ==> Start(s[i]) <= Start(s[mid]);
      }
      forall i | mid <= i < hi ensures s[mid].start <= s[i].start {
        assert mid < i ==> Start(s[mid]) <= Start(s[i]);
      }
      if s[mid].start <= bound {
        PartitionPointSplits(s, bound, mid + 1, hi);
      } else {
        PartitionPointSplits(s, bound, lo, mid);
      }
    }
  }

  //////////////////////////////////////////////////////////////////////////////
  // Union
  //////////////////////////////////////////////////////////////////////////////

  ghost predicate Covered(s: seq<Span>, x: int) {
    exists i :: 0 <= i < |s| && Holds(s[i], x)
  }

  /** Sorted, and with room between neighbours. */
  predicate Separated(s: seq<Span>) {
    forall i :: 0 <= i < |s| - 1 ==> s[i].end < s[i + 1].start
  }

  function AddSpan(merged: seq<Span>, s: Span): seq<Span> {
    if merged != [] && s.start <= merged[|merged| - 1].end then
      merged[..|merged| - 1] + [Span(merged[|merged| - 1].start, if s.end > merged[|merged| - 1].end then s.end else merged[|merged| - 1].end)]
    else merged + [s]
  }

  /** The merging loop: each span in turn extends the last one or stands for itself. */
  function Merge(merged: seq<Span>, rest: seq<Span>): seq<Span>
    decreases |rest|
  {
    if rest == [] then merged else Merge(AddSpan(merged, rest[0]), rest[1..])
  }

  lemma CoveredSnoc(s: seq<Span>, y: Span, x: int)
    ensures Covered(s + [y], x) <==> Covered(s, x) || Holds(y, x)
  {
    var t := s + [y];
    if Covered(s, x) {
      var i :| 0 <= i < |s| && Holds(s[i], x);
      assert Holds(t[i], x);
    }
    if Holds(y, x) {
      assert Holds(t[|s|], x);
    }
    if Covered(t, x) {
      var i :| 0 <= i < |t| && Holds(t[i], x);
      assert i < |s| ==> Holds(s[i], x);
    }
  }

  lemma AddSpanKeeps(merged: seq<Span>, s: Span, x: int)
    requires AllNonempty(merged) && Separated(merged) && Nonempty(s)
    requires merged != [] ==> merged[|merged| - 1].start <= s.start
    ensures AllNonempty(AddSpan(merged, s)) && Separated(AddSpan(merged, s))
    ensures AddSpan(merged, s) != [] && AddSpan(merged, s)[|AddSpan(merged, s)| - 1].start <= s.start
    ensures Covered(AddSpan(merged, s), x) <==> Covered(merged, x) || Holds(s, x)
  {
    hide *;
    AddSpanShape(merged, s);
    AddSpanCovers(merged, s, x);
  }

  lemma AddSpanShape(merged: seq<Span>, s: Span)
    requires AllNonempty(merged) && Separated(merged) && Nonempty(s)
    requires merged != [] ==> merged[|merged| - 1].start <= s.start
    ensures AllNonempty(AddSpan(merged, s)) && Separated(AddSpan(merged, s))
    ensures AddSpan(merged, s) != [] && AddSpan(merged, s)[|AddSpan(merged, s)| - 1].start <= s.start
  {
  }

  lemma AddSpanCovers(merged: seq<Span>, s: Span, x: int)
    requires merged != [] ==> merged[|merged| - 1].start <= s.start
    requires AllNonempty(merged) && Nonempty(s)
    ensures Covered(AddSpan(merged, s), x) <==> Covered(merged, x) || Holds(s, x)
  {
    hide Covered, AllNonempty;
    if merged != [] && s.start <= merged[|merged| - 1].end {
      var front, last := merged[..|merged| - 1], merged[|merged| - 1];
      assert merged == front + [last];
      CoveredSnoc(front, last, x);
      CoveredSnoc(front, AddSpan(merged, s)[|front|], x);
      LastNonempty(merged);
    } else {
      CoveredSnoc(merged, s, x);
    }
  }

  lemma LastNonempty(merged: seq<Span>)
    requires AllNonempty(merged) && merged != []
    ensures Nonempty(merged[|merged| - 1])
  {
  }

  lemma {:induction false} MergeKeeps(merged: seq<Span>, rest: seq<Span>, x: int)
    requires AllNonempty(merged) && Separated(merged) && AllNonempty(rest) && SortedBy(rest, Start)
    requires merged != [] && rest != [] ==> merged[|merged| - 1].start <= rest[0].start
    ensures AllNonempty(Merge(merged, rest)) && Separated(Merge(merged, rest))
    ensures Covered(Merge(merged, rest), x) <==> Covered(merged, x) || Covered(rest, x)
    decreases |rest|
  {
    hide AddSpan, Separated, Holds;
    if rest != [] {
      assert Nonempty(rest[0]);
      AddSpanKeeps(merged, rest[0], x);
      assert |rest| > 1 ==> Start(rest[0]) <= Start(rest[1]);
      MergeKeeps(AddSpan(merged, rest[0]), rest[1..], x);
      CoveredCons(rest, x);
    }
  }

  lemma CoveredCons(s: seq<Span>, x: int)
    requires s != []
    ensures Covered(s, x) <==> Holds(s[0], x) || Covered(s[1..], x)
  {
    if Covered(s[1..], x) {
      var i :| 0 <= i < |s[1..]| && Holds(s[1..][i], x);
      assert Holds(s[i + 1], x);
    }
    if Covered(s, x) {
      var i :| 0 <= i < |s| && Holds(s[i], x);
      assert i > 0 ==> Holds(s[1..][i - 1], x);
    }
  }

  ghost predicate AnyMeets(s: seq<Span>, q: Span) {
    exists i :: 0 <= i < |s| && Meet(s[i], q)
  }

  lemma MeetsIsCovered(s: seq<Span>, q: Span)
    requires AllNonempty(s) && Nonempty(q)
    ensures AnyMeets(s, q) <==> exists x :: Covered(s, x) && Holds(q, x)
  {
    if AnyMeets(s, q) {
      var i :| 0 <= i < |s| && Meet(s[i], q);
      assert Nonempty(s[i]);
      var x := if s[i].start > q.start then s[i].start else q.start;
      assert Holds(s[i], x) && Holds(q, x);
      assert Covered(s, x);
    }
    if x :| Covered(s, x) && Holds(q, x) {
      var i :| 0 <= i < |s| && Holds(s[i], x);
      assert Meet(s[i], q);
    }
  }

  /** The lookup in merged spans: the last span that starts before the query ends reaches into it. */
  predicate Reaches(merged: seq<Span>, q: Span) {
    var n := PartitionPoint(merged, q.end - 1, 0, |merged|);
    n != 0 && merged[n - 1].end > q.start
  }

  lemma SeparatedSorted(s: seq<Span>)
    requires AllNonempty(s) && Separated(s)
    ensures SortedBy(s, Start) && SortedBy(s, End)
  {
    forall i, j | 0 <= i < j < |s| ensures Start(s[i]) <= Start(s[j]) && End(s[i]) <= End(s[j]) {
      ChainedOrder(s, i, j);
      assert Nonempty(s[i]) && Nonempty(s[j]);
    }
  }

  lemma ReachesMerged(merged: seq<Span>, q: Span)
    requires AllNonempty(merged) && Separated(merged) && Nonempty(q)
    ensures Reaches(merged, q) <==> AnyMeets(merged, q)
  {
    SeparatedSorted(merged);
    PartitionPointSplits(merged, q.end - 1, 0, |merged|);
    var n := PartitionPoint(merged, q.end - 1, 0, |merged|);
    if Reaches(merged, q) {
      assert Meet(merged[n - 1], q);
    }
    if AnyMeets(merged, q) {
      var i :| 0 <= i < |merged| && Meet(merged[i], q);
      assert i < n;
      assert i < n - 1 ==> End(merged[i]) <= End(merged[n - 1]);
    }
  }

  /** Binary search in the merged spans answers for the spans they were merged from. */
  lemma MergedLookupExact(s: seq<Span>, q: Span)
    requires AllNonempty(s) && Nonempty(q)
    ensures Reaches(Merge([], Sort(s, Start)), q) <==> AnyMeets(s, q)
  {
    hide Reaches, Merge, AnyMeets, Covered, Holds;
    NeighboursDecide(s);
    var t := Sort(s, Start);
    var merged := Merge([], t);
    MergeKeeps([], t, 0);
    ReachesMerged(merged, q);
    MeetsIsCovered(merged, q);
    MeetsIsCovered(s, q);
    forall x ensures Covered(merged, x) <==> Covered(s, x) {
      MergeKeeps([], t, x);
      NothingCovered(x);
      SortCovers(s, x);
    }
  }

  lemma NothingCovered(x: int)
    ensures !Covered([], x)
  {
  }

  lemma SortCovers(s: seq<Span>, x: int)
    ensures Covered(Sort(s, Start), x) <==> Covered(s, x)
  {
    var t := Sort(s, Start);
    if Covered(t, x) {
      var i :| 0 <= i < |t| && Holds(t[i], x);
      SortMembers(s, Start, t[i]);
      var j :| 0 <= j < |s| && s[j] == t[i];
    }
    if Covered(s, x) {
      var i :| 0 <= i < |s| && Holds(s[i], x);
      SortMembers(s, Start, s[i]);
      var j :| 0 <= j < |t| && t[j] == s[i];
    }
  }

  //////////////////////////////////////////////////////////////////////////////
  // How many points
  //////////////////////////////////////////////////////////////////////////////

  function Points(a: int, b: int): (r: set<int>)
    ensures forall x :: x in r <==> a <= x < b
    ensures |r| == if a <= b then b - a else 0
    decreases if a < b then b - a else 0
  {
    if a >= b then {} else Points(a, b - 1) + {b - 1}
  }

  function Union(s: seq<Span>): set<int> {
    if s == [] then {} else Union(s[..|s| - 1]) + Points(s[|s| - 1].start, s[|s| - 1].end)
  }

  lemma {:induction false} UnionMember(s: seq<Span>, x: int)
    ensures x in Union(s) <==> Covered(s, x)
  {
    if s != [] {
      UnionMember(s[..|s| - 1], x);
      CoveredSnoc(s[..|s| - 1], s[|s| - 1], x);
      assert s == s[..|s| - 1] + [s[|s| - 1]];
    }
  }

  function FurthestEnd(s: seq<Span>): nat {
    if s == [] then 0
    else if s[|s| - 1].end > FurthestEnd(s[..|s| - 1]) then s[|s| - 1].end
    else FurthestEnd(s[..|s| - 1])
  }

  /** Counts, span by span, only what reaches beyond everything before. */
  function DistinctCount(s: seq<Span>): nat {
    if s == [] then 0
    else
      DistinctCount(s[..|s| - 1]) + (if FreshStart(s) < s[|s| - 1].end then s[|s| - 1].end - FreshStart(s) else 0)
  }

  ghost predicate Ranges(s: seq<Span>) {
    forall i :: 0 <= i < |s| ==> s[i].start <= s[i].end
  }

  /** Of sorted spans, everything from the last start to the furthest end is covered, and nothing beyond. */
  lemma {:induction false} CoveredToTheEnd(s: seq<Span>, x: int)
    requires s != [] && SortedBy(s, Start) && Ranges(s)
    ensures x in Union(s) ==> x < FurthestEnd(s)
    ensures s[|s| - 1].start <= x < FurthestEnd(s) ==> x in Union(s)
  {
    var front := s[..|s| - 1];
    if |s| > 1 {
      CoveredToTheEnd(front, x);
      assert Start(s[|s| - 2]) <= Start(s[|s| - 1]);
    } else {
      assert front == [];
      NoPoints();
    }
  }

  /** Where the last span starts to reach beyond everything before. */
  function FreshStart(s: seq<Span>): nat
    requires s != []
  {
    var last, covered := s[|s| - 1], FurthestEnd(s[..|s| - 1]);
    if covered > last.start then covered else last.start
  }

  lemma AddedPoint(s: seq<Span>, x: int)
    requires s != [] && SortedBy(s, Start) && Ranges(s)
    ensures x in Union(s) <==> x in Union(s[..|s| - 1]) || x in Points(FreshStart(s), s[|s| - 1].end)
    ensures !(x in Union(s[..|s| - 1]) && x in Points(FreshStart(s), s[|s| - 1].end))
  {
    hide FurthestEnd;
    if |s| > 1 {
      CoveredToTheEnd(s[..|s| - 1], x);
      assert Start(s[|s| - 2]) <= Start(s[|s| - 1]);
    } else {
      assert s[..|s| - 1] == [];
      NoPoints();
    }
  }

  /** For sorted spans the count of what is new is the size of the union. */
  lemma {:induction false} DistinctIsUnion(s: seq<Span>)
    requires SortedBy(s, Start) && Ranges(s)
    ensures DistinctCount(s) == |Union(s)|
  {
    hide Points, Union, FurthestEnd;
    if s != [] {
      var front, added := s[..|s| - 1], Points(FreshStart(s), s[|s| - 1].end);
      DistinctIsUnion(front);
      forall x ensures (x in Union(s) <==> x in Union(front) || x in added) && !(x in Union(front) && x in added) {
        AddedPoint(s, x);
      }
      assert Union(s) == Union(front) + added && Union(front) !! added;
    } else {
      NoPoints();
    }
  }

  lemma NoPoints()
    ensures Union([]) == {} && FurthestEnd([]) == 0
  {
  }

  ghost predicate HasSource(a: set<int>, f: int -> int, y: int) {
    exists x :: x in a && f(x) == y
  }

  /** The map takes the points of a to points of b, reaches all of them, and keeps points apart. */
  ghost predicate MapsOnto(a: set<int>, f: int -> int, b: set<int>) {
    && (forall x :: x in a ==> f(x) in b)
    && (forall y :: y in b ==> HasSource(a, f, y))
    && (forall x, y :: x in a && y in a && f(x) == f(y) ==> x == y)
  }

  /** A set below a bound has as many points as its image. */
  lemma {:induction false} ImageSize(a: set<int>, f: int -> int, b: set<int>, bound: nat)
    requires MapsOnto(a, f, b) && forall x :: x in a ==> 0 <= x < bound
    ensures |a| == |b|
    decreases bound
  {
    hide MapsOnto;
    if bound == 0 {
      NothingReached(a, f, b);
    } else if bound - 1 in a {
      PointRemoved(a, f, b, bound - 1);
      ImageSize(a - {bound - 1}, f, b - {f(bound - 1)}, bound - 1);
    } else {
      ImageSize(a, f, b, bound - 1);
    }
  }

  lemma NothingReached(a: set<int>, f: int -> int, b: set<int>)
    requires MapsOnto(a, f, b) && forall x :: x !in a
    ensures |a| == |b| == 0
  {
    forall y ensures y !in b {
      assert !HasSource(a, f, y);
    }
    NoMembers(a);
    NoMembers(b);
  }

  lemma NoMembers(a: set<int>)
    requires forall x :: x !in a
    ensures |a| == 0
  {
    var none: set<int> := {};
    assert forall x :: x in a <==> x in none;
    assert a == none;
  }

  lemma PointRemoved(a: set<int>, f: int -> int, b: set<int>, x: int)
    requires MapsOnto(a, f, b) && x in a
    ensures f(x) in b && MapsOnto(a - {x}, f, b - {f(x)})
    ensures |a - {x}| == |a| - 1 && |b - {f(x)}| == |b| - 1
  {
    forall y | y in b - {f(x)} ensures HasSource(a - {x}, f, y) {
      var z :| z in a && f(z) == y;
      assert z in a - {x};
    }
  }
}
