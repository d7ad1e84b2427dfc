/**
 The sweep over writes in address order that reports repeated chain visits and overlapping writes.
 For each mechanism it remembers only the write that reaches furthest.
 */
module OverlapSweep {
  import opened Wrappers
  import opened Sorting

  datatype Mechanism = ClassicWrite | ChainWrite

  /** A file-backed write of a record. */
  datatype Write = Write(address: nat, end: nat, mechanism: Mechanism, record: nat)

  datatype Reach = Reach(end: nat, record: nat)

  datatype Conflict =
    | DuplicateVisit(record: nat, other: nat)
    | SameOverlap(record: nat, other: nat)
    | CrossOverlap(record: nat, other: nat)

  function Address(w: Write): int {
    w.address
  }

  function RecordOf(w: Write): int {
    w.record
  }

  /** The write of a mechanism that reaches furthest; the earliest of several. */
  function Furthest(ws: seq<Write>, m: Mechanism): Option<Reach> {
    if ws == [] then None
    else Extend(Furthest(ws[..|ws| - 1], m), ws[|ws| - 1], m)
  }

  function Extend(prior: Option<Reach>, w: Write, m: Mechanism): Option<Reach> {
    if w.mechanism == m && (prior.None? || w.end > prior.value.end) then Some(Reach(w.end, w.record)) else prior
  }

  /** The last chain write. */
  function LastChain(ws: seq<Write>): Option<Write> {
    if ws == [] then None
    else if ws[|ws| - 1].mechanism == ChainWrite then Some(ws[|ws| - 1])
    else LastChain(ws[..|ws| - 1])
  }

  function Duplicate(last: Option<Write>, w: Write): seq<Conflict> {
    if w.mechanism == ChainWrite && last.Some? && last.value.address == w.address then [DuplicateVisit(w.record, last.value.record)] else []
  }

  function Overlapping(prior: Option<Reach>, m: Mechanism, w: Write): seq<Conflict> {
    if prior.Some? && prior.value.end > w.address then
      [if m == w.mechanism then SameOverlap(w.record, prior.value.record) else CrossOverlap(w.record, prior.value.record)]
    else []
  }

  /** What the sweep reports when it comes to a write, after those before it. */
  function Report(before: seq<Write>, w: Write): seq<Conflict> {
    Duplicate(LastChain(before), w)
    + Overlapping(Furthest(before, ClassicWrite), ClassicWrite, w)
    + Overlapping(Furthest(before, ChainWrite), ChainWrite, w)
  }

  function Sweep(ws: seq<Write>): seq<Conflict> {
    if ws == [] then [] else Sweep(ws[..|ws| - 1]) + Report(ws[..|ws| - 1], ws[|ws| - 1])
  }

  //////////////////////////////////////////////////////////////////////////////
  // What is reported
  //////////////////////////////////////////////////////////////////////////////

  predicate Intersect(a: Write, b: Write) {
    a.address < b.end && b.address < a.end
  }

  /** Writes are nonempty, in address order, and each has its own record. */
  ghost predicate InOrder(ws: seq<Write>) {
    && LexSorted(ws, Address, RecordOf)
    && (forall i :: 0 <= i < |ws| ==> ws[i].address < ws[i].end)
    && (forall i, j :: 0 <= i < j < |ws| ==> ws[i].record != ws[j].record)
  }

  lemma {:induction false} FurthestIsMax(ws: seq<Write>, m: Mechanism)
    ensures match Furthest(ws, m)
            case None => forall i :: 0 <= i < |ws| ==> ws[i].mechanism != m
            case Some(r) =>
              && (exists i :: 0 <= i < |ws| && ws[i].mechanism == m && ws[i].end == r.end && ws[i].record == r.record)
              && forall i :: 0 <= i < |ws| && ws[i].mechanism == m ==> ws[i].end <= r.end
  {
    if ws != [] {
      var front, last := ws[..|ws| - 1], ws[|ws| - 1];
      FurthestIsMax(front, m);
      assert ws == front + [last];
      if Furthest(ws, m).Some? && Furthest(ws, m) == Furthest(front, m) {
        var r := Furthest(front, m).value;
        var i :| 0 <= i < |front| && front[i].mechanism == m && front[i].end == r.end && front[i].record == r.record;
        assert ws[i] == front[i];
      }
    }
  }

  lemma {:induction false} LastChainIsLast(ws: seq<Write>)
    ensures match LastChain(ws)
            case None => forall i :: 0 <= i < |ws| ==> ws[i].mechanism != ChainWrite
            case Some(w) => exists i :: 0 <= i < |ws| && ws[i] == w && w.mechanism == ChainWrite && forall j :: i < j < |ws| ==> ws[j].mechanism != ChainWrite
  {
    if ws != [] {
      var front, last := ws[..|ws| - 1], ws[|ws| - 1];
      LastChainIsLast(front);
      assert ws == front + [last];
      if last.mechanism != ChainWrite && LastChain(front).Some? {
        var i :| 0 <= i < |front| && front[i] == LastChain(front).value && forall j :: i < j < |front| ==> front[j].mechanism != ChainWrite;
        assert ws[i] == LastChain(ws).value;
      }
    }
  }

  /** At a write, an overlap with a mechanism is reported exactly when an earlier write of that mechanism intersects it, and the one named does. */
  lemma OverlapReport(ws: seq<Write>, q: nat, m: Mechanism)
    requires InOrder(ws) && q < |ws|
    ensures var found := Overlapping(Furthest(ws[..q], m), m, ws[q]);
            && (found != [] <==> exists p :: 0 <= p < q && ws[p].mechanism == m && Intersect(ws[p], ws[q]))
            && |found| <= 1
            && forall c :: c in found ==>
                 (exists p :: 0 <= p < q && ws[p].mechanism == m && Intersect(ws[p], ws[q]) && c.other == ws[p].record) &&
                 c == (if m == ws[q].mechanism then SameOverlap(ws[q].record, c.other) else CrossOverlap(ws[q].record, c.other))
  {
    hide Furthest;
    var before := ws[..q];
    FurthestIsMax(before, m);
    var found := Overlapping(Furthest(before, m), m, ws[q]);
    forall p | 0 <= p < q ensures Address(ws[p]) <= Address(ws[q]) {
    }
    if found != [] {
      var r := Furthest(before, m).value;
      var p :| 0 <= p < q && before[p].mechanism == m && before[p].end == r.end && before[p].record == r.record;
      assert Address(ws[p]) <= Address(ws[q]) && Intersect(ws[p], ws[q]) && ws[p].record == found[0].other;
    }
    if p :| 0 <= p < q && ws[p].mechanism == m && Intersect(ws[p], ws[q]) {
      assert before[p] == ws[p];
    }
  }

  /** At a write, a duplicate visit is reported exactly when it is a chain write at the address of an earlier one. */
  lemma DuplicateReport(ws: seq<Write>, q: nat)
    requires InOrder(ws) && q < |ws|
    ensures var found := Duplicate(LastChain(ws[..q]), ws[q]);
            && (found != [] <==> ws[q].mechanism == ChainWrite && exists p :: 0 <= p < q && ws[p].mechanism == ChainWrite && ws[p].address == ws[q].address)
            && |found| <= 1
            && forall c :: c in found ==>
                 && c.DuplicateVisit? && c.record == ws[q].record
                 && exists p :: 0 <= p < q && ws[p].mechanism == ChainWrite && ws[p].address == ws[q].address && c.other == ws[p].record
  {
    hide LastChain;
    var before := ws[..q];
    LastChainIsLast(before);
    if ws[q].mechanism == ChainWrite {
      if LastChain(before).Some? {
        var i :| 0 <= i < |before| && before[i] == LastChain(before).value && forall j :: i < j < |before| ==> before[j].mechanism != ChainWrite;
        assert ws[i] == before[i];
        if p :| 0 <= p < q && ws[p].mechanism == ChainWrite && ws[p].address == ws[q].address {
          assert before[p] == ws[p];
          assert Address(ws[p]) <= Address(ws[q]);
          assert p < i ==> Address(ws[p]) <= Address(ws[i]);
          assert Address(ws[i]) <= Address(ws[q]);
        }
      }
      forall p | 0 <= p < q ensures before[p] == ws[p] {
      }
    }
  }

  lemma {:induction false} SweepReports(ws: seq<Write>, c: Conflict)
    ensures c in Sweep(ws) <==> exists q :: 0 <= q < |ws| && c in Report(ws[..q], ws[q])
  {
    hide Report;
    if ws != [] {
      var n := |ws| - 1;
      var front := ws[..n];
      SweepReports(front, c);
      forall q | 0 <= q < n ensures front[..q] == ws[..q] {
      }
      if c in Sweep(ws) {
        if c in Sweep(front) {
          var q :| 0 <= q < n && c in Report(front[..q], front[q]);
          assert c in Report(ws[..q], ws[q]);
        } else {
          assert c in Report(ws[..n], ws[n]);
        }
      }
      if q :| 0 <= q < |ws| && c in Report(ws[..q], ws[q]) {
        if q < n {
          assert c in Report(front[..q], front[q]);
        }
      }
    }
  }

  /** A pair of writes the sweep has to report, and how. */
  predicate Clash(ws: seq<Write>, p: nat, q: nat, c: Conflict) {
    && p < q < |ws| && c.record == ws[q].record && c.other == ws[p].record
    && match c
       case DuplicateVisit(_, _) => ws[p].mechanism == ChainWrite && ws[q].mechanism == ChainWrite && ws[p].address == ws[q].address
       case SameOverlap(_, _) => ws[p].mechanism == ws[q].mechanism && Intersect(ws[p], ws[q])
       case CrossOverlap(_, _) => ws[p].mechanism != ws[q].mechanism && Intersect(ws[p], ws[q])
  }

  ghost predicate Clashes(ws: seq<Write>, c: Conflict) {
    exists p: nat, q: nat :: Clash(ws, p, q, c)
  }

  /** Every reported conflict names two different writes that conflict in the way it says. */
  lemma SweepSound(ws: seq<Write>, c: Conflict)
    requires InOrder(ws) && c in Sweep(ws)
    ensures Clashes(ws, c)
  {
    SweepReports(ws, c);
    var q: nat :| q < |ws| && c in Report(ws[..q], ws[q]);
    ReportSound(ws, q, c);
  }

  lemma ReportSound(ws: seq<Write>, q: nat, c: Conflict)
    requires InOrder(ws) && q < |ws| && c in Report(ws[..q], ws[q])
    ensures Clashes(ws, c)
  {
    hide Duplicate, Overlapping, LastChain, Furthest, InOrder;
    DuplicateReport(ws, q);
    OverlapReport(ws, q, ClassicWrite);
    OverlapReport(ws, q, ChainWrite);
    if c in Duplicate(LastChain(ws[..q]), ws[q]) {
      var p: nat :| p < q && ws[p].mechanism == ChainWrite && ws[p].address == ws[q].address && c.other == ws[p].record;
      assert Clash(ws, p, q, c);
    } else if c in Overlapping(Furthest(ws[..q], ClassicWrite), ClassicWrite, ws[q]) {
      var p: nat :| p < q && ws[p].mechanism == ClassicWrite && Intersect(ws[p], ws[q]) && c.other == ws[p].record;
      assert Clash(ws, p, q, c);
    } else {
      var p: nat :| p < q && ws[p].mechanism == ChainWrite && Intersect(ws[p], ws[q]) && c.other == ws[p].record;
      assert Clash(ws, p, q, c);
    }
  }

  /** Every conflicting pair is reported at its later write, in its own kind. */
  lemma SweepComplete(ws: seq<Write>, p: nat, q: nat, c: Conflict) returns (found: Conflict)
    requires InOrder(ws) && Clash(ws, p, q, c)
    ensures found in Sweep(ws) && found.record == c.record
    ensures found.DuplicateVisit? == c.DuplicateVisit? && found.SameOverlap? == c.SameOverlap?
  {
    hide Duplicate, Overlapping, LastChain, Furthest, InOrder;
    var dup := Duplicate(LastChain(ws[..q]), ws[q]);
    DuplicateReport(ws, q);
    OverlapReport(ws, q, ws[p].mechanism);
    if c.DuplicateVisit? {
      found := dup[0];
    } else {
      found := Overlapping(Furthest(ws[..q], ws[p].mechanism), ws[p].mechanism, ws[q])[0];
    }
    assert found in Report(ws[..q], ws[q]);
    SweepReports(ws, found);
  }

  /** Nothing is reported exactly when all writes are disjoint. */
  lemma SilentIffDisjoint(ws: seq<Write>)
    requires InOrder(ws)
    ensures Sweep(ws) == [] <==> forall p: nat, q: nat :: p < q < |ws| ==> !Intersect(ws[p], ws[q])
  {
    hide Sweep, Intersect;
    if Sweep(ws) == [] {
      forall p: nat, q: nat | p < q < |ws| ensures !Intersect(ws[p], ws[q]) {
        if Intersect(ws[p], ws[q]) {
          var c := if ws[p].mechanism == ws[q].mechanism then SameOverlap(ws[q].record, ws[p].record) else CrossOverlap(ws[q].record, ws[p].record);
          var found := SweepComplete(ws, p, q, c);
        }
      }
    } else {
      var c := Sweep(ws)[0];
      SweepSound(ws, c);
      var p: nat, q: nat :| Clash(ws, p, q, c);
      SameAddressIntersects(ws, p, q);
    }
  }

  lemma SameAddressIntersects(ws: seq<Write>, p: nat, q: nat)
    requires InOrder(ws) && p < q < |ws|
    ensures ws[p].address == ws[q].address ==> Intersect(ws[p], ws[q])
  {
  }

  /** Each write is reported at most once as a repeated visit, so those reports count the repeated addresses. */
  lemma DuplicateOnce(ws: seq<Write>, a: Conflict, b: Conflict)
    requires InOrder(ws) && a in Sweep(ws) && b in Sweep(ws) && a.DuplicateVisit? && b.DuplicateVisit? && a.record == b.record
    ensures a == b
  {
    hide *;
    SweepReports(ws, a);
    SweepReports(ws, b);
    var p: nat :| p < |ws| && a in Report(ws[..p], ws[p]);
    var q: nat :| q < |ws| && b in Report(ws[..q], ws[q]);
    DuplicateOf(ws, p, a);
    DuplicateOf(ws, q, b);
    OwnRecord(ws, p, q);
  }

  lemma DuplicateOf(ws: seq<Write>, q: nat, c: Conflict)
    requires q < |ws| && c in Report(ws[..q], ws[q]) && c.DuplicateVisit?
    ensures LastChain(ws[..q]).Some? && c == DuplicateVisit(ws[q].record, LastChain(ws[..q]).value.record)
  {
    hide LastChain, Furthest;
  }

  lemma OwnRecord(ws: seq<Write>, p: nat, q: nat)
    requires InOrder(ws) && p < |ws| && q < |ws| && ws[p].record == ws[q].record
    ensures p == q
  {
    hide LexSorted;
  }
}
