/**
 The bytes of a staged arena: what every offset holds, the copy that produces it, and the two
 readbacks of it, over the outer segments and over the views of the members.
 */
module StagingArena {
  import opened Wrappers
  import opened Words
  import opened Sorting
  import opened Spans
  import C = Collection
  import opened Staging

  datatype Verification = Verification(
    arenaBytes: nat,
    copiedBytes: nat,
    zeroTailBytes: nat,
    holeBytes: nat,
    memberHeaders: nat,
    memberSegmentViews: nat,
    memberFileBytes: nat)

  //////////////////////////////////////////////////////////////////////////////
  // The byte at an offset
  //////////////////////////////////////////////////////////////////////////////

  predicate SourceOk(source: seq<byte>, segments: seq<StagingSegment>) {
    forall i :: 0 <= i < |segments| ==> segments[i].fileOffset + segments[i].fileSize <= |source|
  }

  predicate Copies(s: StagingSegment, x: int) {
    s.destination <= x < s.destination + s.fileSize
  }

  /** The last copied byte at an offset, or zero. */
  function ByteAt(source: seq<byte>, segments: seq<StagingSegment>, x: nat): byte
    requires SourceOk(source, segments)
  {
    if segments == [] then 0
    else
      var last := segments[|segments| - 1];
      if Copies(last, x) then source[last.fileOffset + (x - last.destination)] else ByteAt(source, segments[..|segments| - 1], x)
  }

  function Expected(source: seq<byte>, p: Plan): (r: seq<byte>)
    requires SourceOk(source, p.segments)
    ensures |r| == p.arenaSize
    ensures forall x :: 0 <= x < |r| ==> r[x] == ByteAt(source, p.segments, x)
  {
    seq(p.arenaSize, x requires 0 <= x => ByteAt(source, p.segments, x))
  }

  lemma {:induction false} Uncopied(source: seq<byte>, segments: seq<StagingSegment>, x: nat)
    requires SourceOk(source, segments) && forall i :: 0 <= i < |segments| ==> !Copies(segments[i], x)
    ensures ByteAt(source, segments, x) == 0
  {
    if segments != [] {
      Uncopied(source, segments[..|segments| - 1], x);
    }
  }

  lemma {:induction false} Copied(source: seq<byte>, segments: seq<StagingSegment>, x: nat, j: nat)
    requires SourceOk(source, segments) && j < |segments| && Copies(segments[j], x)
    requires forall i :: j < i < |segments| ==> !Copies(segments[i], x)
    ensures ByteAt(source, segments, x) == source[segments[j].fileOffset + (x - segments[j].destination)]
  {
    if j < |segments| - 1 {
      Copied(source, segments[..|segments| - 1], x, j);
    }
  }

  ghost predicate Laid(source: seq<byte>, p: Plan) {
    Ordered(p.segments) && forall i :: 0 <= i < |p.segments| ==> StagedOk(source, p.arenaSize, p.segments[i])
  }

  lemma LaidSource(source: seq<byte>, p: Plan)
    requires Laid(source, p)
    ensures SourceOk(source, p.segments)
  {
    forall i | 0 <= i < |p.segments| ensures p.segments[i].fileOffset + p.segments[i].fileSize <= |source| {
      assert StagedOk(source, p.arenaSize, p.segments[i]);
    }
  }

  lemma {:induction false} LaidOrder(source: seq<byte>, p: Plan, i: nat, j: nat)
    requires Laid(source, p) && i < j < |p.segments|
    ensures p.segments[i].End() <= p.segments[j].destination
    decreases j
  {
    if i < j - 1 {
      LaidOrder(source, p, i, j - 1);
      assert StagedOk(source, p.arenaSize, p.segments[j - 1]) && p.segments[j - 1].End() <= p.segments[j - 1 + 1].destination;
    }
  }

  predicate InMemory(s: StagingSegment, x: int) {
    s.destination <= x < s.End()
  }

  lemma OnlyOwnerCopies(source: seq<byte>, p: Plan, j: nat, x: nat, i: nat)
    requires Laid(source, p) && j < |p.segments| && InMemory(p.segments[j], x) && i < |p.segments| && i != j
    ensures !Copies(p.segments[i], x) && !InMemory(p.segments[i], x)
  {
    assert StagedOk(source, p.arenaSize, p.segments[i]);
    if i < j {
      LaidOrder(source, p, i, j);
    } else {
      LaidOrder(source, p, j, i);
    }
  }

  /** An offset inside a segment holds that segment's file byte, or zero after its file bytes. */
  lemma OwnedByte(source: seq<byte>, p: Plan, j: nat, x: nat)
    requires Laid(source, p) && j < |p.segments| && InMemory(p.segments[j], x)
    ensures SourceOk(source, p.segments)
    ensures ByteAt(source, p.segments, x) == if Copies(p.segments[j], x) then source[p.segments[j].fileOffset + (x - p.segments[j].destination)] else 0
  {
    LaidSource(source, p);
    hide Laid, InMemory, Copies, ByteAt;
    forall i: nat | i < |p.segments| && i != j ensures !Copies(p.segments[i], x) {
      OnlyOwnerCopies(source, p, j, x, i);
    }
    if Copies(p.segments[j], x) {
      Copied(source, p.segments, x, j);
    } else {
      Uncopied(source, p.segments, x);
    }
  }

  lemma UnownedByte(source: seq<byte>, p: Plan, x: nat)
    requires Laid(source, p) && forall j :: 0 <= j < |p.segments| ==> !InMemory(p.segments[j], x)
    ensures SourceOk(source, p.segments) && ByteAt(source, p.segments, x) == 0
  {
    LaidSource(source, p);
    forall i | 0 <= i < |p.segments| ensures !Copies(p.segments[i], x) {
      assert StagedOk(source, p.arenaSize, p.segments[i]) && !InMemory(p.segments[i], x);
    }
    Uncopied(source, p.segments, x);
  }

  /**
   The arena of an accepted collection, in the collection's own terms: the byte of every address of
   every segment is the file byte or zero, and every other byte of the arena is zero.
   */
  lemma ArenaExact(source: seq<byte>, i: C.Inspection, pageSize: nat)
    requires C.Accepted(source, i) && PageSizeOk(pageSize) && FromInspection(source, i, pageSize).Ok?
    ensures var p := FromInspection(source, i, pageSize).value;
            && SourceOk(source, p.segments)
            && (forall k: nat, a: nat :: k < |i.collection.segments| && i.collection.segments[k].address <= a < i.collection.segments[k].End() ==>
                  SegmentByteAt(source, i.collection.segments[k], a, p))
            && (forall x: nat :: x < p.arenaSize && Unmapped(i.collection.segments, p.minimum + x) ==> Expected(source, p)[x] == 0)
  {
    PlanExact(source, i, pageSize);
    hide C.Accepted, FromInspection, ByteAt, ArenaSpan;
    var p := FromInspection(source, i, pageSize).value;
    var segments := i.collection.segments;
    LaidSource(source, p);
    forall k: nat, a: nat | k < |segments| && segments[k].address <= a < segments[k].End() ensures SegmentByteAt(source, segments[k], a, p) {
      AddressByte(source, segments, p, k, a);
    }
    forall x: nat | x < p.arenaSize && Unmapped(segments, p.minimum + x) ensures Expected(source, p)[x] == 0 {
      HoleByte(source, segments, p, x);
    }
  }

  predicate Unmapped(segments: seq<C.Segment>, a: int) {
    forall k :: 0 <= k < |segments| ==> !(segments[k].address <= a < segments[k].End())
  }

  /** The arena holds the file byte of a segment's address, or zero. */
  predicate SegmentByteAt(source: seq<byte>, s: C.Segment, a: nat, p: Plan)
    requires SourceOk(source, p.segments)
  {
    && p.minimum <= a < p.minimum + p.arenaSize
    && (a - s.address < s.file.size ==> s.address <= a && s.file.offset + (a - s.address) < |source|)
    && Expected(source, p)[a - p.minimum] == if a - s.address < s.file.size then source[s.file.offset + (a - s.address)] else 0
  }

  lemma AddressByte(source: seq<byte>, segments: seq<C.Segment>, p: Plan, k: nat, a: nat)
    requires Laid(source, p) && Planned(source, segments, p.minimum, p.arenaSize, p.segments) && SourceOk(source, p.segments)
    requires k < |segments| && segments[k].address <= a < segments[k].End()
    ensures SegmentByteAt(source, segments[k], a, p)
  {
    hide Ordered, ByteAt;
    var j :| 0 <= j < |p.segments| && p.segments[j].index == k && Stages(p.segments[j], segments, p.minimum);
    assert StagedOk(source, p.arenaSize, p.segments[j]);
    OwnedByte(source, p, j, a - p.minimum);
  }

  lemma HoleByte(source: seq<byte>, segments: seq<C.Segment>, p: Plan, x: nat)
    requires Laid(source, p) && Planned(source, segments, p.minimum, p.arenaSize, p.segments) && SourceOk(source, p.segments)
    requires x < p.arenaSize && Unmapped(segments, p.minimum + x)
    ensures Expected(source, p)[x] == 0
  {
    hide Ordered, ByteAt;
    forall j | 0 <= j < |p.segments| ensures !InMemory(p.segments[j], x) {
      assert Stages(p.segments[j], segments, p.minimum);
    }
    UnownedByte(source, p, x);
  }

  //////////////////////////////////////////////////////////////////////////////
  // Regions of the arena
  //////////////////////////////////////////////////////////////////////////////

  function PreviousEnd(p: Plan, j: nat): nat
    requires j <= |p.segments|
  {
    if j == 0 then 0 else p.segments[j - 1].End()
  }

  function NextStart(p: Plan, j: nat): nat
    requires j <= |p.segments|
  {
    if j == |p.segments| then p.arenaSize else p.segments[j].destination
  }

  lemma HoleRegion(source: seq<byte>, p: Plan, j: nat)
    requires Laid(source, p) && j <= |p.segments|
    ensures SourceOk(source, p.segments) && PreviousEnd(p, j) <= NextStart(p, j) <= p.arenaSize
    ensures Expected(source, p)[PreviousEnd(p, j)..NextStart(p, j)] == Zeros(NextStart(p, j) - PreviousEnd(p, j))
  {
    LaidSource(source, p);
    hide ByteAt;
    if 0 < j {
      assert StagedOk(source, p.arenaSize, p.segments[j - 1]);
      assert j < |p.segments| ==> p.segments[j - 1].End() <= p.segments[j - 1 + 1].destination;
    }
    assert j < |p.segments| ==> StagedOk(source, p.arenaSize, p.segments[j]);
    forall x: nat | PreviousEnd(p, j) <= x < NextStart(p, j) ensures Expected(source, p)[x] == 0 {
      forall i: nat | i < |p.segments| ensures !InMemory(p.segments[i], x) {
        if i < j - 1 {
          LaidOrder(source, p, i, j - 1);
        } else if i > j {
          LaidOrder(source, p, j, i);
        }
      }
      UnownedByte(source, p, x);
    }
  }

  lemma SegmentRegion(source: seq<byte>, p: Plan, j: nat)
    requires Laid(source, p) && j < |p.segments|
    ensures SourceOk(source, p.segments)
    ensures var s := p.segments[j];
            && s.fileSize <= s.memorySize && s.End() <= p.arenaSize && s.fileOffset + s.fileSize <= |source|
            && Expected(source, p)[s.destination..s.destination + s.fileSize] == source[s.fileOffset..s.fileOffset + s.fileSize]
            && Expected(source, p)[s.destination + s.fileSize..s.End()] == Zeros(s.memorySize - s.fileSize)
  {
    LaidSource(source, p);
    hide ByteAt;
    var s := p.segments[j];
    assert StagedOk(source, p.arenaSize, s);
    forall x: nat | s.destination <= x < s.End() ensures Expected(source, p)[x] == if Copies(s, x) then source[s.fileOffset + (x - s.destination)] else 0 {
      OwnedByte(source, p, j, x);
    }
  }

  //////////////////////////////////////////////////////////////////////////////
  // Views
  //////////////////////////////////////////////////////////////////////////////

  function ViewSpans(views: seq<View>): (r: seq<Span>)
    ensures |r| == |views| && forall i :: 0 <= i < |r| ==> r[i] == Span(views[i].destination, views[i].FileEnd())
  {
    seq(|views|, i requires 0 <= i < |views| => Span(views[i].destination, views[i].FileEnd()))
  }

  predicate ShowsSource(source: seq<byte>, arena: seq<byte>, v: View) {
    && v.destination + v.memorySize <= |arena| && v.fileSize <= v.memorySize && v.fileOffset + v.fileSize <= |source|
    && arena[v.destination..v.FileEnd()] == source[v.fileOffset..v.fileOffset + v.fileSize]
  }

  /** The property both member passes decide: every view shows its file bytes. */
  ghost predicate AllShow(source: seq<byte>, arena: seq<byte>, views: seq<View>) {
    forall i :: 0 <= i < |views| ==> ShowsSource(source, arena, views[i])
  }

  predicate Agree(v: View, w: View) {
    v.fileSize != 0 && w.fileSize != 0 && Meet(Span(v.destination, v.FileEnd()), Span(w.destination, w.FileEnd())) ==>
      v.fileOffset - v.destination == w.fileOffset - w.destination
  }

  /** Views are sorted, fit the source, and agree on the source byte of every shared offset. */
  ghost predicate Coherent(source: seq<byte>, views: seq<View>) {
    && SortedBy(views, ViewDestination)
    && (forall i :: 0 <= i < |views| ==> views[i].fileSize <= views[i].memorySize && views[i].fileOffset + views[i].fileSize <= |source|)
    && forall i, j :: 0 <= i < |views| && 0 <= j < |views| ==> Agree(views[i], views[j])
  }

  lemma OwnersAgree(source: seq<byte>, p: Plan, v: View, w: View)
    requires Laid(source, p) && Owned(p.segments, v) && Owned(p.segments, w)
    requires v.fileSize <= v.memorySize && w.fileSize <= w.memorySize
    ensures Agree(v, w)
  {
    hide Laid;
    var i: nat :| i < |p.segments| && Owns(p.segments[i], v);
    var j: nat :| j < |p.segments| && Owns(p.segments[j], w);
    if v.fileSize != 0 && w.fileSize != 0 && Meet(Span(v.destination, v.FileEnd()), Span(w.destination, w.FileEnd())) && i != j {
      var x := if v.destination > w.destination then v.destination else w.destination;
      OnlyOwnerCopies(source, p, i, x, j);
    }
  }

  lemma PlanCoherent(source: seq<byte>, p: Plan)
    requires PlanOk(source, p)
    ensures Laid(source, p) && Coherent(source, p.views)
  {
    hide Owned, Agree, Ordered, StagedOk, SortedBy;
    forall i | 0 <= i < |p.views| ensures p.views[i].fileSize <= p.views[i].memorySize && p.views[i].fileOffset + p.views[i].fileSize <= |source| && Owned(p.segments, p.views[i]) {
      assert ViewOk(source, p.segments, p.views[i]);
    }
    forall i, j | 0 <= i < |p.views| && 0 <= j < |p.views| ensures Agree(p.views[i], p.views[j]) {
      OwnersAgree(source, p, p.views[i], p.views[j]);
    }
  }

  /** The arena a plan describes shows every member view. */
  lemma ExpectedShows(source: seq<byte>, p: Plan)
    requires PlanOk(source, p)
    ensures SourceOk(source, p.segments) && AllShow(source, Expected(source, p), p.views)
  {
    PlanCoherent(source, p);
    LaidSource(source, p);
    forall k | 0 <= k < |p.views| ensures ShowsSource(source, Expected(source, p), p.views[k]) {
      assert ViewOk(source, p.segments, p.views[k]);
      OwnedViewShows(source, p, p.views[k]);
    }
  }

  lemma OwnedViewShows(source: seq<byte>, p: Plan, v: View)
    requires Laid(source, p) && SourceOk(source, p.segments) && ViewOk(source, p.segments, v)
    ensures ShowsSource(source, Expected(source, p), v)
  {
    hide Ordered, ByteAt;
    var j: nat :| j < |p.segments| && Owns(p.segments[j], v);
    assert StagedOk(source, p.arenaSize, p.segments[j]);
    forall x: nat | v.destination <= x < v.FileEnd() ensures Expected(source, p)[x] == source[v.fileOffset + (x - v.destination)] {
      OwnedByte(source, p, j, x);
    }
  }

  //////////////////////////////////////////////////////////////////////////////
  // The file bytes behind the views
  //////////////////////////////////////////////////////////////////////////////

  function SourceSpans(views: seq<View>): (r: seq<Span>)
    ensures |r| == |views| && forall i :: 0 <= i < |r| ==> r[i] == Span(views[i].fileOffset, views[i].fileOffset + views[i].fileSize)
  {
    seq(|views|, i requires 0 <= i < |views| => Span(views[i].fileOffset, views[i].fileOffset + views[i].fileSize))
  }

  /** The file offset of the byte copied to an arena offset. */
  function ToFile(segments: seq<StagingSegment>, x: int): int {
    if segments == [] then -1
    else
      var last := segments[|segments| - 1];
      if Copies(last, x) then last.fileOffset + (x - last.destination) else ToFile(segments[..|segments| - 1], x)
  }

  lemma {:induction false} ToFileAt(segments: seq<StagingSegment>, x: int, j: nat)
    requires j < |segments| && Copies(segments[j], x)
    requires forall i :: j < i < |segments| ==> !Copies(segments[i], x)
    ensures ToFile(segments, x) == segments[j].fileOffset + (x - segments[j].destination)
  {
    if j < |segments| - 1 {
      ToFileAt(segments[..|segments| - 1], x, j);
    }
  }

  /** An offset a view shows is copied by the view's owner, from the file byte the view names. */
  lemma ViewedByte(source: seq<byte>, p: Plan, v: View, x: nat) returns (j: nat)
    requires PlanOk(source, p) && v in p.views && v.destination <= x < v.FileEnd()
    ensures j < |p.segments| && Copies(p.segments[j], x)
    ensures ToFile(p.segments, x) == v.fileOffset + (x - v.destination) == p.segments[j].fileOffset + (x - p.segments[j].destination)
  {
    PlanCoherent(source, p);
    hide PlanOk, Ordered, Coherent, ToFile, Laid;
    var i :| 0 <= i < |p.views| && p.views[i] == v;
    ViewOwned(source, p, i);
    j :| j < |p.segments| && Owns(p.segments[j], v);
    StagedAt(source, p, j);
    forall i | j < i < |p.segments| ensures !Copies(p.segments[i], x) {
      OnlyOwnerCopies(source, p, j, x, i);
    }
    ToFileAt(p.segments, x, j);
  }

  lemma ViewOwned(source: seq<byte>, p: Plan, i: nat)
    requires PlanOk(source, p) && i < |p.views|
    ensures Owned(p.segments, p.views[i]) && p.views[i].fileSize <= p.views[i].memorySize
  {
    assert ViewOk(source, p.segments, p.views[i]);
  }

  lemma StagedAt(source: seq<byte>, p: Plan, j: nat)
    requires Laid(source, p) && j < |p.segments|
    ensures StagedOk(source, p.arenaSize, p.segments[j])
  {
  }

  /** Two staged segments share no file byte. */
  lemma StagedFilesApart(source: seq<byte>, segments: seq<C.Segment>, p: Plan, i: nat, j: nat, y: int)
    requires Laid(source, p) && Planned(source, segments, p.minimum, p.arenaSize, p.segments) && Pairwise(segments, C.ApartInFile)
    requires i < j < |p.segments|
    ensures !(p.segments[i].fileOffset <= y < p.segments[i].fileOffset + p.segments[i].fileSize &&
              p.segments[j].fileOffset <= y < p.segments[j].fileOffset + p.segments[j].fileSize)
  {
    LaidOrder(source, p, i, j);
    hide Ordered, HasStaged;
    var s, t := p.segments[i], p.segments[j];
    assert Stages(s, segments, p.minimum) && Stages(t, segments, p.minimum) && StagedOk(source, p.arenaSize, s);
    assert s.index != t.index;
    assert C.ApartInFile(segments[if s.index < t.index then s.index else t.index], segments[if s.index < t.index then t.index else s.index]);
  }

  lemma OneFileByte(source: seq<byte>, segments: seq<C.Segment>, p: Plan, i: nat, j: nat, x: int, y: int)
    requires Laid(source, p) && Planned(source, segments, p.minimum, p.arenaSize, p.segments) && Pairwise(segments, C.ApartInFile)
    requires i < |p.segments| && j < |p.segments| && Copies(p.segments[i], x) && Copies(p.segments[j], y)
    requires p.segments[i].fileOffset + (x - p.segments[i].destination) == p.segments[j].fileOffset + (y - p.segments[j].destination)
    ensures x == y
  {
    hide Laid, Planned, Pairwise;
    var f := p.segments[i].fileOffset + (x - p.segments[i].destination);
    if i < j {
      StagedFilesApart(source, segments, p, i, j, f);
    } else if j < i {
      StagedFilesApart(source, segments, p, j, i, f);
    }
  }

  /** A point of the union of view ranges, with the view that covers it. */
  lemma ViewCovering(views: seq<View>, x: int) returns (v: View)
    requires x in Union(ViewSpans(views))
    ensures v in views && v.destination <= x < v.FileEnd()
  {
    hide Union;
    UnionMember(ViewSpans(views), x);
    var i :| 0 <= i < |views| && Holds(ViewSpans(views)[i], x);
    v := views[i];
  }

  lemma ViewPoint(views: seq<View>, v: View, x: nat)
    requires v in views && v.destination <= x < v.FileEnd()
    ensures x in Union(ViewSpans(views)) && v.fileOffset + (x - v.destination) in Union(SourceSpans(views))
  {
    hide Union;
    UnionMember(ViewSpans(views), x);
    UnionMember(SourceSpans(views), v.fileOffset + (x - v.destination));
    var i :| 0 <= i < |views| && views[i] == v;
    assert Holds(ViewSpans(views)[i], x) && Holds(SourceSpans(views)[i], v.fileOffset + (x - v.destination));
  }

  lemma SourcePoint(views: seq<View>, y: int) returns (v: View)
    requires y in Union(SourceSpans(views))
    ensures v in views && v.fileOffset <= y < v.fileOffset + v.fileSize
  {
    hide Union;
    UnionMember(SourceSpans(views), y);
    var i :| 0 <= i < |views| && Holds(SourceSpans(views)[i], y);
    v := views[i];
  }

  /** A file byte behind the header or a nonempty segment of the image. */
  ghost predicate ImageFileByte(m: C.Image, y: int) {
    || m.headerFileOffset <= y < m.headerFileOffset + 32 + m.commandBytes
    || exists j :: 0 <= j < |m.segments| && m.segments[j].memorySize != 0 && HasFileByte(m.segments[j], y)
  }

  predicate HasFileByte(s: C.Segment, y: int) {
    s.file.offset <= y < s.file.offset + s.file.size
  }

  ghost predicate MemberFileByte(members: seq<C.Image>, y: int) {
    exists k :: 0 <= k < |members| && ImageFileByte(members[k], y)
  }

  /** The bytes of the file that some member's header or segment shows. */
  ghost function MemberFileBytes(source: seq<byte>, members: seq<C.Image>): set<int> {
    set y | 0 <= y < |source| && MemberFileByte(members, y)
  }

  /**
   For the plan of an accepted collection, the arena bytes that are compared once each for the members are
   as many as there are different bytes in the file ranges of the members' headers and segments.
   */
  lemma MemberBytesOnce(source: seq<byte>, i: C.Inspection, pageSize: nat)
    requires C.Accepted(source, i) && PageSizeOk(pageSize) && FromInspection(source, i, pageSize).Ok?
    ensures |Union(ViewSpans(FromInspection(source, i, pageSize).value.views))| == |MemberFileBytes(source, i.members)|
  {
    hide *;
    PlanExact(source, i, pageSize);
    FilesApart(source, i);
    var p := FromInspection(source, i, pageSize).value;
    SameUnionSize(source, i.collection.segments, p);
    forall y ensures y in Union(SourceSpans(p.views)) <==> y in MemberFileBytes(source, i.members) {
      ViewedFileByte(source, i, pageSize, y);
    }
    assert Union(SourceSpans(p.views)) == MemberFileBytes(source, i.members);
  }

  lemma ViewedFileByte(source: seq<byte>, i: C.Inspection, pageSize: nat, y: int)
    requires C.Accepted(source, i) && PageSizeOk(pageSize) && FromInspection(source, i, pageSize).Ok?
    ensures y in Union(SourceSpans(FromInspection(source, i, pageSize).value.views)) <==> y in MemberFileBytes(source, i.members)
  {
    hide *;
    PlanExact(source, i, pageSize);
    var p := FromInspection(source, i, pageSize).value;
    FileByteIn(source, i.members, y);
    if y in Union(SourceSpans(p.views)) {
      var v := SourcePoint(p.views, y);
      PlanViewFile(source, p, v);
      ViewsExact(source, i, pageSize, v);
      ViewWitness(i.members, p.minimum, v);
      ShownIsMember(i.members, p.minimum, v, y);
    }
    if 0 <= y < |source| && MemberFileByte(i.members, y) {
      ViewsExact(source, i, pageSize, View(0, 0, 0, 0, false));
      var v := MemberIsShown(i.members, p.minimum, y);
      ViewsExact(source, i, pageSize, v);
      ViewWitness(i.members, p.minimum, v);
      SourceShown(p.views, v, y);
    }
  }

  lemma FileByteIn(source: seq<byte>, members: seq<C.Image>, y: int)
    ensures y in MemberFileBytes(source, members) <==> 0 <= y < |source| && MemberFileByte(members, y)
  {
    hide MemberFileByte;
  }

  lemma PlanViewFile(source: seq<byte>, p: Plan, v: View)
    requires PlanOk(source, p) && v in p.views
    ensures v.fileOffset + v.fileSize <= |source|
  {
    var i :| 0 <= i < |p.views| && p.views[i] == v;
    assert ViewOk(source, p.segments, p.views[i]);
  }

  lemma ShownIsMember(members: seq<C.Image>, base: nat, v: View, y: int)
    requires exists k :: 0 <= k < |members| && ViewedBy(members[k], base, v)
    requires v.fileOffset <= y < v.fileOffset + v.fileSize
    ensures MemberFileByte(members, y)
  {
    var k :| 0 <= k < |members| && ViewedBy(members[k], base, v);
    if !IsHeaderView(members[k], base, v) {
      var j :| 0 <= j < |members[k].segments| && IsSegmentView(members[k].segments[j], base, v);
      assert HasFileByte(members[k].segments[j], y);
    }
    assert ImageFileByte(members[k], y);
  }

  lemma MemberIsShown(members: seq<C.Image>, base: nat, y: int) returns (v: View)
    requires MemberFileByte(members, y) && forall k :: 0 <= k < |members| ==> Reached(members[k], base)
    ensures exists k :: 0 <= k < |members| && ViewedBy(members[k], base, v)
    ensures v.fileOffset <= y < v.fileOffset + v.fileSize
  {
    var k :| 0 <= k < |members| && ImageFileByte(members[k], y);
    var m := members[k];
    assert Reached(m, base);
    if m.headerFileOffset <= y < m.headerFileOffset + 32 + m.commandBytes {
      v := View(m.headerAddress - base, 32 + m.commandBytes, m.headerFileOffset, 32 + m.commandBytes, true);
      assert ViewedBy(members[k], base, v);
    } else {
      var j :| 0 <= j < |m.segments| && m.segments[j].memorySize != 0 && HasFileByte(m.segments[j], y);
      var s := m.segments[j];
      v := View(s.address - base, s.memorySize, s.file.offset, s.file.size, false);
      assert IsSegmentView(m.segments[j], base, v);
      assert ViewedBy(members[k], base, v);
    }
  }

  lemma SourceShown(views: seq<View>, v: View, y: int)
    requires v in views && v.fileOffset <= y < v.fileOffset + v.fileSize
    ensures y in Union(SourceSpans(views))
  {
    hide Union;
    var x := v.destination + (y - v.fileOffset);
    ViewPoint(views, v, x);
  }

  lemma FilesApart(source: seq<byte>, i: C.Inspection)
    requires C.Accepted(source, i)
    ensures Pairwise(i.collection.segments, C.ApartInFile)
  {
    hide C.SegmentOk, C.FixupsOk, C.MemberOk, C.EntryRuns, C.PlacesHeader, Pairwise;
  }

  lemma SameUnionSize(source: seq<byte>, segments: seq<C.Segment>, p: Plan)
    requires PlanOk(source, p) && Planned(source, segments, p.minimum, p.arenaSize, p.segments) && Pairwise(segments, C.ApartInFile)
    ensures |Union(ViewSpans(p.views))| == |Union(SourceSpans(p.views))|
  {
    hide PlanOk, Planned, Pairwise, Union, ToFile;
    var a, b, f := Union(ViewSpans(p.views)), Union(SourceSpans(p.views)), (x: int) => ToFile(p.segments, x);
    forall x | x in a ensures f(x) in b {
      ViewedInSource(source, p, x);
    }
    forall y | y in b ensures HasSource(a, f, y) {
      var x := SourceViewed(source, p, y);
      assert f(x) == y;
    }
    forall x, y | x in a && y in a && f(x) == f(y) ensures x == y {
      ViewedOnce(source, segments, p, x, y);
    }
    forall x | x in a ensures 0 <= x < p.arenaSize {
      ViewedInArena(source, p, x);
    }
    ImageSize(a, f, b, p.arenaSize);
  }

  lemma ViewedInArena(source: seq<byte>, p: Plan, x: int)
    requires PlanOk(source, p) && x in Union(ViewSpans(p.views))
    ensures 0 <= x < p.arenaSize
  {
    PlanCoherent(source, p);
    hide PlanOk, Union, ToFile, Laid, Coherent;
    var v := ViewCovering(p.views, x);
    var j := ViewedByte(source, p, v, x);
    StagedAt(source, p, j);
  }

  lemma ViewedInSource(source: seq<byte>, p: Plan, x: int)
    requires PlanOk(source, p) && x in Union(ViewSpans(p.views))
    ensures ToFile(p.segments, x) in Union(SourceSpans(p.views))
  {
    hide *;
    var v := ViewCovering(p.views, x);
    var j := ViewedByte(source, p, v, x);
    ViewPoint(p.views, v, x);
  }

  lemma SourceViewed(source: seq<byte>, p: Plan, y: int) returns (x: int)
    requires PlanOk(source, p) && y in Union(SourceSpans(p.views))
    ensures x in Union(ViewSpans(p.views)) && ToFile(p.segments, x) == y
  {
    hide PlanOk, Union, ToFile, Copies;
    var v := SourcePoint(p.views, y);
    x := v.destination + (y - v.fileOffset);
    var j := ViewedByte(source, p, v, x);
    ViewPoint(p.views, v, x);
  }

  lemma ViewedOnce(source: seq<byte>, segments: seq<C.Segment>, p: Plan, x: int, y: int)
    requires PlanOk(source, p) && Planned(source, segments, p.minimum, p.arenaSize, p.segments) && Pairwise(segments, C.ApartInFile)
    requires x in Union(ViewSpans(p.views)) && y in Union(ViewSpans(p.views)) && ToFile(p.segments, x) == ToFile(p.segments, y)
    ensures x == y
  {
    hide *;
    PlanCoherent(source, p);
    var v := ViewCovering(p.views, x);
    var w := ViewCovering(p.views, y);
    var j := ViewedByte(source, p, v, x);
    var k := ViewedByte(source, p, w, y);
    OneFileByte(source, segments, p, j, k, x, y);
  }

  /** What a view shares with earlier views has been compared already. */
  lemma SharedPartShown(source: seq<byte>, arena: seq<byte>, views: seq<View>, j: nat)
    requires Coherent(source, views) && j < |views| && AllShow(source, arena, views[..j])
    requires views[j].FileEnd() <= |arena| && views[j].fileOffset + views[j].fileSize <= |source|
    ensures var covered := FurthestEnd(ViewSpans(views)[..j]);
            forall x :: views[j].destination <= x < covered && x < views[j].FileEnd() ==> arena[x] == source[views[j].fileOffset + (x - views[j].destination)]
  {
    hide AllShow, ShowsSource, Agree, Coherent, FurthestEnd, Union;
    var v, covered := views[j], FurthestEnd(ViewSpans(views)[..j]);
    forall x | v.destination <= x < covered && x < v.FileEnd() ensures arena[x] == source[v.fileOffset + (x - v.destination)] {
      var i := EarlierHolder(source, views, j, x);
      assert views[..j][i] == views[i];
      OneShows(source, arena, views[..j], i);
      CoherentPair(source, views, i, j);
      AgreeingByte(source, arena, views[i], v, x);
    }
  }

  lemma EarlierHolder(source: seq<byte>, views: seq<View>, j: nat, x: int) returns (i: nat)
    requires Coherent(source, views) && j < |views| && views[j].destination <= x < FurthestEnd(ViewSpans(views)[..j])
    ensures i < j && views[i].destination <= x < views[i].FileEnd()
  {
    var spans := ViewSpans(views)[..j];
    ViewSpansOrdered(source, views, j);
    hide Coherent, Union, FurthestEnd, SortedBy, Ranges;
    if j == 0 {
      NoEnd(spans);
    }
    CoveredToTheEnd(spans, x);
    UnionMember(spans, x);
    i :| 0 <= i < |spans| && Holds(spans[i], x);
  }

  lemma NoEnd(s: seq<Span>)
    requires |s| == 0
    ensures FurthestEnd(s) == 0
  {
  }

  lemma OneShows(source: seq<byte>, arena: seq<byte>, views: seq<View>, i: nat)
    requires AllShow(source, arena, views) && i < |views|
    ensures ShowsSource(source, arena, views[i])
  {
  }

  lemma AgreeingByte(source: seq<byte>, arena: seq<byte>, w: View, v: View, x: int)
    requires ShowsSource(source, arena, w) && Agree(w, v) && w.destination <= x < w.FileEnd() && v.destination <= x < v.FileEnd()
    requires v.FileEnd() <= |arena| && v.fileOffset + v.fileSize <= |source|
    ensures arena[x] == source[v.fileOffset + (x - v.destination)]
  {
    assert arena[w.destination..w.FileEnd()][x - w.destination] == source[w.fileOffset..w.fileOffset + w.fileSize][x - w.destination];
  }

  lemma CoherentPair(source: seq<byte>, views: seq<View>, i: nat, j: nat)
    requires Coherent(source, views) && i < |views| && j < |views|
    ensures Agree(views[i], views[j])
  {
  }

  lemma ViewSpansOrdered(source: seq<byte>, views: seq<View>, j: nat)
    requires Coherent(source, views) && j <= |views|
    ensures SortedBy(ViewSpans(views)[..j], Start) && Ranges(ViewSpans(views)[..j])
    ensures 0 < j < |views| ==> ViewSpans(views)[..j][j - 1].start <= views[j].destination
    ensures j < |views| ==> views[j].fileSize <= views[j].memorySize && views[j].fileOffset + views[j].fileSize <= |source|
  {
    var spans := ViewSpans(views)[..j];
    forall a, b | 0 <= a < b < |spans| ensures Start(spans[a]) <= Start(spans[b]) {
      assert ViewDestination(views[a]) <= ViewDestination(views[b]);
    }
    assert 0 < j < |views| ==> ViewDestination(views[j - 1]) <= ViewDestination(views[j]);
  }

  function HeaderCount(views: seq<View>): (r: nat)
    ensures r <= |views|
  {
    if views == [] then 0 else HeaderCount(views[..|views| - 1]) + (if views[|views| - 1].isHeader then 1 else 0)
  }

  datatype ViewTotals = ViewTotals(headers: nat, segments: nat, bytes: nat)

  /** The covered-end pass: compares only what lies beyond everything compared before. */
  method VerifyViews(source: seq<byte>, arena: seq<byte>, views: seq<View>) returns (r: Result<ViewTotals, StagingError>)
    requires Coherent(source, views) && |arena| < U64_LIMIT
    ensures r.Ok? <==> AllShow(source, arena, views)
    ensures r.Ok? ==> r.value == ViewTotals(HeaderCount(views), |views| - HeaderCount(views), |Union(ViewSpans(views))|)
    ensures r.Ok? ==> |Union(ViewSpans(views))| <= |arena|
    ensures r.Err? ==> r.error == ReadbackMismatch
  {
    hide Coherent, AllShow, Union, FurthestEnd, DistinctCount, HeaderCount;
    NothingShown(source, arena);
    var coveredEnd: nat, headers: nat, compared: nat := 0, 0, 0;
    ghost var spans := ViewSpans(views);
    var j: nat := 0;
    while j < |views|
      invariant j <= |views|
      invariant AllShow(source, arena, views[..j])
      invariant coveredEnd == FurthestEnd(spans[..j]) <= |arena|
      invariant compared == DistinctCount(spans[..j]) <= coveredEnd
      invariant headers == HeaderCount(views[..j]) <= j
    {
      var view := views[j];
      ViewSpansOrdered(source, views, j);
      ViewStep(source, arena, views, j);
      if view.destination + view.memorySize > |arena| {
        return Err(ReadbackMismatch);
      }
      var compareStart := if coveredEnd > view.destination then coveredEnd else view.destination;
      if compareStart < view.FileEnd() {
        var skipped := compareStart - view.destination;
        if arena[compareStart..view.FileEnd()] != source[view.fileOffset + skipped..view.fileOffset + view.fileSize] {
          if ShowsSource(source, arena, view) {
            SkippedPart(source, arena, view, skipped);
          }
          return Err(ReadbackMismatch);
        }
        assert Fits64(compared + (view.FileEnd() - compareStart));
        compared := compared + (view.FileEnd() - compareStart);
        SharedPartShown(source, arena, views, j);
        RestShown(source, arena, view, compareStart);
      } else {
        SharedPartShown(source, arena, views, j);
        RestShown(source, arena, view, view.FileEnd());
      }
      coveredEnd := if view.FileEnd() > coveredEnd then view.FileEnd() else coveredEnd;
      if view.isHeader {
        headers := headers + 1;
      }
      j := j + 1;
    }
    ViewSpansOrdered(source, views, j);
    assert views[..j] == views && spans[..j] == spans;
    DistinctIsUnion(spans);
    return Ok(ViewTotals(headers, |views| - headers, compared));
  }

  lemma NothingShown(source: seq<byte>, arena: seq<byte>)
    ensures AllShow(source, arena, []) && FurthestEnd([]) == 0 && DistinctCount([]) == 0 && HeaderCount([]) == 0 && FileBytes([]) == 0
  {
  }

  /** A mismatch in the compared part of a view is a mismatch of the view. */
  lemma SkippedPart(source: seq<byte>, arena: seq<byte>, v: View, skipped: nat)
    requires ShowsSource(source, arena, v) && skipped <= v.fileSize
    ensures arena[v.destination + skipped..v.FileEnd()] == source[v.fileOffset + skipped..v.fileOffset + v.fileSize]
  {
    assert arena[v.destination + skipped..v.FileEnd()] == arena[v.destination..v.FileEnd()][skipped..];
    assert source[v.fileOffset + skipped..v.fileOffset + v.fileSize] == source[v.fileOffset..v.fileOffset + v.fileSize][skipped..];
  }

  lemma RestShown(source: seq<byte>, arena: seq<byte>, v: View, from: nat)
    requires v.destination + v.memorySize <= |arena| && v.fileSize <= v.memorySize && v.fileOffset + v.fileSize <= |source|
    requires v.destination <= from <= v.FileEnd()
    requires forall x :: v.destination <= x < from ==> arena[x] == source[v.fileOffset + (x - v.destination)]
    requires arena[from..v.FileEnd()] == source[v.fileOffset + (from - v.destination)..v.fileOffset + v.fileSize]
    ensures ShowsSource(source, arena, v)
  {
    forall x | v.destination <= x < v.FileEnd() ensures arena[x] == source[v.fileOffset + (x - v.destination)] {
      if from <= x {
        assert arena[from..v.FileEnd()][x - from] == source[v.fileOffset + (from - v.destination)..v.fileOffset + v.fileSize][x - from];
      }
    }
  }

  /** One more view. */
  lemma ViewStep(source: seq<byte>, arena: seq<byte>, views: seq<View>, j: nat)
    requires j < |views|
    ensures AllShow(source, arena, views[..j + 1]) <==> AllShow(source, arena, views[..j]) && ShowsSource(source, arena, views[j])
    ensures AllShow(source, arena, views) ==> ShowsSource(source, arena, views[j])
    ensures HeaderCount(views[..j + 1]) == HeaderCount(views[..j]) + (if views[j].isHeader then 1 else 0)
    ensures var spans := ViewSpans(views);
            && FurthestEnd(spans[..j + 1]) == (if views[j].FileEnd() > FurthestEnd(spans[..j]) then views[j].FileEnd() else FurthestEnd(spans[..j]))
            && DistinctCount(spans[..j + 1]) == DistinctCount(spans[..j]) +
                 (var from := if FurthestEnd(spans[..j]) > views[j].destination then FurthestEnd(spans[..j]) else views[j].destination;
                  if from < views[j].FileEnd() then views[j].FileEnd() - from else 0)
  {
    hide ShowsSource;
    var spans := ViewSpans(views);
    assert views[..j + 1][..j] == views[..j] && spans[..j + 1][..j] == spans[..j];
    assert views[..j + 1] == views[..j] + [views[j]];
  }

  /** The older pass: compares every view in full. */
  method VerifyViewsInFull(source: seq<byte>, arena: seq<byte>, views: seq<View>) returns (r: Result<ViewTotals, StagingError>)
    requires Coherent(source, views) && Fits64(FileBytes(views))
    ensures r.Ok? <==> AllShow(source, arena, views)
    ensures r.Ok? ==> r.value == ViewTotals(HeaderCount(views), |views| - HeaderCount(views), FileBytes(views))
    ensures r.Err? ==> r.error == ReadbackMismatch
  {
    hide Coherent, AllShow, FurthestEnd, DistinctCount, HeaderCount, FileBytes;
    NothingShown(source, arena);
    var headers: nat, compared: nat := 0, 0;
    var j: nat := 0;
    while j < |views|
      invariant j <= |views|
      invariant AllShow(source, arena, views[..j])
      invariant compared == FileBytes(views[..j])
      invariant headers == HeaderCount(views[..j])
    {
      var view := views[j];
      ViewSpansOrdered(source, views, j);
      ViewStep(source, arena, views, j);
      FileBytesStep(views, j);
      if view.destination + view.memorySize > |arena| ||
         arena[view.destination..view.FileEnd()] != source[view.fileOffset..view.fileOffset + view.fileSize] {
        return Err(ReadbackMismatch);
      }
      if view.isHeader {
        headers := headers + 1;
      }
      assert Fits64(compared + view.fileSize);
      compared := compared + view.fileSize;
      j := j + 1;
    }
    assert views[..j] == views;
    return Ok(ViewTotals(headers, |views| - headers, compared));
  }

  function FileBytes(views: seq<View>): nat {
    if views == [] then 0 else FileBytes(views[..|views| - 1]) + views[|views| - 1].fileSize
  }

  lemma {:induction false} FileBytesStep(views: seq<View>, j: nat)
    requires j < |views|
    ensures FileBytes([]) == 0
    ensures FileBytes(views[..j + 1]) == FileBytes(views[..j]) + views[j].fileSize <= FileBytes(views)
    decreases |views|
  {
    assert views[..j + 1][..j] == views[..j];
    if j == |views| - 1 {
      assert views[..j + 1] == views;
    } else {
      var front := views[..|views| - 1];
      FileBytesStep(front, j);
      assert front[..j + 1] == views[..j + 1] && front[..j] == views[..j];
    }
  }

  lemma {:induction false} FileBytesBound(views: seq<View>)
    requires forall i :: 0 <= i < |views| ==> views[i].fileSize <= C.MAX_INPUT_SIZE
    ensures FileBytes(views) <= |views| * 0x800_0000
  {
    if views != [] {
      FileBytesBound(views[..|views| - 1]);
    }
  }

  //////////////////////////////////////////////////////////////////////////////
  // Staging and readback
  //////////////////////////////////////////////////////////////////////////////

  function FileTotal(segments: seq<StagingSegment>): nat {
    if segments == [] then 0 else FileTotal(segments[..|segments| - 1]) + segments[|segments| - 1].fileSize
  }

  function MemoryTotal(segments: seq<StagingSegment>): nat {
    if segments == [] then 0 else MemoryTotal(segments[..|segments| - 1]) + segments[|segments| - 1].memorySize
  }

  lemma TotalsStep(segments: seq<StagingSegment>, j: nat)
    requires j < |segments|
    ensures FileTotal([]) == 0 && MemoryTotal([]) == 0
    ensures FileTotal(segments[..j + 1]) == FileTotal(segments[..j]) + segments[j].fileSize
    ensures MemoryTotal(segments[..j + 1]) == MemoryTotal(segments[..j]) + segments[j].memorySize
  {
    assert segments[..j + 1][..j] == segments[..j];
  }

  datatype OuterTotals = OuterTotals(copied: nat, zeroTail: nat, hole: nat)

  lemma JoinRegions(a: seq<byte>, b: seq<byte>, from: nat, to: nat)
    requires from <= to <= |a| && |a| == |b| && a[..from] == b[..from] && a[from..to] == b[from..to]
    ensures a[..to] == b[..to]
  {
    assert a[..to] == a[..from] + a[from..to];
    assert b[..to] == b[..from] + b[from..to];
  }

  /** The outer pass: holes, file bytes and zero tails, segment by segment. */
  method VerifySegments(source: seq<byte>, arena: seq<byte>, p: Plan) returns (r: Result<OuterTotals, StagingError>)
    requires Laid(source, p) && |arena| == p.arenaSize && SourceOk(source, p.segments)
    ensures r.Ok? <==> arena == Expected(source, p)
    ensures r.Ok? ==> r.value.copied == FileTotal(p.segments) && r.value.copied + r.value.zeroTail == MemoryTotal(p.segments)
    ensures r.Ok? ==> r.value.copied + r.value.zeroTail + r.value.hole == p.arenaSize
    ensures r.Err? ==> r.error == ReadbackMismatch
  {
    hide Laid, Expected, FileTotal, MemoryTotal, SourceOk;
    var copied: nat, zeroTail: nat, hole: nat, previousEnd: nat := 0, 0, 0, 0;
    ghost var expected := Expected(source, p);
    ghost var none: seq<StagingSegment> := [];
    assert p.segments[..0] == none;
    NoTotals();
    var j: nat := 0;
    while j < |p.segments|
      invariant j <= |p.segments|
      invariant previousEnd == PreviousEnd(p, j) <= p.arenaSize
      invariant arena[..previousEnd] == expected[..previousEnd]
      invariant copied == FileTotal(p.segments[..j]) && copied + zeroTail == MemoryTotal(p.segments[..j])
      invariant copied + zeroTail + hole == previousEnd
    {
      var s := p.segments[j];
      HoleRegion(source, p, j);
      SegmentRegion(source, p, j);
      TotalsStep(p.segments, j);
      var copiedEnd := s.destination + s.fileSize;
      if arena[previousEnd..s.destination] != Zeros(s.destination - previousEnd) ||
         arena[s.destination..copiedEnd] != source[s.fileOffset..s.fileOffset + s.fileSize] ||
         arena[copiedEnd..s.End()] != Zeros(s.memorySize - s.fileSize) {
        return Err(ReadbackMismatch);
      }
      JoinRegions(arena, expected, previousEnd, s.destination);
      JoinRegions(arena, expected, s.destination, copiedEnd);
      JoinRegions(arena, expected, copiedEnd, s.End());
      copied := copied + s.fileSize;
      zeroTail := zeroTail + (s.memorySize - s.fileSize);
      hole := hole + (s.destination - previousEnd);
      previousEnd := s.End();
      j := j + 1;
    }
    HoleRegion(source, p, j);
    assert p.segments[..j] == p.segments;
    if arena[previousEnd..] != Zeros(|arena| - previousEnd) {
      return Err(ReadbackMismatch);
    }
    JoinRegions(arena, expected, previousEnd, |arena|);
    assert arena[..|arena|] == arena && expected[..|arena|] == expected;
    return Ok(OuterTotals(copied, zeroTail, hole + (|arena| - previousEnd)));
  }

  lemma NoTotals()
    ensures FileTotal([]) == 0 && MemoryTotal([]) == 0
  {
  }

  /** The counts of a successful verification. */
  ghost predicate Counts(p: Plan, v: Verification) {
    && v.arenaBytes == p.arenaSize
    && v.copiedBytes == FileTotal(p.segments) && v.copiedBytes + v.zeroTailBytes == MemoryTotal(p.segments)
    && v.copiedBytes + v.zeroTailBytes + v.holeBytes == p.arenaSize
    && v.memberHeaders == HeaderCount(p.views) && v.memberHeaders + v.memberSegmentViews == |p.views|
  }

  /** `verify`: accepts exactly the arena of the plan, and counts each member-backed byte once. */
  method Verify(source: seq<byte>, p: Plan, arena: seq<byte>) returns (r: Result<Verification, StagingError>)
    requires PlanOk(source, p) && SourceOk(source, p.segments) && p.arenaSize < U64_LIMIT
    ensures |arena| != p.arenaSize ==> r == Err(DestinationSize)
    ensures |arena| == p.arenaSize ==> (r.Ok? <==> arena == Expected(source, p)) && (r.Err? ==> r.error == ReadbackMismatch)
    ensures r.Ok? ==> Counts(p, r.value) && r.value.memberFileBytes == |Union(ViewSpans(p.views))|
  {
    PlanCoherent(source, p);
    ExpectedShows(source, p);
    hide PlanOk, SourceOk, Laid, Coherent, AllShow, Expected, Union, FileTotal, MemoryTotal, HeaderCount;
    if |arena| != p.arenaSize {
      return Err(DestinationSize);
    }
    var outer := VerifySegments(source, arena, p);
    if outer.Err? {
      return Err(outer.error);
    }
    var views := VerifyViews(source, arena, p.views);
    assert views.Ok?;
    return Ok(Verification(p.arenaSize, outer.value.copied, outer.value.zeroTail, outer.value.hole,
                           views.value.headers, views.value.segments, views.value.bytes));
  }

  /** The older `verify`: accepts the same arenas, and counts a member-backed byte once for every view of it. */
  method VerifyInFull(source: seq<byte>, p: Plan, arena: seq<byte>) returns (r: Result<Verification, StagingError>)
    requires PlanOk(source, p) && SourceOk(source, p.segments) && p.arenaSize < U64_LIMIT && Fits64(FileBytes(p.views))
    ensures |arena| != p.arenaSize ==> r == Err(DestinationSize)
    ensures |arena| == p.arenaSize ==> (r.Ok? <==> arena == Expected(source, p)) && (r.Err? ==> r.error == ReadbackMismatch)
    ensures r.Ok? ==> Counts(p, r.value) && r.value.memberFileBytes == FileBytes(p.views)
  {
    PlanCoherent(source, p);
    ExpectedShows(source, p);
    hide PlanOk, SourceOk, Laid, Coherent, AllShow, Expected, FileBytes, FileTotal, MemoryTotal, HeaderCount;
    if |arena| != p.arenaSize {
      return Err(DestinationSize);
    }
    var outer := VerifySegments(source, arena, p);
    if outer.Err? {
      return Err(outer.error);
    }
    var views := VerifyViewsInFull(source, arena, p.views);
    assert views.Ok?;
    return Ok(Verification(p.arenaSize, outer.value.copied, outer.value.zeroTail, outer.value.hole,
                           views.value.headers, views.value.segments, views.value.bytes));
  }

  /** The readbacks of the plan of an accepted collection can count without overflow. */
  lemma PlanReadable(source: seq<byte>, i: C.Inspection, pageSize: nat)
    requires C.Accepted(source, i) && PageSizeOk(pageSize) && FromInspection(source, i, pageSize).Ok?
    ensures var p := FromInspection(source, i, pageSize).value;
            PlanOk(source, p) && SourceOk(source, p.segments) && p.arenaSize <= MAX_STAGING_SIZE && Fits64(FileBytes(p.views))
  {
    hide *;
    PlanExact(source, i, pageSize);
    var p := FromInspection(source, i, pageSize).value;
    PlanCoherent(source, p);
    LaidSource(source, p);
    SmallSource(source, i);
    SmallArena(i.collection.segments, pageSize);
    ViewsCountable(source, p);
    Small(|p.views|, FileBytes(p.views));
  }

  lemma SmallSource(source: seq<byte>, i: C.Inspection)
    requires C.Accepted(source, i)
    ensures |source| <= C.MAX_INPUT_SIZE
  {
  }

  lemma SmallArena(segments: seq<C.Segment>, pageSize: nat)
    requires PageSizeOk(pageSize) && ArenaSpan(segments, pageSize).Ok?
    ensures ArenaSpan(segments, pageSize).value.last <= MAX_STAGING_SIZE
  {
    hide BoundsFrom, RoundDown;
  }

  lemma Small(views: nat, n: nat)
    requires views <= C.MAX_MEMBERS + C.MAX_SEGMENTS && n <= views * 0x800_0000
    ensures Fits64(n)
  {
  }

  lemma ViewsCountable(source: seq<byte>, p: Plan)
    requires PlanOk(source, p) && |source| <= C.MAX_INPUT_SIZE
    ensures FileBytes(p.views) <= |p.views| * 0x800_0000
  {
    hide Owned, Ordered, StagedOk, SortedBy, FileBytes;
    forall k | 0 <= k < |p.views| ensures p.views[k].fileSize <= C.MAX_INPUT_SIZE {
      assert ViewOk(source, p.segments, p.views[k]);
    }
    FileBytesBound(p.views);
  }

  /** `stage_into`: fills the destination with the arena of the plan and reads it back. */
  method StageInto(source: seq<byte>, p: Plan, destination: array<byte>) returns (r: Result<Verification, StagingError>)
    requires PlanOk(source, p) && SourceOk(source, p.segments) && p.arenaSize < U64_LIMIT
    modifies destination
    ensures destination.Length != p.arenaSize ==> r == Err(DestinationSize) && destination[..] == old(destination[..])
    ensures destination.Length == p.arenaSize ==> r.Ok? && destination[..] == Expected(source, p)
    ensures r.Ok? ==> Counts(p, r.value) && r.value.memberFileBytes == |Union(ViewSpans(p.views))|
  {
    if destination.Length != p.arenaSize {
      return Err(DestinationSize);
    }
    hide Union, Counts;
    PlanCoherent(source, p);
    Fill(source, p, destination);
    r := Verify(source, p, destination[..]);
  }

  /** Clears the destination and copies every segment's file bytes over it. */
  method Fill(source: seq<byte>, p: Plan, destination: array<byte>)
    requires Laid(source, p) && SourceOk(source, p.segments) && destination.Length == p.arenaSize
    modifies destination
    ensures destination[..] == Expected(source, p)
  {
    hide ByteAt, Ordered;
    forall x | 0 <= x < destination.Length {
      destination[x] := 0;
    }
    NothingCopied(source);
    var j: nat := 0;
    while j < |p.segments|
      invariant j <= |p.segments|
      invariant SourceOk(source, p.segments[..j])
      invariant forall x: nat :: x < destination.Length ==> destination[x] == ByteAt(source, p.segments[..j], x)
    {
      var s := p.segments[j];
      assert StagedOk(source, p.arenaSize, s);
      ghost var before := destination[..];
      CopySlice(source, s, destination);
      forall x: nat | x < destination.Length ensures destination[x] == ByteAt(source, p.segments[..j + 1], x) {
        assert before[x] == ByteAt(source, p.segments[..j], x);
        CopyStep(source, p.segments, j, x);
      }
      j := j + 1;
    }
    assert p.segments[..j] == p.segments;
  }

  lemma NothingCopied(source: seq<byte>)
    ensures SourceOk(source, []) && forall x: nat :: ByteAt(source, [], x) == 0
  {
  }

  lemma CopyStep(source: seq<byte>, segments: seq<StagingSegment>, j: nat, x: nat)
    requires j < |segments| && SourceOk(source, segments)
    ensures SourceOk(source, segments[..j + 1]) && SourceOk(source, segments[..j])
    ensures ByteAt(source, segments[..j + 1], x)
         == if Copies(segments[j], x) then source[segments[j].fileOffset + (x - segments[j].destination)] else ByteAt(source, segments[..j], x)
  {
    assert segments[..j + 1][..j] == segments[..j];
  }

  method CopySlice(source: seq<byte>, s: StagingSegment, destination: array<byte>)
    requires s.fileOffset + s.fileSize <= |source| && s.destination + s.fileSize <= destination.Length
    modifies destination
    ensures forall x: nat :: x < destination.Length ==>
              destination[x] == if Copies(s, x) then source[s.fileOffset + (x - s.destination)] else old(destination[..])[x]
  {
    var k: nat := 0;
    while k < s.fileSize
      invariant k <= s.fileSize
      invariant forall x: nat :: x < destination.Length ==>
                  destination[x] == if s.destination <= x < s.destination + k then source[s.fileOffset + (x - s.destination)] else old(destination[..])[x]
    {
      destination[s.destination + k] := source[s.fileOffset + k];
      k := k + 1;
    }
  }

  //////////////////////////////////////////////////////////////////////////////
  // The counts in the collection's terms
  //////////////////////////////////////////////////////////////////////////////

  lemma {:induction false} FileTotalIs(segments: seq<StagingSegment>)
    ensures FileTotal(segments) == Sum(segments, StagedFile) && MemoryTotal(segments) == Sum(segments, StagedMemory)
  {
    if segments != [] {
      var n := |segments| - 1;
      FileTotalIs(segments[..n]);
      SumLast(segments, StagedFile);
      SumLast(segments, StagedMemory);
    }
  }

  lemma {:induction false} HeaderCountIs(views: seq<View>)
    ensures HeaderCount(views) == Sum(views, HeaderFlag) && |views| - HeaderCount(views) == Sum(views, SegmentFlag)
  {
    if views != [] {
      var n := |views| - 1;
      HeaderCountIs(views[..n]);
      SumLast(views, HeaderFlag);
      SumLast(views, SegmentFlag);
    }
  }

  lemma SumLast<T>(s: seq<T>, f: T -> int)
    requires s != []
    ensures Sum(s, f) == Sum(s[..|s| - 1], f) + f(s[|s| - 1])
  {
    var n := |s| - 1;
    assert s == s[..n] + [s[n]];
    SumJoin(s[..n], [s[n]], f);
  }

  /**
   The counts of a verified arena of an accepted collection: the file bytes and the memory of its nonempty
   segments, one header for every member and one view for every nonempty member segment.
   */
  lemma CountsExact(source: seq<byte>, i: C.Inspection, pageSize: nat, v: Verification)
    requires C.Accepted(source, i) && PageSizeOk(pageSize) && FromInspection(source, i, pageSize).Ok?
    requires Counts(FromInspection(source, i, pageSize).value, v)
    ensures v.copiedBytes == FileSizes(i.collection.segments)
    ensures v.copiedBytes + v.zeroTailBytes == MemorySizes(i.collection.segments)
    ensures v.holeBytes + MemorySizes(i.collection.segments) == v.arenaBytes
    ensures v.memberHeaders == |i.members| && v.memberSegmentViews == MemberSegments(i.members)
  {
    hide FromInspection, C.Accepted;
    var p := FromInspection(source, i, pageSize).value;
    AmountsExact(source, i, pageSize);
    FileTotalIs(p.segments);
    HeaderCountIs(p.views);
  }
}
