/**
 The staging plan of an accepted collection: where every segment goes in an arena, which views the
 members have of it, the copy into the arena and its readback.
 */
module Staging {
  import opened Wrappers
  import opened Words
  import opened Sorting
  import opened Spans
  import opened Collection

  const MAX_STAGING_SIZE: nat := 0x800_0000

  datatype StagingError = EmptyImage | AddressOverflow | ArenaTooLarge | DestinationSize | InvalidMapping | ReadbackMismatch

  datatype StagingSegment = StagingSegment(
    index: nat,
    virtualAddress: nat,
    destination: nat,
    memorySize: nat,
    fileOffset: nat,
    fileSize: nat) {
    function End(): nat {
      destination + memorySize
    }
  }

  datatype View = View(destination: nat, memorySize: nat, fileOffset: nat, fileSize: nat, isHeader: bool) {
    function FileEnd(): nat {
      destination + fileSize
    }
  }

  datatype Plan = Plan(
    segments: seq<StagingSegment>,
    views: seq<View>,
    minimum: nat,
    arenaSize: nat,
    headerOffset: nat,
    entryOffset: nat)

  //////////////////////////////////////////////////////////////////////////////
  // Planning
  //////////////////////////////////////////////////////////////////////////////

  datatype Bounds = Bounds(first: nat, last: nat)

  /** The lowest address and the highest end of the nonempty segments. */
  function BoundsFrom(segments: seq<Segment>, b: Bounds): Result<Bounds, StagingError>
    decreases |segments|
  {
    if segments == [] then Ok(b)
    else if segments[0].memorySize == 0 then BoundsFrom(segments[1..], b)
    else if !Fits64(segments[0].End()) then Err(AddressOverflow)
    else
      BoundsFrom(segments[1..], Bounds(if segments[0].address < b.first then segments[0].address else b.first,
                                       if segments[0].End() > b.last then segments[0].End() else b.last))
  }

  function RelativeRange(address: u64, size: nat, base: nat, arena: nat): Result<nat, StagingError> {
    if address < base then Err(InvalidMapping)
    else if !Fits64(address - base + size) then Err(AddressOverflow)
    else if address - base + size > arena then Err(InvalidMapping)
    else Ok(address - base)
  }

  function SourceRange(source: seq<byte>, offset: nat, size: nat): Result<nat, StagingError> {
    if !Fits64(offset + size) then Err(AddressOverflow)
    else if offset + size > |source| then Err(InvalidMapping)
    else Ok(offset)
  }

  function PlanSegments(source: seq<byte>, segments: seq<Segment>, index: nat, base: nat, arena: nat): Result<seq<StagingSegment>, StagingError>
    requires index <= |segments|
    decreases |segments| - index
  {
    if index == |segments| then Ok([])
    else
      var s := segments[index];
      if s.memorySize == 0 then PlanSegments(source, segments, index + 1, base, arena)
      else
        var destination :- RelativeRange(s.address, s.memorySize, base, arena);
        var from :- SourceRange(source, s.file.offset, s.file.size);
        var rest :- PlanSegments(source, segments, index + 1, base, arena);
        Ok([StagingSegment(index, s.address, destination, s.memorySize, from, s.file.size)] + rest)
  }

  function Destination(s: StagingSegment): int {
    s.destination
  }

  function ViewDestination(v: View): int {
    v.destination
  }

  /** Each segment ends before the next one starts. */
  predicate Ordered(segments: seq<StagingSegment>) {
    forall i :: 0 <= i < |segments| - 1 ==> segments[i].End() <= segments[i + 1].destination
  }

  /** A view is memory of one outer segment, and its file bytes are that segment's at the same displacement. */
  predicate Owns(outer: StagingSegment, v: View) {
    && v.destination >= outer.destination && v.destination + v.memorySize <= outer.End()
    && (v.fileSize == 0 ||
        (v.fileOffset >= outer.fileOffset && v.fileOffset + v.fileSize <= outer.fileOffset + outer.fileSize &&
         v.destination - outer.destination == v.fileOffset - outer.fileOffset))
  }

  predicate Owned(segments: seq<StagingSegment>, v: View) {
    exists i :: 0 <= i < |segments| && Owns(segments[i], v)
  }

  function ViewOf(source: seq<byte>, segments: seq<StagingSegment>, base: nat, arena: nat,
                  address: u64, memorySize: nat, file: FileRange, isHeader: bool): Result<View, StagingError> {
    var destination :- RelativeRange(address, memorySize, base, arena);
    var from :- SourceRange(source, file.offset, file.size);
    var v := View(destination, memorySize, from, file.size, isHeader);
    if file.size > memorySize || !Owned(segments, v) then Err(InvalidMapping) else Ok(v)
  }

  function SegmentViews(source: seq<byte>, staged: seq<StagingSegment>, base: nat, arena: nat, segments: seq<Segment>): Result<seq<View>, StagingError>
    decreases |segments|
  {
    if segments == [] then Ok([])
    else if segments[0].memorySize == 0 then SegmentViews(source, staged, base, arena, segments[1..])
    else
      var v :- ViewOf(source, staged, base, arena, segments[0].address, segments[0].memorySize, segments[0].file, false);
      var rest :- SegmentViews(source, staged, base, arena, segments[1..]);
      Ok([v] + rest)
  }

  function MemberViews(source: seq<byte>, staged: seq<StagingSegment>, base: nat, arena: nat, members: seq<Image>): Result<seq<View>, StagingError>
    decreases |members|
  {
    if members == [] then Ok([])
    else
      var m := members[0];
      var header :- ViewOf(source, staged, base, arena, m.headerAddress, m.HeaderSize(), FileRange(m.headerFileOffset, m.HeaderSize()), true);
      var own :- SegmentViews(source, staged, base, arena, m.segments);
      var rest :- MemberViews(source, staged, base, arena, members[1..]);
      Ok([header] + own + rest)
  }

  function EntryAddress(image: Image): Result<u64, StagingError> {
    match image.entry
    case Some(UnixThread64(ip)) => Ok(ip)
    case Some(ArmThread64(ip, _, _, _)) => Ok(ip)
    case _ => Err(InvalidMapping)
  }

  /** The thread command of the image starts at the address. */
  predicate EntryAt(image: Image, address: nat) {
    && image.entry.Some?
    && match image.entry.value
       case UnixThread64(ip) => address == ip
       case ArmThread64(ip, _, _, _) => address == ip
       case _ => false
  }

  lemma EntryIs(image: Image)
    requires EntryAddress(image).Ok?
    ensures EntryAt(image, EntryAddress(image).value)
  {
  }

  predicate PageSizeOk(pageSize: nat) {
    pageSize == 4096 || pageSize == 16384
  }

  /** The rounded base and span of the arena. */
  function ArenaSpan(segments: seq<Segment>, pageSize: nat): Result<Bounds, StagingError>
    requires PageSizeOk(pageSize)
  {
    var b :- BoundsFrom(segments, Bounds(U64_LIMIT - 1, 0));
    if b.first >= U64_LIMIT - 1 || b.last <= b.first then Err(EmptyImage)
    else if !Fits64(b.last + (pageSize - 1)) then Err(AddressOverflow)
    else if RoundDown(b.last + (pageSize - 1), pageSize) < RoundDown(b.first, pageSize) then Err(AddressOverflow)
    else
      var arena := RoundDown(b.last + (pageSize - 1), pageSize) - RoundDown(b.first, pageSize);
      if arena == 0 || arena > MAX_STAGING_SIZE then Err(ArenaTooLarge)
      else Ok(Bounds(RoundDown(b.first, pageSize), arena))
  }

  /** `from_inspection`. */
  function FromInspection(source: seq<byte>, i: Inspection, pageSize: nat): Result<Plan, StagingError>
    requires PageSizeOk(pageSize)
  {
    var span :- ArenaSpan(i.collection.segments, pageSize);
    var base, arena := span.first, span.last;
    var planned :- PlanSegments(source, i.collection.segments, 0, base, arena);
    var segments := Sort(planned, Destination);
    if !Ordered(segments) then Err(InvalidMapping) else
    var header :- RelativeRange(i.collection.headerAddress, i.collection.HeaderSize(), base, arena);
    var address :- EntryAddress(i.collection);
    var entry :- RelativeRange(address, 1, base, arena);
    var views :- MemberViews(source, segments, base, arena, i.members);
    Ok(Plan(segments, Sort(views, ViewDestination), base, arena, header, entry))
  }

  //////////////////////////////////////////////////////////////////////////////
  // What a plan promises
  //////////////////////////////////////////////////////////////////////////////

  predicate StagedOk(source: seq<byte>, arena: nat, s: StagingSegment) {
    && 0 < s.memorySize && s.fileSize <= s.memorySize && s.End() <= arena
    && s.fileOffset + s.fileSize <= |source|
  }

  predicate ViewOk(source: seq<byte>, segments: seq<StagingSegment>, v: View) {
    v.fileSize <= v.memorySize && v.fileOffset + v.fileSize <= |source| && Owned(segments, v)
  }

  ghost predicate PlanOk(source: seq<byte>, p: Plan) {
    && Ordered(p.segments)
    && (forall i :: 0 <= i < |p.segments| ==> StagedOk(source, p.arenaSize, p.segments[i]))
    && SortedBy(p.views, ViewDestination)
    && (forall i :: 0 <= i < |p.views| ==> ViewOk(source, p.segments, p.views[i]))
  }

  //////////////////////////////////////////////////////////////////////////////
  // Planning an accepted collection cannot find a mapping invalid
  //////////////////////////////////////////////////////////////////////////////

  /** A segment lies between the bounds. */
  predicate Inside(s: Segment, first: int, last: int) {
    s.memorySize != 0 ==> first <= s.address && s.End() <= last
  }

  /** The lowest address of a nonempty segment, and the highest end. */
  ghost predicate LowestAt(segments: seq<Segment>, a: int) {
    && (exists k :: 0 <= k < |segments| && segments[k].memorySize != 0 && segments[k].address == a)
    && (forall k :: 0 <= k < |segments| && segments[k].memorySize != 0 ==> a <= segments[k].address)
  }

  ghost predicate HighestAt(segments: seq<Segment>, e: int) {
    && (exists k :: 0 <= k < |segments| && segments[k].memorySize != 0 && segments[k].address + segments[k].memorySize == e)
    && (forall k :: 0 <= k < |segments| && segments[k].memorySize != 0 ==> segments[k].address + segments[k].memorySize <= e)
  }

  /** Each bound is the one given or that of a nonempty segment. */
  lemma {:induction false} BoundsReached(segments: seq<Segment>, b: Bounds)
    requires BoundsFrom(segments, b).Ok?
    ensures var c := BoundsFrom(segments, b).value;
            && (c.first == b.first || exists k :: 0 <= k < |segments| && segments[k].memorySize != 0 && segments[k].address == c.first)
            && (c.last == b.last || exists k :: 0 <= k < |segments| && segments[k].memorySize != 0 && segments[k].address + segments[k].memorySize == c.last)
    decreases |segments|
  {
    if segments != [] {
      var s := segments[0];
      var next := if s.memorySize == 0 then b else Bounds(if s.address < b.first then s.address else b.first, if s.End() > b.last then s.End() else b.last);
      BoundsReached(segments[1..], next);
      var c := BoundsFrom(segments, b).value;
      var rest := segments[1..];
      if k :| 0 <= k < |rest| && rest[k].memorySize != 0 && rest[k].address == c.first {
        assert segments[k + 1] == rest[k];
      }
      if k :| 0 <= k < |rest| && rest[k].memorySize != 0 && rest[k].address + rest[k].memorySize == c.last {
        assert segments[k + 1] == rest[k];
      }
    }
  }

  /** With a nonempty segment the bounds are the lowest address and the highest end. */
  lemma BoundsExact(segments: seq<Segment>, k: nat)
    requires forall j :: 0 <= j < |segments| ==> Fits64(segments[j].End())
    requires k < |segments| && segments[k].memorySize != 0
    ensures BoundsFrom(segments, Bounds(U64_LIMIT - 1, 0)).Ok?
    ensures var c := BoundsFrom(segments, Bounds(U64_LIMIT - 1, 0)).value;
            LowestAt(segments, c.first) && HighestAt(segments, c.last)
  {
    hide BoundsFrom;
    var b := Bounds(U64_LIMIT - 1, 0);
    BoundsHold(segments, b);
    BoundsReached(segments, b);
    var c := BoundsFrom(segments, b).value;
    assert Inside(segments[k], c.first, c.last) && Fits64(segments[k].End());
    forall j | 0 <= j < |segments| && segments[j].memorySize != 0 ensures c.first <= segments[j].address && segments[j].address + segments[j].memorySize <= c.last {
      assert Inside(segments[j], c.first, c.last);
    }
  }

  lemma {:induction false} BoundsHold(segments: seq<Segment>, b: Bounds)
    requires forall k :: 0 <= k < |segments| ==> Fits64(segments[k].End())
    ensures BoundsFrom(segments, b).Ok?
    ensures var c := BoundsFrom(segments, b).value;
            && c.first <= b.first && b.last <= c.last
            && (b.last < U64_LIMIT ==> c.last < U64_LIMIT)
            && forall k :: 0 <= k < |segments| ==> Inside(segments[k], c.first, c.last)
    decreases |segments|
  {
    if segments != [] {
      assert Fits64(segments[0].End());
      var s := segments[0];
      var next := if s.memorySize == 0 then b else Bounds(if s.address < b.first then s.address else b.first, if s.End() > b.last then s.End() else b.last);
      BoundsHold(segments[1..], next);
      var c := BoundsFrom(segments, b).value;
      forall k | 0 <= k < |segments| ensures Inside(segments[k], c.first, c.last) {
        assert k > 0 ==> segments[1..][k - 1] == segments[k];
      }
    }
  }

  lemma Rounded(x: u64, pageSize: nat)
    requires PageSizeOk(pageSize)
    ensures RoundDown(x, pageSize) == x - x % pageSize
  {
    hide BitAnd;
    assert Pow2(12) == 4096 && Pow2(14) == 16384;
    AndNotLow(x, if pageSize == 4096 then 12 else 14);
  }

  /**
   The arena runs from the page of the lowest address of a nonempty segment to the page boundary at or after
   the highest end; it is refused exactly when that boundary is past the address space or too far away.
   */
  lemma SpanExact(segments: seq<Segment>, pageSize: nat, k: nat, low: nat, high: nat)
    requires PageSizeOk(pageSize)
    requires forall j :: 0 <= j < |segments| ==> Fits64(segments[j].End())
    requires k < |segments| && segments[k].memorySize != 0
    requires LowestAt(segments, low) && HighestAt(segments, high)
    ensures var end := high + (pageSize - 1);
            ArenaSpan(segments, pageSize) ==
              if end >= U64_LIMIT then Err(AddressOverflow)
              else if end - end % pageSize - (low - low % pageSize) > MAX_STAGING_SIZE then Err(ArenaTooLarge)
              else Ok(Bounds(low - low % pageSize, end - end % pageSize - (low - low % pageSize)))
  {
    hide RoundDown, BoundsFrom;
    BoundsExact(segments, k);
    var b := BoundsFrom(segments, Bounds(U64_LIMIT - 1, 0)).value;
    assert b.first == low && b.last == high;
    assert Fits64(segments[k].End());
    if Fits64(b.last + (pageSize - 1)) {
      Rounded(b.first, pageSize);
      Rounded(b.last + (pageSize - 1), pageSize);
    }
  }

  /** Every segment lies in the arena. */
  lemma SpanHolds(segments: seq<Segment>, pageSize: nat, k: nat)
    requires PageSizeOk(pageSize)
    requires forall j :: 0 <= j < |segments| ==> Fits64(segments[j].End())
    requires k < |segments| && segments[k].memorySize != 0
    ensures match ArenaSpan(segments, pageSize)
            case Ok(s) => s.last <= MAX_STAGING_SIZE && forall j :: 0 <= j < |segments| ==> Inside(segments[j], s.first, s.first + s.last)
            case Err(e) => e == AddressOverflow || e == ArenaTooLarge
  {
    hide ArenaSpan, BoundsFrom, LowestAt, HighestAt;
    BoundsExact(segments, k);
    var b := BoundsFrom(segments, Bounds(U64_LIMIT - 1, 0)).value;
    SpanExact(segments, pageSize, k, b.first, b.last);
    if ArenaSpan(segments, pageSize).Ok? {
      var s := ArenaSpan(segments, pageSize).value;
      forall j | 0 <= j < |segments| ensures Inside(segments[j], s.first, s.first + s.last) {
        Between(segments, b.first, b.last, j);
      }
    }
  }

  lemma Between(segments: seq<Segment>, low: nat, high: nat, j: nat)
    requires LowestAt(segments, low) && HighestAt(segments, high) && j < |segments|
    ensures Inside(segments[j], low, high)
  {
  }

  /** The staged form of a segment of the collection. */
  predicate Stages(t: StagingSegment, segments: seq<Segment>, base: nat) {
    && t.index < |segments| && segments[t.index].memorySize != 0 && base <= segments[t.index].address
    && t == StagingSegment(t.index, segments[t.index].address, segments[t.index].address - base, segments[t.index].memorySize,
                           segments[t.index].file.offset, segments[t.index].file.size)
  }

  predicate HasStaged(r: seq<StagingSegment>, segments: seq<Segment>, k: nat, base: nat) {
    k < |segments| && exists j :: 0 <= j < |r| && r[j].index == k && Stages(r[j], segments, base)
  }

  predicate ApartStaged(a: StagingSegment, b: StagingSegment) {
    a.End() <= b.destination || b.End() <= a.destination
  }

  ghost predicate Placeable(source: seq<byte>, segments: seq<Segment>, base: nat, arena: nat) {
    && arena <= MAX_STAGING_SIZE
    && (forall k :: 0 <= k < |segments| ==> SegmentOk(source, segments[k]) && Inside(segments[k], base, base + arena))
    && Pairwise(segments, ApartInMemory)
  }

  lemma PlaceableAt(source: seq<byte>, segments: seq<Segment>, base: nat, arena: nat, k: nat)
    requires Placeable(source, segments, base, arena) && k < |segments|
    ensures SegmentOk(source, segments[k]) && Inside(segments[k], base, base + arena) && arena <= MAX_STAGING_SIZE
  {
  }

  function StagedForm(segments: seq<Segment>, k: nat, base: nat): StagingSegment
    requires k < |segments| && base <= segments[k].address
  {
    StagingSegment(k, segments[k].address, segments[k].address - base, segments[k].memorySize, segments[k].file.offset, segments[k].file.size)
  }

  /** One segment: its place and its file bytes pass every check. */
  lemma SegmentPlaced(source: seq<byte>, segments: seq<Segment>, index: nat, base: nat, arena: nat)
    requires index < |segments| && Placeable(source, segments, base, arena) && segments[index].memorySize != 0
    ensures base <= segments[index].address
    ensures var t := StagedForm(segments, index, base);
            && Stages(t, segments, base) && StagedOk(source, arena, t)
            && RelativeRange(segments[index].address, segments[index].memorySize, base, arena) == Ok(t.destination)
            && SourceRange(source, segments[index].file.offset, segments[index].file.size) == Ok(t.fileOffset)
  {
    PlaceableAt(source, segments, base, arena, index);
    hide Placeable, Pairwise;
  }

  lemma {:induction false} PlanSegmentsHold(source: seq<byte>, segments: seq<Segment>, index: nat, base: nat, arena: nat)
    requires index <= |segments| && Placeable(source, segments, base, arena)
    ensures PlanSegments(source, segments, index, base, arena).Ok?
    ensures var r := PlanSegments(source, segments, index, base, arena).value;
            && (forall j :: 0 <= j < |r| ==> index <= r[j].index && Stages(r[j], segments, base) && StagedOk(source, arena, r[j]))
            && (forall k: nat :: index <= k < |segments| && segments[k].memorySize != 0 ==> HasStaged(r, segments, k, base))
            && Pairwise(r, ApartStaged)
    decreases |segments| - index
  {
    hide Placeable, Stages, StagedOk, HasStaged, Pairwise, RelativeRange, SourceRange;
    if index < |segments| {
      PlanSegmentsHold(source, segments, index + 1, base, arena);
      var rest := PlanSegments(source, segments, index + 1, base, arena).value;
      if segments[index].memorySize != 0 {
        SegmentPlaced(source, segments, index, base, arena);
        PlaceableParts(source, segments, base, arena);
        AddStaged(source, segments, index, base, StagedForm(segments, index, base), rest);
      }
    } else {
      NothingStaged();
    }
  }

  lemma NothingStaged()
    ensures Pairwise([], ApartStaged)
  {
  }

  lemma AddStaged(source: seq<byte>, segments: seq<Segment>, index: nat, base: nat, t: StagingSegment, rest: seq<StagingSegment>)
    requires index < |segments| && t.index == index && Stages(t, segments, base)
    requires Pairwise(segments, ApartInMemory) && Pairwise(rest, ApartStaged)
    requires forall j :: 0 <= j < |rest| ==> index + 1 <= rest[j].index && Stages(rest[j], segments, base)
    requires forall k: nat :: index + 1 <= k < |segments| && segments[k].memorySize != 0 ==> HasStaged(rest, segments, k, base)
    ensures Pairwise([t] + rest, ApartStaged)
    ensures forall k: nat :: index <= k < |segments| && segments[k].memorySize != 0 ==> HasStaged([t] + rest, segments, k, base)
  {
    hide Pairwise, Stages, HasStaged, ApartStaged;
    var r := [t] + rest;
    forall k: nat | index <= k < |segments| && segments[k].memorySize != 0 ensures HasStaged(r, segments, k, base) {
      HasStagedCons(t, rest, segments, k, base);
    }
    forall j | 0 <= j < |rest| ensures ApartStaged(t, rest[j]) {
      StagedApart(segments, base, t, rest[j]);
    }
    AllApart(t, rest);
    PairwiseCons(t, rest, ApartStaged);
  }

  lemma AllApart(t: StagingSegment, rest: seq<StagingSegment>)
    requires forall j :: 0 <= j < |rest| ==> ApartStaged(t, rest[j])
    ensures All(rest, t, ApartStaged)
  {
  }

  lemma HasStagedCons(t: StagingSegment, rest: seq<StagingSegment>, segments: seq<Segment>, k: nat, base: nat)
    requires k < |segments| && Stages(t, segments, base) && (t.index == k || HasStaged(rest, segments, k, base))
    ensures HasStaged([t] + rest, segments, k, base)
  {
    hide Stages;
    var r := [t] + rest;
    if t.index == k {
      assert r[0].index == k && Stages(r[0], segments, base);
    } else {
      var j :| 0 <= j < |rest| && rest[j].index == k && Stages(rest[j], segments, base);
      assert r[j + 1] == rest[j];
    }
  }

  lemma StagedApart(segments: seq<Segment>, base: nat, t: StagingSegment, u: StagingSegment)
    requires Pairwise(segments, ApartInMemory) && Stages(t, segments, base) && Stages(u, segments, base) && t.index < u.index
    ensures ApartStaged(t, u)
  {
    assert ApartInMemory(segments[t.index], segments[u.index]);
  }

  /** After sorting, apart segments are in order. */
  lemma ApartIsOrdered(s: seq<StagingSegment>)
    requires Pairwise(s, ApartStaged) && forall i :: 0 <= i < |s| ==> s[i].memorySize > 0
    ensures Ordered(Sort(s, Destination))
  {
    var t := Sort(s, Destination);
    SortSorted(s, Destination);
    SortPairwise(s, Destination, ApartStaged);
    forall i | 0 <= i < |t| - 1 ensures t[i].End() <= t[i + 1].destination {
      SortMembers(s, Destination, t[i]);
      SortMembers(s, Destination, t[i + 1]);
      assert ApartStaged(t[i], t[i + 1]) && Destination(t[i]) <= Destination(t[i + 1]);
    }
  }

  /** The sorted segments of a plan: every nonempty segment is staged, nothing else is, and they are in order. */
  ghost predicate Planned(source: seq<byte>, segments: seq<Segment>, base: nat, arena: nat, staged: seq<StagingSegment>) {
    && Ordered(staged)
    && (forall j :: 0 <= j < |staged| ==> Stages(staged[j], segments, base) && StagedOk(source, arena, staged[j]))
    && (forall k: nat :: k < |segments| && segments[k].memorySize != 0 ==> HasStaged(staged, segments, k, base))
  }

  lemma SortedPlan(source: seq<byte>, segments: seq<Segment>, base: nat, arena: nat)
    requires Placeable(source, segments, base, arena)
    ensures PlanSegments(source, segments, 0, base, arena).Ok?
    ensures Planned(source, segments, base, arena, Sort(PlanSegments(source, segments, 0, base, arena).value, Destination))
  {
    PlanSegmentsHold(source, segments, 0, base, arena);
    hide *;
    var r := PlanSegments(source, segments, 0, base, arena).value;
    StagedNonempty(source, arena, r);
    ApartIsOrdered(r);
    var t := Sort(r, Destination);
    forall j | 0 <= j < |t| ensures t[j] in r {
      SortMembers(r, Destination, t[j]);
    }
    forall k: nat | k < |segments| && segments[k].memorySize != 0 ensures HasStaged(t, segments, k, base) {
      SortKeepsStaged(r, segments, k, base);
    }
    PlannedHolds(source, segments, base, arena, t);
  }

  lemma PlannedHolds(source: seq<byte>, segments: seq<Segment>, base: nat, arena: nat, staged: seq<StagingSegment>)
    requires Ordered(staged)
    requires forall j :: 0 <= j < |staged| ==> Stages(staged[j], segments, base) && StagedOk(source, arena, staged[j])
    requires forall k: nat :: k < |segments| && segments[k].memorySize != 0 ==> HasStaged(staged, segments, k, base)
    ensures Planned(source, segments, base, arena, staged)
  {
    hide Ordered, Stages, StagedOk, HasStaged;
  }

  lemma SortKeepsStaged(r: seq<StagingSegment>, segments: seq<Segment>, k: nat, base: nat)
    requires HasStaged(r, segments, k, base)
    ensures HasStaged(Sort(r, Destination), segments, k, base)
  {
    hide Sort, Stages;
    var j :| 0 <= j < |r| && r[j].index == k && Stages(r[j], segments, base);
    SortMembers(r, Destination, r[j]);
    var t := Sort(r, Destination);
    var i :| 0 <= i < |t| && t[i] == r[j];
  }

  lemma StagedNonempty(source: seq<byte>, arena: nat, r: seq<StagingSegment>)
    requires forall j :: 0 <= j < |r| ==> StagedOk(source, arena, r[j])
    ensures forall i :: 0 <= i < |r| ==> r[i].memorySize > 0
  {
    forall i | 0 <= i < |r| ensures r[i].memorySize > 0 {
      assert StagedOk(source, arena, r[i]);
    }
  }

  /** A member's memory lies in the one segment that shows its file bytes. */
  lemma ViewFits(source: seq<byte>, segments: seq<Segment>, base: nat, arena: nat, staged: seq<StagingSegment>, k: nat,
                 address: u64, memorySize: nat, file: FileRange, isHeader: bool)
    requires Placeable(source, segments, base, arena) && Planned(source, segments, base, arena, staged)
    requires k < |segments| && segments[k].memorySize != 0
    requires segments[k].address <= address && address + memorySize <= segments[k].End()
    requires file.size <= memorySize && file.End() <= |source| && Fits64(file.End())
    requires file.size != 0 ==> Shows(segments[k], file, address)
    ensures ViewOf(source, staged, base, arena, address, memorySize, file, isHeader).Ok?
    ensures var v := ViewOf(source, staged, base, arena, address, memorySize, file, isHeader).value;
            && ViewOk(source, staged, v) && v == View(address - base, memorySize, file.offset, file.size, isHeader)
  {
    hide Placeable, Planned, Stages, Owns, Owned, RelativeRange, SourceRange, Shows, SegmentOk, Inside, HasStaged;
    var s := segments[k];
    PlaceableAt(source, segments, base, arena, k);
    PlannedHas(source, segments, base, arena, staged, k);
    ViewPlaced(source, s, base, arena, address, memorySize, file);
    StagedOwns(segments, base, staged, k, address, memorySize, file, isHeader);
  }

  lemma StagedOwns(segments: seq<Segment>, base: nat, staged: seq<StagingSegment>, k: nat,
                   address: u64, memorySize: nat, file: FileRange, isHeader: bool)
    requires HasStaged(staged, segments, k, base) && base <= address
    requires segments[k].address <= address && address + memorySize <= segments[k].End()
    requires file.size != 0 ==> Shows(segments[k], file, address)
    ensures Owned(staged, View(address - base, memorySize, file.offset, file.size, isHeader))
  {
    hide Stages, Owns, Shows;
    var j :| 0 <= j < |staged| && staged[j].index == k && Stages(staged[j], segments, base);
    SegmentOwns(segments, k, base, staged[j], address, memorySize, file, isHeader);
  }

  lemma ViewPlaced(source: seq<byte>, s: Segment, base: nat, arena: nat, address: u64, memorySize: nat, file: FileRange)
    requires SegmentOk(source, s) && Inside(s, base, base + arena) && arena <= MAX_STAGING_SIZE && s.memorySize != 0
    requires s.address <= address && address + memorySize <= s.End() && file.End() <= |source| && Fits64(file.End())
    ensures base <= address && RelativeRange(address, memorySize, base, arena) == Ok(address - base)
    ensures SourceRange(source, file.offset, file.size) == Ok(file.offset)
  {
  }

  lemma SegmentOwns(segments: seq<Segment>, k: nat, base: nat, t: StagingSegment, address: u64, memorySize: nat, file: FileRange, isHeader: bool)
    requires Stages(t, segments, base) && t.index == k && base <= address
    requires segments[k].address <= address && address + memorySize <= segments[k].End()
    requires file.size != 0 ==> Shows(segments[k], file, address)
    ensures Owns(t, View(address - base, memorySize, file.offset, file.size, isHeader))
  {
  }

  lemma PlannedHas(source: seq<byte>, segments: seq<Segment>, base: nat, arena: nat, staged: seq<StagingSegment>, k: nat)
    requires Planned(source, segments, base, arena, staged) && k < |segments| && segments[k].memorySize != 0
    ensures HasStaged(staged, segments, k, base)
  {
    hide HasStaged, Ordered, Stages, StagedOk;
  }

  /** The segment that shows a nonempty file range and the segment that maps its memory are the same. */
  lemma OneOwner(source: seq<byte>, segments: seq<Segment>, s: Segment) returns (k: nat)
    requires forall i :: 0 <= i < |segments| ==> SegmentOk(source, segments[i])
    requires Pairwise(segments, ApartInMemory) && MemberSegmentOk(segments, s) && s.memorySize != 0
    ensures k < |segments| && segments[k].memorySize != 0
    ensures segments[k].address <= s.address && s.End() <= segments[k].End()
    ensures s.file.size != 0 ==> Shows(segments[k], s.file, s.address)
  {
    hide Pairwise;
    k :| 0 <= k < |segments| && MapsRange(segments[k], s.address, s.memorySize);
    if s.file.size != 0 {
      var j :| 0 <= j < |segments| && Shows(segments[j], s.file, s.address);
      assert SegmentOk(source, segments[j]);
      if j != k {
        MemoryApart(segments, j, k);
      }
    }
  }

  lemma MemoryApart(segments: seq<Segment>, j: nat, k: nat)
    requires Pairwise(segments, ApartInMemory) && j < |segments| && k < |segments| && j != k
    ensures ApartInMemory(segments[j], segments[k])
  {
    assert ApartInMemory(segments[if j < k then j else k], segments[if j < k then k else j]);
  }

  lemma {:induction false} SegmentViewsHold(source: seq<byte>, outer: seq<Segment>, base: nat, arena: nat, staged: seq<StagingSegment>, segments: seq<Segment>)
    requires Placeable(source, outer, base, arena) && Planned(source, outer, base, arena, staged)
    requires forall i :: 0 <= i < |segments| ==> SegmentOk(source, segments[i]) && MemberSegmentOk(outer, segments[i])
    ensures SegmentViews(source, staged, base, arena, segments).Ok?
    ensures var r := SegmentViews(source, staged, base, arena, segments).value;
            |r| <= |segments| && forall i :: 0 <= i < |r| ==> ViewOk(source, staged, r[i])
    decreases |segments|
  {
    hide Placeable, Planned, MemberSegmentOk, ViewOf, ViewOk;
    if segments != [] {
      SegmentViewsHold(source, outer, base, arena, staged, segments[1..]);
      var s := segments[0];
      assert SegmentOk(source, s);
      if s.memorySize != 0 {
        PlaceableParts(source, outer, base, arena);
        var k := OneOwner(source, outer, s);
        ViewFits(source, outer, base, arena, staged, k, s.address, s.memorySize, s.file, false);
      }
    }
  }

  lemma PlaceableParts(source: seq<byte>, segments: seq<Segment>, base: nat, arena: nat)
    requires Placeable(source, segments, base, arena)
    ensures forall i :: 0 <= i < |segments| ==> SegmentOk(source, segments[i])
    ensures Pairwise(segments, ApartInMemory)
  {
  }

  lemma HeaderView(source: seq<byte>, outer: seq<Segment>, base: nat, arena: nat, staged: seq<StagingSegment>, m: Image)
    requires Placeable(source, outer, base, arena) && Planned(source, outer, base, arena, staged)
    requires ImageOk(source, m) && MemberOk(outer, m)
    ensures ViewOf(source, staged, base, arena, m.headerAddress, m.HeaderSize(), Header(m), true).Ok?
    ensures ViewOk(source, staged, ViewOf(source, staged, base, arena, m.headerAddress, m.HeaderSize(), Header(m), true).value)
  {
    hide Planned, ViewOf, ViewOk, MemberSegmentOk, Pairwise, FixupsOk;
    var k :| 0 <= k < |outer| && Shows(outer[k], Header(m), m.headerAddress);
    assert SegmentOk(source, outer[k]);
    ViewFits(source, outer, base, arena, staged, k, m.headerAddress, m.HeaderSize(), Header(m), true);
  }

  lemma {:induction false} MemberViewsHold(source: seq<byte>, outer: seq<Segment>, base: nat, arena: nat, staged: seq<StagingSegment>, members: seq<Image>)
    requires Placeable(source, outer, base, arena) && Planned(source, outer, base, arena, staged)
    requires forall i :: 0 <= i < |members| ==> ImageOk(source, members[i]) && MemberOk(outer, members[i])
    ensures MemberViews(source, staged, base, arena, members).Ok?
    ensures var r := MemberViews(source, staged, base, arena, members).value;
            |r| <= |members| + SegmentCount(members) && forall i :: 0 <= i < |r| ==> ViewOk(source, staged, r[i])
    decreases |members|
  {
    hide Placeable, Planned, ViewOf, ViewOk, ImageOk, MemberOk, SegmentViews;
    if members != [] {
      var m := members[0];
      assert ImageOk(source, m) && MemberOk(outer, m);
      HeaderView(source, outer, base, arena, staged, m);
      MemberParts(source, outer, m);
      SegmentViewsHold(source, outer, base, arena, staged, m.segments);
      MemberViewsHold(source, outer, base, arena, staged, members[1..]);
    }
  }

  lemma MemberParts(source: seq<byte>, outer: seq<Segment>, m: Image)
    requires ImageOk(source, m) && MemberOk(outer, m)
    ensures m.commandBytes <= MAX_COMMAND_BYTES && Header(m) == FileRange(m.headerFileOffset, m.HeaderSize())
    ensures forall i :: 0 <= i < |m.segments| ==> SegmentOk(source, m.segments[i]) && MemberSegmentOk(outer, m.segments[i])
  {
    hide SegmentOk, MemberSegmentOk, Pairwise, FixupsOk;
  }

  lemma SortedViews(source: seq<byte>, segments: seq<StagingSegment>, views: seq<View>)
    requires forall i :: 0 <= i < |views| ==> ViewOk(source, segments, views[i])
    ensures SortedBy(Sort(views, ViewDestination), ViewDestination)
    ensures forall i :: 0 <= i < |views| ==> ViewOk(source, segments, Sort(views, ViewDestination)[i])
  {
    hide ViewOk, Sort;
    SortSorted(views, ViewDestination);
    var t := Sort(views, ViewDestination);
    forall i | 0 <= i < |t| ensures ViewOk(source, segments, t[i]) {
      SortMembers(views, ViewDestination, t[i]);
    }
  }

  /** The header of an accepted image is memory of one of its nonempty segments. */
  lemma HeaderMapped(source: seq<byte>, image: Image) returns (k: nat)
    requires ImageOk(source, image)
    ensures k < |image.segments| && image.segments[k].memorySize != 0
    ensures image.segments[k].address <= image.headerAddress
    ensures image.headerAddress + image.HeaderSize() <= image.segments[k].address + image.segments[k].file.size <= image.segments[k].End()
  {
    hide Pairwise, FixupsOk;
    k :| 0 <= k < |image.segments| && PlacesHeader(image.segments[k], Header(image), image.headerAddress);
    assert SegmentOk(source, image.segments[k]);
  }

  lemma EntryMapped(source: seq<byte>, image: Image) returns (k: nat)
    requires ImageOk(source, image) && EntryRuns(image)
    ensures k < |image.segments| && image.segments[k].memorySize != 0 && EntryAddress(image).Ok?
    ensures image.segments[k].address <= EntryAddress(image).value < image.segments[k].End()
  {
    hide Pairwise, FixupsOk, BitAnd;
    k :| 0 <= k < |image.segments| && Runs(image.segments[k], image.entry.value);
    assert SegmentOk(source, image.segments[k]);
  }

  lemma AcceptedPlaceable(source: seq<byte>, i: Inspection, pageSize: nat)
    requires Accepted(source, i) && PageSizeOk(pageSize)
    ensures match ArenaSpan(i.collection.segments, pageSize)
            case Ok(s) => Placeable(source, i.collection.segments, s.first, s.last)
            case Err(e) => e == AddressOverflow || e == ArenaTooLarge
  {
    hide ArenaSpan, Pairwise, FixupsOk, MemberOk;
    var segments := i.collection.segments;
    var k := HeaderMapped(source, i.collection);
    forall j | 0 <= j < |segments| ensures Fits64(segments[j].End()) {
      assert SegmentOk(source, segments[j]);
    }
    SpanHolds(segments, pageSize, k);
  }

  /**
   For every collection the inspector accepts, planning succeeds exactly when the rounded span is a
   valid arena: no mapping is found invalid and no image empty.
   */
  lemma PlanExact(source: seq<byte>, i: Inspection, pageSize: nat)
    requires Accepted(source, i) && PageSizeOk(pageSize)
    ensures match FromInspection(source, i, pageSize)
            case Ok(p) =>
              && ArenaSpan(i.collection.segments, pageSize) == Ok(Bounds(p.minimum, p.arenaSize))
              && PlanOk(source, p) && Planned(source, i.collection.segments, p.minimum, p.arenaSize, p.segments)
              && |p.views| <= MAX_MEMBERS + MAX_SEGMENTS
              && p.headerOffset + p.minimum == i.collection.headerAddress
              && EntryAt(i.collection, p.entryOffset + p.minimum)
            case Err(e) => ArenaSpan(i.collection.segments, pageSize) == Err(e) && (e == AddressOverflow || e == ArenaTooLarge)
  {
    hide *;
    AcceptedPlaceable(source, i, pageSize);
    var segments := i.collection.segments;
    if ArenaSpan(segments, pageSize).Ok? {
      var s := ArenaSpan(segments, pageSize).value;
      SortedPlan(source, segments, s.first, s.last);
      var planned := PlanSegments(source, segments, 0, s.first, s.last).value;
      var staged := Sort(planned, Destination);
      PlannedParts(source, segments, s.first, s.last, staged);
      AcceptedMembers(source, i);
      MemberViewsHold(source, segments, s.first, s.last, staged, i.members);
      var views := MemberViews(source, staged, s.first, s.last, i.members).value;
      SortedViews(source, staged, views);
      PlacedAddresses(source, i, s.first, s.last);
      PlanAssembled(source, i, pageSize, s, planned, views);
      PlanHolds(source, FromInspection(source, i, pageSize).value);
      EntryIs(i.collection);
    } else {
      NoArena(source, i, pageSize);
    }
  }

  lemma AcceptedMembers(source: seq<byte>, i: Inspection)
    requires Accepted(source, i)
    ensures forall k :: 0 <= k < |i.members| ==> ImageOk(source, i.members[k]) && MemberOk(i.collection.segments, i.members[k])
    ensures |i.members| + SegmentCount(i.members) <= MAX_MEMBERS + MAX_SEGMENTS
  {
    hide ImageOk, MemberOk, EntryRuns, SegmentCount;
  }

  lemma PlanAssembled(source: seq<byte>, i: Inspection, pageSize: nat, s: Bounds, planned: seq<StagingSegment>, views: seq<View>)
    requires PageSizeOk(pageSize) && ArenaSpan(i.collection.segments, pageSize) == Ok(s)
    requires PlanSegments(source, i.collection.segments, 0, s.first, s.last) == Ok(planned) && Ordered(Sort(planned, Destination))
    requires EntryAddress(i.collection).Ok?
    requires RelativeRange(i.collection.headerAddress, i.collection.HeaderSize(), s.first, s.last).Ok?
    requires RelativeRange(EntryAddress(i.collection).value, 1, s.first, s.last).Ok?
    requires MemberViews(source, Sort(planned, Destination), s.first, s.last, i.members) == Ok(views)
    ensures FromInspection(source, i, pageSize)
         == Ok(Plan(Sort(planned, Destination), Sort(views, ViewDestination), s.first, s.last,
                    RelativeRange(i.collection.headerAddress, i.collection.HeaderSize(), s.first, s.last).value,
                    RelativeRange(EntryAddress(i.collection).value, 1, s.first, s.last).value))
  {
    hide ArenaSpan, PlanSegments, Sort, Ordered, EntryAddress, RelativeRange, MemberViews;
  }

  lemma NoArena(source: seq<byte>, i: Inspection, pageSize: nat)
    requires PageSizeOk(pageSize) && ArenaSpan(i.collection.segments, pageSize).Err?
    ensures FromInspection(source, i, pageSize) == Err(ArenaSpan(i.collection.segments, pageSize).error)
  {
    hide ArenaSpan;
  }

  lemma PlanHolds(source: seq<byte>, p: Plan)
    requires Ordered(p.segments) && SortedBy(p.views, ViewDestination)
    requires forall i :: 0 <= i < |p.segments| ==> StagedOk(source, p.arenaSize, p.segments[i])
    requires forall i :: 0 <= i < |p.views| ==> ViewOk(source, p.segments, p.views[i])
    ensures PlanOk(source, p)
  {
  }

  lemma PlannedParts(source: seq<byte>, segments: seq<Segment>, base: nat, arena: nat, staged: seq<StagingSegment>)
    requires Planned(source, segments, base, arena, staged)
    ensures Ordered(staged) && forall j :: 0 <= j < |staged| ==> StagedOk(source, arena, staged[j])
  {
    hide Ordered, StagedOk;
  }

  lemma PlacedAddresses(source: seq<byte>, i: Inspection, base: nat, arena: nat)
    requires Accepted(source, i) && Placeable(source, i.collection.segments, base, arena)
    ensures RelativeRange(i.collection.headerAddress, i.collection.HeaderSize(), base, arena) == Ok(i.collection.headerAddress - base)
    ensures EntryAddress(i.collection).Ok?
    ensures RelativeRange(EntryAddress(i.collection).value, 1, base, arena) == Ok(EntryAddress(i.collection).value - base)
  {
    hide Pairwise, FixupsOk, MemberOk, SegmentOk, EntryAddress;
    var k := HeaderMapped(source, i.collection);
    var e := EntryMapped(source, i.collection);
    var segments := i.collection.segments;
    assert Inside(segments[k], base, base + arena) && Inside(segments[e], base, base + arena);
  }

  //////////////////////////////////////////////////////////////////////////////
  // Which views a plan has
  //////////////////////////////////////////////////////////////////////////////

  /** The view of a segment: its memory and its file range. */
  predicate IsSegmentView(s: Segment, base: nat, v: View) {
    && s.memorySize != 0 && v.destination + base == s.address && v.memorySize == s.memorySize
    && v.fileOffset == s.file.offset && v.fileSize == s.file.size && !v.isHeader
  }

  /** The view of a header: as many bytes of memory as of the file. */
  predicate IsHeaderView(m: Image, base: nat, v: View) {
    && v.destination + base == m.headerAddress && v.memorySize == v.fileSize == 32 + m.commandBytes
    && v.fileOffset == m.headerFileOffset && v.isHeader
  }

  /** How many of the segments have the view, and how many headers and segments of the members do. */
  function SegmentTimes(segments: seq<Segment>, base: nat, v: View): nat {
    if segments == [] then 0
    else (if IsSegmentView(segments[0], base, v) then 1 else 0) + SegmentTimes(segments[1..], base, v)
  }

  function ViewTimes(members: seq<Image>, base: nat, v: View): nat {
    if members == [] then 0
    else (if IsHeaderView(members[0], base, v) then 1 else 0) + SegmentTimes(members[0].segments, base, v) + ViewTimes(members[1..], base, v)
  }

  /** No header and no nonempty segment of a member starts below the arena. */
  predicate Reached(m: Image, base: nat) {
    base <= m.headerAddress && forall j :: 0 <= j < |m.segments| && m.segments[j].memorySize != 0 ==> base <= m.segments[j].address
  }

  lemma TimesCons(u: View, rest: seq<View>, v: View)
    ensures multiset([u] + rest)[v] == (if v == u then 1 else 0) + multiset(rest)[v]
  {
    assert multiset([u] + rest) == multiset{u} + multiset(rest);
  }

  lemma {:induction false} SegmentViewsExact(source: seq<byte>, outer: seq<Segment>, base: nat, arena: nat, staged: seq<StagingSegment>, segments: seq<Segment>, v: View)
    requires Placeable(source, outer, base, arena) && Planned(source, outer, base, arena, staged)
    requires forall i :: 0 <= i < |segments| ==> SegmentOk(source, segments[i]) && MemberSegmentOk(outer, segments[i])
    ensures SegmentViews(source, staged, base, arena, segments).Ok?
    ensures multiset(SegmentViews(source, staged, base, arena, segments).value)[v] == SegmentTimes(segments, base, v)
    ensures forall j :: 0 <= j < |segments| && segments[j].memorySize != 0 ==> base <= segments[j].address
    decreases |segments|
  {
    hide *;
    SegmentViewsHold(source, outer, base, arena, staged, segments);
    SegmentViewsStep(source, base, arena, staged, segments, v);
    if segments != [] {
      SegmentViewsExact(source, outer, base, arena, staged, segments[1..], v);
      assert SegmentOk(source, segments[0]) && MemberSegmentOk(outer, segments[0]);
      if segments[0].memorySize != 0 {
        SegmentViewExact(source, outer, base, arena, staged, segments[0], v);
        TimesCons(ViewOf(source, staged, base, arena, segments[0].address, segments[0].memorySize, segments[0].file, false).value,
                  SegmentViews(source, staged, base, arena, segments[1..]).value, v);
      }
      forall j | 0 <= j < |segments| && segments[j].memorySize != 0 ensures base <= segments[j].address {
        assert j > 0 ==> segments[j] == segments[1..][j - 1];
      }
    }
  }

  lemma SegmentViewsStep(source: seq<byte>, base: nat, arena: nat, staged: seq<StagingSegment>, segments: seq<Segment>, v: View)
    requires SegmentViews(source, staged, base, arena, segments).Ok?
    ensures segments == [] ==> SegmentViews(source, staged, base, arena, segments).value == [] && SegmentTimes(segments, base, v) == 0
    ensures segments != [] ==>
              var s := segments[0];
              && SegmentViews(source, staged, base, arena, segments[1..]).Ok?
              && (s.memorySize == 0 ==>
                    SegmentViews(source, staged, base, arena, segments) == SegmentViews(source, staged, base, arena, segments[1..]))
              && (s.memorySize != 0 ==>
                    ViewOf(source, staged, base, arena, s.address, s.memorySize, s.file, false).Ok? &&
                    SegmentViews(source, staged, base, arena, segments).value
                    == [ViewOf(source, staged, base, arena, s.address, s.memorySize, s.file, false).value] + SegmentViews(source, staged, base, arena, segments[1..]).value)
              && SegmentTimes(segments, base, v) == (if s.memorySize != 0 && IsSegmentView(s, base, v) then 1 else 0) + SegmentTimes(segments[1..], base, v)
  {
    hide ViewOf;
  }

  lemma SegmentViewExact(source: seq<byte>, outer: seq<Segment>, base: nat, arena: nat, staged: seq<StagingSegment>, s: Segment, v: View)
    requires Placeable(source, outer, base, arena) && Planned(source, outer, base, arena, staged)
    requires SegmentOk(source, s) && MemberSegmentOk(outer, s) && s.memorySize != 0
    ensures base <= s.address
    ensures ViewOf(source, staged, base, arena, s.address, s.memorySize, s.file, false).Ok?
    ensures IsSegmentView(s, base, v) <==> v == ViewOf(source, staged, base, arena, s.address, s.memorySize, s.file, false).value
  {
    hide Placeable, Planned, MemberSegmentOk, ViewOf, ViewOk, Shows;
    PlaceableParts(source, outer, base, arena);
    var k := OneOwner(source, outer, s);
    ReachedBy(source, outer, base, arena, k, s.address);
    ViewFits(source, outer, base, arena, staged, k, s.address, s.memorySize, s.file, false);
  }

  lemma ReachedBy(source: seq<byte>, outer: seq<Segment>, base: nat, arena: nat, k: nat, address: nat)
    requires Placeable(source, outer, base, arena) && k < |outer| && outer[k].memorySize != 0 && outer[k].address <= address
    ensures base <= address
  {
    PlaceableAt(source, outer, base, arena, k);
  }

  lemma HeaderViewExact(source: seq<byte>, outer: seq<Segment>, base: nat, arena: nat, staged: seq<StagingSegment>, m: Image, v: View)
    requires Placeable(source, outer, base, arena) && Planned(source, outer, base, arena, staged)
    requires ImageOk(source, m) && MemberOk(outer, m)
    ensures base <= m.headerAddress
    ensures ViewOf(source, staged, base, arena, m.headerAddress, m.HeaderSize(), Header(m), true).Ok?
    ensures IsHeaderView(m, base, v) <==> v == ViewOf(source, staged, base, arena, m.headerAddress, m.HeaderSize(), Header(m), true).value
  {
    hide *;
    MemberParts(source, outer, m);
    HeaderView(source, outer, base, arena, staged, m);
    var k := HeaderShown(source, outer, base, arena, m);
    ViewFits(source, outer, base, arena, staged, k, m.headerAddress, m.HeaderSize(), Header(m), true);
    ReachedBy(source, outer, base, arena, k, m.headerAddress);
    HeaderViewIs(m, base, v);
  }

  lemma HeaderShown(source: seq<byte>, outer: seq<Segment>, base: nat, arena: nat, m: Image) returns (k: nat)
    requires Placeable(source, outer, base, arena) && ImageOk(source, m) && MemberOk(outer, m)
    ensures k < |outer| && outer[k].memorySize != 0 && Shows(outer[k], Header(m), m.headerAddress)
    ensures outer[k].address <= m.headerAddress && m.headerAddress + m.HeaderSize() <= outer[k].End()
    ensures Header(m).size == m.HeaderSize() && Header(m).End() <= |source| && Fits64(Header(m).End())
  {
    hide MemberSegmentOk, Pairwise, FixupsOk, RelocationsOk;
    k :| 0 <= k < |outer| && Shows(outer[k], Header(m), m.headerAddress);
    PlaceableAt(source, outer, base, arena, k);
  }

  lemma HeaderViewIs(m: Image, base: nat, v: View)
    requires base <= m.headerAddress && m.commandBytes <= MAX_COMMAND_BYTES
    ensures IsHeaderView(m, base, v) <==> v == View(m.headerAddress - base, m.HeaderSize(), Header(m).offset, Header(m).size, true)
  {
  }

  lemma JoinedTimes(u: View, a: seq<View>, b: seq<View>, v: View)
    ensures multiset([u] + a + b)[v] == (if v == u then 1 else 0) + multiset(a)[v] + multiset(b)[v]
  {
    assert multiset([u] + a + b) == multiset{u} + multiset(a) + multiset(b);
  }

  lemma {:induction false} MemberViewsExact(source: seq<byte>, outer: seq<Segment>, base: nat, arena: nat, staged: seq<StagingSegment>, members: seq<Image>, v: View)
    requires Placeable(source, outer, base, arena) && Planned(source, outer, base, arena, staged)
    requires forall i :: 0 <= i < |members| ==> ImageOk(source, members[i]) && MemberOk(outer, members[i])
    ensures MemberViews(source, staged, base, arena, members).Ok?
    ensures multiset(MemberViews(source, staged, base, arena, members).value)[v] == ViewTimes(members, base, v)
    ensures forall k :: 0 <= k < |members| ==> Reached(members[k], base)
    decreases |members|
  {
    hide *;
    MemberViewsHold(source, outer, base, arena, staged, members);
    MemberViewsStep(source, base, arena, staged, members, v);
    if members != [] {
      var m := members[0];
      assert ImageOk(source, m) && MemberOk(outer, m);
      MemberParts(source, outer, m);
      HeaderViewExact(source, outer, base, arena, staged, m, v);
      SegmentViewsExact(source, outer, base, arena, staged, m.segments, v);
      MemberViewsExact(source, outer, base, arena, staged, members[1..], v);
      JoinedTimes(ViewOf(source, staged, base, arena, m.headerAddress, m.HeaderSize(), Header(m), true).value,
                  SegmentViews(source, staged, base, arena, m.segments).value, MemberViews(source, staged, base, arena, members[1..]).value, v);
      ReachedParts(m, base);
      forall k | 0 <= k < |members| ensures Reached(members[k], base) {
        assert k > 0 ==> members[k] == members[1..][k - 1];
      }
    }
  }

  lemma ReachedParts(m: Image, base: nat)
    requires base <= m.headerAddress && forall j :: 0 <= j < |m.segments| && m.segments[j].memorySize != 0 ==> base <= m.segments[j].address
    ensures Reached(m, base)
  {
  }

  lemma MemberViewsStep(source: seq<byte>, base: nat, arena: nat, staged: seq<StagingSegment>, members: seq<Image>, v: View)
    requires MemberViews(source, staged, base, arena, members).Ok?
    ensures members == [] ==> MemberViews(source, staged, base, arena, members).value == [] && ViewTimes(members, base, v) == 0
    ensures members != [] ==>
              var m := members[0];
              && ViewOf(source, staged, base, arena, m.headerAddress, m.HeaderSize(), FileRange(m.headerFileOffset, m.HeaderSize()), true).Ok?
              && SegmentViews(source, staged, base, arena, m.segments).Ok?
              && MemberViews(source, staged, base, arena, members[1..]).Ok?
              && MemberViews(source, staged, base, arena, members).value
              == [ViewOf(source, staged, base, arena, m.headerAddress, m.HeaderSize(), FileRange(m.headerFileOffset, m.HeaderSize()), true).value]
                 + SegmentViews(source, staged, base, arena, m.segments).value + MemberViews(source, staged, base, arena, members[1..]).value
              && ViewTimes(members, base, v)
              == (if IsHeaderView(m, base, v) then 1 else 0) + SegmentTimes(m.segments, base, v) + ViewTimes(members[1..], base, v)
  {
    hide ViewOf, SegmentViews, IsHeaderView, SegmentTimes;
  }

  /**
   The views of the plan of an accepted collection are exactly the views of its members: one of every header
   and one of every nonempty segment, each with its own memory, file range and flag.
   */
  lemma ViewsExact(source: seq<byte>, i: Inspection, pageSize: nat, v: View)
    requires Accepted(source, i) && PageSizeOk(pageSize) && FromInspection(source, i, pageSize).Ok?
    ensures var p := FromInspection(source, i, pageSize).value;
            && multiset(p.views)[v] == ViewTimes(i.members, p.minimum, v)
            && forall k :: 0 <= k < |i.members| ==> Reached(i.members[k], p.minimum)
  {
    hide *;
    PlanExact(source, i, pageSize);
    AcceptedPlaceable(source, i, pageSize);
    PlanMade(source, i, pageSize);
    var p := FromInspection(source, i, pageSize).value;
    AcceptedMembers(source, i);
    MemberViewsExact(source, i.collection.segments, p.minimum, p.arenaSize, p.segments, i.members, v);
    SortPermutes(MemberViews(source, p.segments, p.minimum, p.arenaSize, i.members).value, ViewDestination);
  }

  lemma PlanMade(source: seq<byte>, i: Inspection, pageSize: nat)
    requires PageSizeOk(pageSize) && FromInspection(source, i, pageSize).Ok?
    ensures var p := FromInspection(source, i, pageSize).value;
            && PlanSegments(source, i.collection.segments, 0, p.minimum, p.arenaSize).Ok?
            && p.segments == Sort(PlanSegments(source, i.collection.segments, 0, p.minimum, p.arenaSize).value, Destination)
            && MemberViews(source, p.segments, p.minimum, p.arenaSize, i.members).Ok?
            && p.views == Sort(MemberViews(source, p.segments, p.minimum, p.arenaSize, i.members).value, ViewDestination)
  {
    hide ArenaSpan, PlanSegments, Sort, Ordered, EntryAddress, RelativeRange, MemberViews;
  }

  lemma {:induction false} SegmentWitness(segments: seq<Segment>, base: nat, v: View)
    ensures SegmentTimes(segments, base, v) > 0 <==> exists j :: 0 <= j < |segments| && IsSegmentView(segments[j], base, v)
  {
    hide IsSegmentView;
    if segments != [] {
      SegmentWitness(segments[1..], base, v);
      var rest := segments[1..];
      if j :| 0 <= j < |rest| && IsSegmentView(rest[j], base, v) {
        assert IsSegmentView(segments[j + 1], base, v);
      }
      if j :| 0 <= j < |segments| && IsSegmentView(segments[j], base, v) {
        assert j > 0 ==> IsSegmentView(rest[j - 1], base, v);
      }
    }
  }

  /** A view of the header or of a segment of the member. */
  ghost predicate ViewedBy(m: Image, base: nat, v: View) {
    IsHeaderView(m, base, v) || exists j :: 0 <= j < |m.segments| && IsSegmentView(m.segments[j], base, v)
  }

  lemma {:induction false} ViewWitness(members: seq<Image>, base: nat, v: View)
    ensures ViewTimes(members, base, v) > 0 <==> exists k :: 0 <= k < |members| && ViewedBy(members[k], base, v)
  {
    if members != [] {
      SegmentWitness(members[0].segments, base, v);
      assert ViewedBy(members[0], base, v) <==> IsHeaderView(members[0], base, v) || SegmentTimes(members[0].segments, base, v) > 0;
      hide IsHeaderView, ViewedBy, SegmentTimes;
      ViewWitness(members[1..], base, v);
      var rest := members[1..];
      if k :| 0 <= k < |rest| && ViewedBy(rest[k], base, v) {
        assert ViewedBy(members[k + 1], base, v);
      }
      if k :| 0 <= k < |members| && ViewedBy(members[k], base, v) {
        assert k > 0 ==> ViewedBy(rest[k - 1], base, v);
      }
    }
  }

  //////////////////////////////////////////////////////////////////////////////
  // How much a plan stages
  //////////////////////////////////////////////////////////////////////////////

  /** The file bytes and the memory of the nonempty segments. */
  function FileSizes(segments: seq<Segment>): nat {
    if segments == [] then 0 else (if segments[0].memorySize != 0 then segments[0].file.size else 0) + FileSizes(segments[1..])
  }

  function MemorySizes(segments: seq<Segment>): nat {
    if segments == [] then 0 else segments[0].memorySize + MemorySizes(segments[1..])
  }

  function NonemptySegments(segments: seq<Segment>): nat {
    if segments == [] then 0 else (if segments[0].memorySize != 0 then 1 else 0) + NonemptySegments(segments[1..])
  }

  /** The nonempty segments of all members. */
  function MemberSegments(members: seq<Image>): nat {
    if members == [] then 0 else NonemptySegments(members[0].segments) + MemberSegments(members[1..])
  }

  function StagedFile(s: StagingSegment): int {
    s.fileSize
  }

  function StagedMemory(s: StagingSegment): int {
    s.memorySize
  }

  function HeaderFlag(v: View): int {
    if v.isHeader then 1 else 0
  }

  function SegmentFlag(v: View): int {
    if v.isHeader then 0 else 1
  }

  lemma {:induction false} StagedTotals(source: seq<byte>, segments: seq<Segment>, index: nat, base: nat, arena: nat)
    requires index <= |segments| && PlanSegments(source, segments, index, base, arena).Ok?
    ensures Sum(PlanSegments(source, segments, index, base, arena).value, StagedFile) == FileSizes(segments[index..])
    ensures Sum(PlanSegments(source, segments, index, base, arena).value, StagedMemory) == MemorySizes(segments[index..])
    decreases |segments| - index
  {
    hide RelativeRange, SourceRange;
    if index < |segments| {
      StagedTotals(source, segments, index + 1, base, arena);
      assert segments[index..][1..] == segments[index + 1..];
    }
  }

  lemma {:induction false} SegmentViewTotals(source: seq<byte>, staged: seq<StagingSegment>, base: nat, arena: nat, segments: seq<Segment>)
    requires SegmentViews(source, staged, base, arena, segments).Ok?
    ensures Sum(SegmentViews(source, staged, base, arena, segments).value, HeaderFlag) == 0
    ensures Sum(SegmentViews(source, staged, base, arena, segments).value, SegmentFlag) == NonemptySegments(segments)
    decreases |segments|
  {
    if segments != [] {
      SegmentViewTotals(source, staged, base, arena, segments[1..]);
    }
  }

  lemma {:induction false} MemberViewTotals(source: seq<byte>, staged: seq<StagingSegment>, base: nat, arena: nat, members: seq<Image>)
    requires MemberViews(source, staged, base, arena, members).Ok?
    ensures Sum(MemberViews(source, staged, base, arena, members).value, HeaderFlag) == |members|
    ensures Sum(MemberViews(source, staged, base, arena, members).value, SegmentFlag) == MemberSegments(members)
    decreases |members|
  {
    if members != [] {
      var m := members[0];
      SegmentViewTotals(source, staged, base, arena, m.segments);
      MemberViewTotals(source, staged, base, arena, members[1..]);
      var header := ViewOf(source, staged, base, arena, m.headerAddress, m.HeaderSize(), FileRange(m.headerFileOffset, m.HeaderSize()), true).value;
      assert header.isHeader;
      hide ViewOf, SegmentViews, MemberViews;
      JoinedSums(header, SegmentViews(source, staged, base, arena, m.segments).value, MemberViews(source, staged, base, arena, members[1..]).value, HeaderFlag);
      JoinedSums(header, SegmentViews(source, staged, base, arena, m.segments).value, MemberViews(source, staged, base, arena, members[1..]).value, SegmentFlag);
    }
  }

  lemma JoinedSums(u: View, a: seq<View>, b: seq<View>, f: View -> int)
    ensures Sum([u] + a + b, f) == f(u) + Sum(a, f) + Sum(b, f)
  {
    SumJoin([u] + a, b, f);
    SumJoin([u], a, f);
    assert Sum([u], f) == f(u);
  }

  /** What the plan of an accepted collection stages and views, counted on the collection. */
  lemma AmountsExact(source: seq<byte>, i: Inspection, pageSize: nat)
    requires Accepted(source, i) && PageSizeOk(pageSize) && FromInspection(source, i, pageSize).Ok?
    ensures var p := FromInspection(source, i, pageSize).value;
            && Sum(p.segments, StagedFile) == FileSizes(i.collection.segments)
            && Sum(p.segments, StagedMemory) == MemorySizes(i.collection.segments)
            && Sum(p.views, HeaderFlag) == |i.members|
            && Sum(p.views, SegmentFlag) == MemberSegments(i.members)
  {
    hide *;
    PlanMade(source, i, pageSize);
    var p := FromInspection(source, i, pageSize).value;
    var planned := PlanSegments(source, i.collection.segments, 0, p.minimum, p.arenaSize).value;
    var views := MemberViews(source, p.segments, p.minimum, p.arenaSize, i.members).value;
    StagedTotals(source, i.collection.segments, 0, p.minimum, p.arenaSize);
    assert i.collection.segments[0..] == i.collection.segments;
    MemberViewTotals(source, p.segments, p.minimum, p.arenaSize, i.members);
    SumSort(planned, Destination, StagedFile);
    SumSort(planned, Destination, StagedMemory);
    SumSort(views, ViewDestination, HeaderFlag);
    SumSort(views, ViewDestination, SegmentFlag);
  }
}
