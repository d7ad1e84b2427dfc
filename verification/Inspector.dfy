/**
 What the inspector accepts, said without its loops: an inspection succeeds exactly on the collections
 whose segments, sections, tables, fixups and members meet the conditions below, within the budgets.
 */
module Inspector {
  import opened Wrappers
  import opened Words
  import opened Sorting
  import opened Spans
  import opened Collection

  //////////////////////////////////////////////////////////////////////////////
  // Segments and sections
  //////////////////////////////////////////////////////////////////////////////

  predicate InFile(bytes: seq<byte>, r: FileRange) {
    Fits64(r.End()) && r.End() <= |bytes|
  }

  predicate Aligned(address: nat, alignment: nat) {
    alignment < 64 && address % Pow2(alignment) == 0
  }

  /** The file bytes of a section are at the place in the segment's file bytes that its address has in memory. */
  predicate SectionShown(s: Segment, c: Section)
    requires s.address <= c.address
  {
    && s.file.offset <= c.fileOffset && c.fileOffset + c.size <= s.file.End()
    && c.fileOffset - s.file.offset == c.address - s.address
  }

  predicate SectionValid(bytes: seq<byte>, s: Segment, c: Section) {
    && c.segmentName == s.name
    && s.address <= c.address && c.address + c.size <= s.End() && Aligned(c.address, c.alignment)
    && (ZeroFill(c.flags) || c.size == 0 || SectionShown(s, c))
    && InFile(bytes, c.relocations.Range())
  }

  function SectionSpan(c: Section): Span {
    Span(c.address, c.address + c.size)
  }

  predicate ApartSections(a: Section, b: Section) {
    a.size == 0 || b.size == 0 || Apart(SectionSpan(a), SectionSpan(b))
  }

  ghost predicate SectionsValid(bytes: seq<byte>, s: Segment, k: nat) {
    forall i :: k <= i < |s.sections| ==> SectionValid(bytes, s, s.sections[i])
  }

  ghost predicate SegmentValid(bytes: seq<byte>, s: Segment) {
    && InFile(bytes, s.file) && Fits64(s.End()) && s.file.size <= s.memorySize
    && s.maximumProtection < 8 && BitAnd(s.initialProtection, U32_LIMIT - 1 - s.maximumProtection) == 0
    && BitAnd(s.flags, U32_LIMIT - 1 - 4) == 0
    && SectionsValid(bytes, s, 0) && Pairwise(s.sections, ApartSections)
  }

  lemma SectionExact(bytes: seq<byte>, s: Segment, c: Section)
    requires Fits64(s.End()) && Fits64(s.file.End())
    ensures SectionError(bytes, s, c).None? <==> SectionValid(bytes, s, c)
  {
    AndLow(c.address, c.alignment);
    hide BitAnd, Pow2;
  }

  lemma {:induction false} SectionsExact(bytes: seq<byte>, s: Segment, k: nat)
    requires k <= |s.sections| && Fits64(s.End()) && Fits64(s.file.End())
    ensures SectionsError(bytes, s, k).None? <==> SectionsValid(bytes, s, k)
    decreases |s.sections| - k
  {
    hide SectionError, SectionValid;
    if k < |s.sections| {
      SectionExact(bytes, s, s.sections[k]);
      SectionsExact(bytes, s, k + 1);
    }
  }

  lemma {:induction false} SectionSpansPairs(sections: seq<Section>)
    ensures AllNonempty(SectionSpans(sections))
    ensures Pairwise(SectionSpans(sections), Apart) <==> Pairwise(sections, ApartSections)
  {
    if sections != [] {
      var c, rest := sections[0], sections[1..];
      SectionSpansPairs(rest);
      PairwiseCons(c, rest, ApartSections);
      SectionSpansAll(rest, c);
      if c.size != 0 {
        PairwiseCons(SectionSpan(c), SectionSpans(rest), Apart);
      }
      assert sections == [c] + rest;
    }
  }

  lemma {:induction false} SectionSpansAll(sections: seq<Section>, c: Section)
    ensures c.size != 0 ==> (All(SectionSpans(sections), SectionSpan(c), Apart) <==> All(sections, c, ApartSections))
    ensures c.size == 0 ==> All(sections, c, ApartSections)
  {
    if sections != [] && c.size != 0 {
      var d, rest := sections[0], sections[1..];
      SectionSpansAll(rest, c);
      AllCons(d, rest, c, ApartSections);
      AllCons(SectionSpan(d), SectionSpans(rest), SectionSpan(c), Apart);
      assert sections == [d] + rest;
    }
  }

  /** A segment passes its checks exactly when it is valid. */
  lemma SegmentExact(bytes: seq<byte>, s: Segment)
    ensures SegmentError(bytes, s).None? <==> SegmentValid(bytes, s)
  {
    hide BitAnd, SectionsError, SectionsValid, Chained, Sort, Pairwise;
    SectionSpansPairs(s.sections);
    NeighboursDecide(SectionSpans(s.sections));
    if Fits64(s.End()) && Fits64(s.file.End()) {
      SectionsExact(bytes, s, 0);
    }
  }

  //////////////////////////////////////////////////////////////////////////////
  // Budgets
  //////////////////////////////////////////////////////////////////////////////

  function SectionTotal(segments: seq<Segment>): nat {
    if segments == [] then 0 else |segments[0].sections| + SectionTotal(segments[1..])
  }

  /** The budget after the segments of an image. */
  function SegmentsSpent(b: Budget, segments: seq<Segment>): Budget {
    Budget(b.commands, b.segments + |segments|, b.sections + SectionTotal(segments))
  }

  /** The budget after an image. */
  function Spent(b: Budget, h: Decoded): Budget {
    SegmentsSpent(b.(commands := b.commands + h.commandCount), h.segments)
  }

  predicate Affordable(b: Budget) {
    b.commands <= MAX_COMMANDS && b.segments <= MAX_SEGMENTS && b.sections <= MAX_SECTIONS
  }

  ghost predicate AllSegmentsValid(bytes: seq<byte>, segments: seq<Segment>) {
    forall i :: 0 <= i < |segments| ==> SegmentValid(bytes, segments[i])
  }

  lemma {:induction false} SegmentsExact(bytes: seq<byte>, segments: seq<Segment>, b: Budget)
    requires Affordable(b)
    ensures SegmentsError(bytes, segments, b).Ok? <==> AllSegmentsValid(bytes, segments) && Affordable(SegmentsSpent(b, segments))
    ensures SegmentsError(bytes, segments, b).Ok? ==> SegmentsError(bytes, segments, b).value == SegmentsSpent(b, segments)
    decreases |segments|
  {
    hide SegmentError, SegmentValid;
    if segments != [] {
      var s, rest := segments[0], segments[1..];
      SegmentExact(bytes, s);
      assert segments == [s] + rest;
      SegmentsCons(bytes, s, rest);
      if b.segments + 1 <= MAX_SEGMENTS && b.sections + |s.sections| <= MAX_SECTIONS {
        SegmentsExact(bytes, rest, b.(segments := b.segments + 1, sections := b.sections + |s.sections|));
      }
    }
  }

  lemma SegmentsCons(bytes: seq<byte>, s: Segment, rest: seq<Segment>)
    ensures AllSegmentsValid(bytes, [s] + rest) <==> SegmentValid(bytes, s) && AllSegmentsValid(bytes, rest)
  {
    hide SegmentValid;
    var all := [s] + rest;
    assert all[0] == s && forall i :: 0 <= i < |rest| ==> all[i + 1] == rest[i];
  }

  //////////////////////////////////////////////////////////////////////////////
  // The fixup table
  //////////////////////////////////////////////////////////////////////////////

  function ImportWidth(format: nat): nat {
    if format == 1 then 4 else if format == 2 then 8 else 16
  }

  /** The table of record offsets, the imports and the symbols are in the data, after its head and apart from each other. */
  predicate HeadValid(data: seq<byte>, segmentCount: nat) {
    && 28 <= |data| <= MAX_FIXUP_BYTES && U32(data, 0) == 0 && U32(data, 24) <= 1 && 1 <= U32(data, 20) <= 3
    && var starts, imports, symbols := U32(data, 4), U32(data, 8), U32(data, 12);
       && 28 <= starts && starts + 4 + segmentCount * 4 <= |data| && U32(data, starts) == segmentCount
       && 28 <= imports && imports + U32(data, 16) * ImportWidth(U32(data, 20)) <= |data|
       && 28 <= symbols <= |data|
       && !Overlaps(HeadOf(data, segmentCount).imports, HeadOf(data, segmentCount).symbols)
       && !Overlaps(FileRange(starts, 4 + segmentCount * 4), HeadOf(data, segmentCount).imports)
       && !Overlaps(FileRange(starts, 4 + segmentCount * 4), HeadOf(data, segmentCount).symbols)
  }

  function HeadOf(data: seq<byte>, segmentCount: nat): Head
    requires 28 <= |data| <= MAX_FIXUP_BYTES && U32(data, 12) <= |data|
  {
    Head(U32(data, 4), 4 + segmentCount * 4, FileRange(U32(data, 8), U32(data, 16) * ImportWidth(U32(data, 20))),
         FileRange(U32(data, 12), |data| - U32(data, 12)))
  }

  lemma HeadExact(data: seq<byte>, segmentCount: nat)
    requires |data| <= MAX_FIXUP_BYTES
    ensures ParseHead(data, segmentCount).Ok? <==> HeadValid(data, segmentCount)
    ensures HeadValid(data, segmentCount) ==> ParseHead(data, segmentCount).value == HeadOf(data, segmentCount)
  {
    hide U32, Overlaps;
  }

  /** The table has room for the offset of every segment's record. */
  predicate TableFits(data: seq<byte>, h: Head, count: nat) {
    h.starts + 4 + count * 4 <= |data| <= MAX_FIXUP_BYTES
  }

  /** The table names a record for segment k. */
  predicate Listed(data: seq<byte>, h: Head, k: nat) {
    h.starts + 4 + k * 4 + 4 <= |data| && U32(data, h.starts + 4 + k * 4) != 0
  }

  /** The record of segment k is behind the table and inside the data. */
  predicate Framed(data: seq<byte>, h: Head, k: nat) {
    && Listed(data, h, k) && |data| <= MAX_FIXUP_BYTES
    && var relative := U32(data, h.starts + 4 + k * 4);
       && h.tableSize <= relative && h.starts + relative + 4 <= |data|
       && var size := U32(data, h.starts + relative);
          22 <= size && size % 2 == 0 && h.starts + relative + size <= |data|
  }

  function RecordRange(data: seq<byte>, h: Head, k: nat): FileRange
    requires Framed(data, h, k)
  {
    var at := h.starts + U32(data, h.starts + 4 + k * 4);
    FileRange(at, U32(data, at))
  }

  function Info(data: seq<byte>, h: Head, k: nat): (r: seq<byte>)
    requires Framed(data, h, k)
    ensures |r| == RecordRange(data, h, k).size && |r| >= 22
  {
    data[RecordRange(data, h, k).offset..RecordRange(data, h, k).End()]
  }

  /** A record fits its segment, and all its pages are valid. */
  predicate InfoValid(info: seq<byte>, s: Segment, headerAddress: u64)
    requires |info| >= 22
  {
    var pageSize, pageCount := U16(info, 4), U16(info, 20);
    && (pageSize == 4096 || pageSize == 16384) && U64(info, 8) == WrapSub(s.address, headerAddress) && U32(info, 16) == 0
    && pageCount <= CeilDiv(s.memorySize, pageSize) && pageCount <= Slots(info)
    && forall page :: 0 <= page < pageCount ==> PageOk(info, s, pageSize, U16(info, 6), page) && ListApart(info, pageCount, page)
  }

  function InfoTotals(info: seq<byte>): PageTotals
    requires |info| >= 22
  {
    if U16(info, 20) <= Slots(info) then CountedFrom(info, U16(info, 20), 0, PageTotals(0, 0, 0)) else PageTotals(0, 0, 0)
  }

  function FoundIn(info: seq<byte>, k: nat): FixupSegment
    requires |info| >= 22
  {
    FixupSegment(k, U16(info, 6), U16(info, 4), U16(info, 20), InfoTotals(info).withFixups, InfoTotals(info).multiple, U64(info, 8))
  }

  predicate RecordValid(data: seq<byte>, h: Head, s: Segment, k: nat, headerAddress: u64) {
    && Framed(data, h, k)
    && !Overlaps(RecordRange(data, h, k), h.imports) && !Overlaps(RecordRange(data, h, k), h.symbols)
    && InfoValid(Info(data, h, k), s, headerAddress)
  }

  predicate RecordsOverlap(data: seq<byte>, h: Head, j: nat, k: nat) {
    Framed(data, h, j) && Framed(data, h, k) && Overlaps(RecordRange(data, h, j), RecordRange(data, h, k))
  }

  ghost predicate RecordsValid(data: seq<byte>, h: Head, segments: seq<Segment>, headerAddress: u64, index: nat) {
    forall k :: index <= k < |segments| && Listed(data, h, k) ==> RecordValid(data, h, segments[k], k, headerAddress)
  }

  ghost predicate RecordsApart(data: seq<byte>, h: Head, count: nat, index: nat) {
    forall j, k :: index <= j < k < count ==> !RecordsOverlap(data, h, j, k)
  }

  /** The visits of the page starts of all records from `index` on. */
  function Visits(data: seq<byte>, h: Head, count: nat, index: nat): nat
    decreases if index < count then count - index else 0
  {
    if index >= count then 0
    else (if Framed(data, h, index) then InfoTotals(Info(data, h, index)).visits else 0) + Visits(data, h, count, index + 1)
  }

  function Found(data: seq<byte>, h: Head, count: nat, index: nat): seq<FixupSegment>
    decreases if index < count then count - index else 0
  {
    if index >= count then []
    else (if Framed(data, h, index) then [FoundIn(Info(data, h, index), index)] else []) + Found(data, h, count, index + 1)
  }

  ghost predicate FixupsValid(bytes: seq<byte>, file: FileRange, segments: seq<Segment>, headerAddress: u64)
    requires file.End() <= |bytes|
  {
    var data := bytes[file.offset..file.End()];
    && HeadValid(data, |segments|)
    && var h := HeadOf(data, |segments|);
       && RecordsValid(data, h, segments, headerAddress, 0) && RecordsApart(data, h, |segments|, 0)
       && Visits(data, h, |segments|, 0) <= MAX_PAGE_START_VISITS
  }

  /** Totals only add up. */
  lemma {:induction false} CountedShift(info: seq<byte>, pageCount: nat, page: nat, v: nat, t: PageTotals)
    requires page <= pageCount <= Slots(info)
    ensures CountedFrom(info, pageCount, page, t.(visits := t.visits + v))
         == CountedFrom(info, pageCount, page, t).(visits := CountedFrom(info, pageCount, page, t).visits + v)
    decreases pageCount - page
  {
    hide Slots, Slot, StartCount;
    if page < pageCount {
      CountedShift(info, pageCount, page + 1, v, Counted(info, page, t));
    }
  }

  lemma RecordExact(info: seq<byte>, s: Segment, k: nat, headerAddress: u64, range: FileRange, seen: Seen)
    requires |info| >= 22 && seen.visits <= MAX_PAGE_START_VISITS
    ensures FixupRecord(info, s, k, headerAddress, range, seen).Ok? <==>
            InfoValid(info, s, headerAddress) && seen.visits + InfoTotals(info).visits <= MAX_PAGE_START_VISITS
    ensures FixupRecord(info, s, k, headerAddress, range, seen).Ok? ==>
              FixupRecord(info, s, k, headerAddress, range, seen).value
              == Seen(seen.ranges + [range], seen.visits + InfoTotals(info).visits, seen.found + [FoundIn(info, k)])
  {
    hide U16, U32, U64, Slots, CountedFrom, Pages, PageOk, ListApart, CeilDiv;
    if U16(info, 20) <= Slots(info) {
      PagesExact(info, s, U16(info, 4), U16(info, 20), U16(info, 6), 0, PageTotals(seen.visits, 0, 0));
      CountedShift(info, U16(info, 20), 0, seen.visits, PageTotals(0, 0, 0));
    }
  }

  lemma StepExact(data: seq<byte>, h: Head, s: Segment, k: nat, headerAddress: u64, seen: Seen)
    requires TableFits(data, h, k + 1) && seen.visits <= MAX_PAGE_START_VISITS
    ensures FixupStep(data, h, s, k, headerAddress, seen).Ok? <==>
            (Listed(data, h, k) ==>
               && RecordValid(data, h, s, k, headerAddress) && !AnyOverlaps(seen.ranges, RecordRange(data, h, k))
               && seen.visits + InfoTotals(Info(data, h, k)).visits <= MAX_PAGE_START_VISITS)
    ensures FixupStep(data, h, s, k, headerAddress, seen).Ok? ==>
              FixupStep(data, h, s, k, headerAddress, seen).value ==
              if Listed(data, h, k)
              then Seen(seen.ranges + [RecordRange(data, h, k)], seen.visits + InfoTotals(Info(data, h, k)).visits, seen.found + [FoundIn(Info(data, h, k), k)])
              else seen
  {
    hide U32, FixupRecord, InfoValid, InfoTotals, FoundIn, AnyOverlaps, Overlaps;
    if Framed(data, h, k) {
      RecordExact(Info(data, h, k), s, k, headerAddress, RecordRange(data, h, k), seen);
    }
  }

  /** No record from `index` on meets one of the ranges. */
  ghost predicate ApartFrom(ranges: seq<FileRange>, data: seq<byte>, h: Head, count: nat, index: nat) {
    forall k :: index <= k < count && Framed(data, h, k) ==> !AnyOverlaps(ranges, RecordRange(data, h, k))
  }

  ghost predicate RestValid(data: seq<byte>, h: Head, segments: seq<Segment>, headerAddress: u64, index: nat, seen: Seen) {
    && RecordsValid(data, h, segments, headerAddress, index) && RecordsApart(data, h, |segments|, index)
    && ApartFrom(seen.ranges, data, h, |segments|, index) && seen.visits + Visits(data, h, |segments|, index) <= MAX_PAGE_START_VISITS
  }

  lemma RestSkip(data: seq<byte>, h: Head, segments: seq<Segment>, headerAddress: u64, index: nat, seen: Seen)
    requires index < |segments| && !Listed(data, h, index)
    ensures RestValid(data, h, segments, headerAddress, index, seen) <==> RestValid(data, h, segments, headerAddress, index + 1, seen)
  {
    hide Listed, RecordValid, AnyOverlaps, Overlaps, InfoTotals, RecordRange, Info;
    NotFramed(data, h, index);
    assert Visits(data, h, |segments|, index) == Visits(data, h, |segments|, index + 1);
    hide Framed, Visits;
    assert forall k :: !RecordsOverlap(data, h, index, k);
  }

  lemma NotFramed(data: seq<byte>, h: Head, k: nat)
    requires !Listed(data, h, k)
    ensures !Framed(data, h, k)
  {
  }

  lemma OverlapsSnoc(ranges: seq<FileRange>, last: FileRange, r: FileRange)
    ensures AnyOverlaps(ranges + [last], r) <==> AnyOverlaps(ranges, r) || Overlaps(last, r)
  {
    hide Overlaps;
    var all := ranges + [last];
    assert all[|ranges|] == last && forall i :: 0 <= i < |ranges| ==> all[i] == ranges[i];
    if AnyOverlaps(ranges, r) {
      var i :| 0 <= i < |ranges| && Overlaps(ranges[i], r);
      assert Overlaps(all[i], r);
    }
  }

  lemma RestStep(data: seq<byte>, h: Head, segments: seq<Segment>, headerAddress: u64, index: nat, seen: Seen, next: Seen)
    requires index < |segments| && Framed(data, h, index)
    requires next.ranges == seen.ranges + [RecordRange(data, h, index)]
    requires next.visits == seen.visits + InfoTotals(Info(data, h, index)).visits
    ensures RestValid(data, h, segments, headerAddress, index, seen) <==>
            && RecordValid(data, h, segments[index], index, headerAddress) && !AnyOverlaps(seen.ranges, RecordRange(data, h, index))
            && RestValid(data, h, segments, headerAddress, index + 1, next)
  {
    var count := |segments|;
    ValidStep(data, h, segments, headerAddress, index);
    ApartStep(data, h, count, index, seen.ranges);
    assert Visits(data, h, count, index) == InfoTotals(Info(data, h, index)).visits + Visits(data, h, count, index + 1);
    hide Visits, RecordsValid, RecordsApart, ApartFrom, RecordValid, AnyOverlaps, InfoTotals, Info, RecordRange, Framed;
  }

  lemma ValidStep(data: seq<byte>, h: Head, segments: seq<Segment>, headerAddress: u64, index: nat)
    requires index < |segments| && Framed(data, h, index)
    ensures RecordsValid(data, h, segments, headerAddress, index) <==>
            RecordValid(data, h, segments[index], index, headerAddress) && RecordsValid(data, h, segments, headerAddress, index + 1)
  {
    assert Listed(data, h, index);
    hide Listed, RecordValid, Framed;
  }

  lemma ApartStep(data: seq<byte>, h: Head, count: nat, index: nat, ranges: seq<FileRange>)
    requires index < count && Framed(data, h, index)
    ensures RecordsApart(data, h, count, index) && ApartFrom(ranges, data, h, count, index) <==>
            && !AnyOverlaps(ranges, RecordRange(data, h, index))
            && RecordsApart(data, h, count, index + 1) && ApartFrom(ranges + [RecordRange(data, h, index)], data, h, count, index + 1)
  {
    hide Framed, RecordRange, AnyOverlaps, Overlaps;
    var range := RecordRange(data, h, index);
    forall k | index + 1 <= k < count && Framed(data, h, k)
      ensures AnyOverlaps(ranges + [range], RecordRange(data, h, k)) <==> AnyOverlaps(ranges, RecordRange(data, h, k)) || RecordsOverlap(data, h, index, k)
    {
      OverlapsSnoc(ranges, range, RecordRange(data, h, k));
    }
  }

  lemma {:induction false} FixupSegmentsExact(data: seq<byte>, h: Head, segments: seq<Segment>, headerAddress: u64, index: nat, seen: Seen)
    requires index <= |segments| && TableFits(data, h, |segments|) && seen.visits <= MAX_PAGE_START_VISITS
    ensures FixupSegments(data, h, segments, headerAddress, index, seen).Ok? <==> RestValid(data, h, segments, headerAddress, index, seen)
    ensures FixupSegments(data, h, segments, headerAddress, index, seen).Ok? ==>
              FixupSegments(data, h, segments, headerAddress, index, seen).value.found == seen.found + Found(data, h, |segments|, index)
    decreases |segments| - index
  {
    hide FixupStep, RecordValid, AnyOverlaps, InfoTotals, Info, RecordRange, FoundIn, U32, RestValid;
    if index == |segments| {
      RestNil(data, h, segments, headerAddress, seen);
    } else {
      var s := segments[index];
      StepExact(data, h, s, index, headerAddress, seen);
      var next := FixupStep(data, h, s, index, headerAddress, seen);
      if !Listed(data, h, index) {
        RestSkip(data, h, segments, headerAddress, index, seen);
        NotFramed(data, h, index);
        FixupSegmentsExact(data, h, segments, headerAddress, index + 1, seen);
      } else if Framed(data, h, index) {
        ListedStep(data, h, segments, headerAddress, index, seen);
        if next.Ok? {
          FixupSegmentsExact(data, h, segments, headerAddress, index + 1, next.value);
        }
      } else {
        UnframedRefused(data, h, segments, headerAddress, index, seen);
      }
    }
  }

  lemma RestNil(data: seq<byte>, h: Head, segments: seq<Segment>, headerAddress: u64, seen: Seen)
    requires seen.visits <= MAX_PAGE_START_VISITS
    ensures RestValid(data, h, segments, headerAddress, |segments|, seen)
  {
  }

  lemma UnframedRefused(data: seq<byte>, h: Head, segments: seq<Segment>, headerAddress: u64, index: nat, seen: Seen)
    requires index < |segments| && Listed(data, h, index) && !Framed(data, h, index)
    ensures !RestValid(data, h, segments, headerAddress, index, seen) && !RecordValid(data, h, segments[index], index, headerAddress)
  {
    assert !RecordValid(data, h, segments[index], index, headerAddress);
    hide Framed, RecordValid, Listed;
  }

  lemma ListedStep(data: seq<byte>, h: Head, segments: seq<Segment>, headerAddress: u64, index: nat, seen: Seen)
    requires index < |segments| && TableFits(data, h, |segments|) && seen.visits <= MAX_PAGE_START_VISITS && Framed(data, h, index)
    ensures var next := FixupStep(data, h, segments[index], index, headerAddress, seen);
            if next.Ok? then
              && next.value.visits <= MAX_PAGE_START_VISITS
              && (RestValid(data, h, segments, headerAddress, index, seen) <==> RestValid(data, h, segments, headerAddress, index + 1, next.value))
            else !RestValid(data, h, segments, headerAddress, index, seen)
  {
    StepExact(data, h, segments[index], index, headerAddress, seen);
    var next := Seen(seen.ranges + [RecordRange(data, h, index)], seen.visits + InfoTotals(Info(data, h, index)).visits, seen.found + [FoundIn(Info(data, h, index), index)]);
    RestStep(data, h, segments, headerAddress, index, seen, next);
    RestVisits(data, h, segments, headerAddress, index + 1, next);
    assert Listed(data, h, index);
    hide FixupStep, RecordValid, RestValid, Framed, Listed, AnyOverlaps, InfoTotals, Info, RecordRange, FoundIn;
  }

  lemma RestVisits(data: seq<byte>, h: Head, segments: seq<Segment>, headerAddress: u64, index: nat, seen: Seen)
    ensures RestValid(data, h, segments, headerAddress, index, seen) ==> seen.visits <= MAX_PAGE_START_VISITS
  {
    hide RecordsValid, RecordsApart, ApartFrom, Visits;
  }

  /** The fixup table is accepted exactly when it is valid, and every record is reported. */
  lemma FixupsExact(bytes: seq<byte>, file: FileRange, segments: seq<Segment>, headerAddress: u64)
    requires file.End() <= |bytes|
    ensures ParseFixups(bytes, file, segments, headerAddress).Ok? <==> FixupsValid(bytes, file, segments, headerAddress)
    ensures FixupsValid(bytes, file, segments, headerAddress) ==>
              ParseFixups(bytes, file, segments, headerAddress).value == FixupsValue(bytes, file, segments)
  {
    var data := bytes[file.offset..file.End()];
    hide ParseHead, HeadOf, FixupSegments, U32, Overlaps, Visits, Found, RecordsValid, RecordsApart, ApartFrom;
    if |data| <= MAX_FIXUP_BYTES {
      HeadExact(data, |segments|);
      if HeadValid(data, |segments|) {
        var h := HeadOf(data, |segments|);
        HeadTable(data, |segments|);
        FixupSegmentsExact(data, h, segments, headerAddress, 0, Seen([], 0, []));
        ApartFromNone(data, h, |segments|);
      }
    }
  }

  lemma HeadTable(data: seq<byte>, count: nat)
    requires HeadValid(data, count)
    ensures TableFits(data, HeadOf(data, count), count)
  {
    hide U32, Overlaps;
  }

  lemma ApartFromNone(data: seq<byte>, h: Head, count: nat)
    ensures ApartFrom([], data, h, count, 0)
  {
    hide Framed, RecordRange;
  }

  function FixupsValue(bytes: seq<byte>, file: FileRange, segments: seq<Segment>): Fixups
    requires file.End() <= |bytes| && 28 <= file.size <= MAX_FIXUP_BYTES
    requires U32(bytes[file.offset..file.End()], 12) <= file.size
  {
    var data := bytes[file.offset..file.End()];
    Fixups(file, U32(data, 16), U32(data, 20), U32(data, 24), Found(data, HeadOf(data, |segments|), |segments|, 0))
  }

  //////////////////////////////////////////////////////////////////////////////
  // Images
  //////////////////////////////////////////////////////////////////////////////

  predicate SomePlacesHeader(segments: seq<Segment>, header: FileRange, address: u64) {
    exists i :: 0 <= i < |segments| && PlacesHeader(segments[i], header, address)
  }

  /** In segments that share no file byte, the header has the one address at which a segment's file bytes hold it. */
  lemma {:induction false} HeaderExact(segments: seq<Segment>, header: FileRange, address: u64)
    requires Pairwise(segments, ApartInFile) && header.size > 0
    ensures HeaderAddress(segments, header) == Some(address) <==> SomePlacesHeader(segments, header, address)
    decreases |segments|
  {
    hide Contains, Pairwise, PlacesHeader, ApartInFile;
    if segments != [] {
      var s, rest := segments[0], segments[1..];
      assert segments == [s] + rest;
      TailApart(s, rest);
      HeaderExact(rest, header, address);
      PlacesCons(s, rest, header, address);
      HeadPlaces(s, rest, header, address);
      OnlyHeadPlaces(s, rest, header, address);
    }
  }

  lemma TailApart(s: Segment, rest: seq<Segment>)
    requires Pairwise([s] + rest, ApartInFile)
    ensures Pairwise(rest, ApartInFile) && All(rest, s, ApartInFile)
  {
    PairwiseCons(s, rest, ApartInFile);
  }

  lemma PlacesCons(s: Segment, rest: seq<Segment>, header: FileRange, address: u64)
    ensures SomePlacesHeader([s] + rest, header, address) <==> PlacesHeader(s, header, address) || SomePlacesHeader(rest, header, address)
  {
    hide PlacesHeader;
    var all := [s] + rest;
    assert all[0] == s && forall i :: 0 <= i < |rest| ==> all[i + 1] == rest[i];
    if SomePlacesHeader(rest, header, address) {
      var i :| 0 <= i < |rest| && PlacesHeader(rest[i], header, address);
      assert PlacesHeader(all[i + 1], header, address);
    }
  }

  lemma HeadPlaces(s: Segment, rest: seq<Segment>, header: FileRange, address: u64)
    ensures var all := [s] + rest;
            if Contains(s.file, header) && Fits64(s.address + (header.offset - s.file.offset))
            then HeaderAddress(all, header) == Some(address) <==> PlacesHeader(s, header, address)
            else HeaderAddress(all, header) == HeaderAddress(rest, header) && !PlacesHeader(s, header, address)
  {
    assert ([s] + rest)[1..] == rest;
  }

  lemma OnlyHeadPlaces(s: Segment, rest: seq<Segment>, header: FileRange, address: u64)
    requires All(rest, s, ApartInFile) && header.size > 0
    ensures Contains(s.file, header) ==> !SomePlacesHeader(rest, header, address)
  {
    forall i | 0 <= i < |rest| ensures Contains(s.file, header) ==> !PlacesHeader(rest[i], header, address) {
      assert ApartInFile(rest[i], s) || ApartInFile(s, rest[i]);
    }
  }

  ghost predicate RangesInFile(bytes: seq<byte>, ranges: seq<FileRange>) {
    forall i :: 0 <= i < |ranges| ==> InFile(bytes, ranges[i])
  }

  lemma {:induction false} RangesExact(bytes: seq<byte>, ranges: seq<FileRange>)
    ensures RangesError(bytes, ranges).None? <==> RangesInFile(bytes, ranges)
    decreases |ranges|
  {
    if ranges != [] {
      RangesExact(bytes, ranges[1..]);
      assert forall i :: 1 <= i < |ranges| ==> ranges[i] == ranges[1..][i - 1];
      assert forall i :: 0 <= i < |ranges| - 1 ==> ranges[1..][i] == ranges[i + 1];
    }
  }

  function HeaderRange(base: u64, h: Decoded): FileRange
    requires Fits64(base + 32 + h.commandBytes)
  {
    FileRange(base, 32 + h.commandBytes)
  }

  ghost predicate FixupPartValid(bytes: seq<byte>, h: Decoded, address: u64) {
    h.fixups.Some? ==> h.fixups.value.End() <= |bytes| && FixupsValid(bytes, h.fixups.value, h.segments, address)
  }

  /** The header and its counts are in order. */
  predicate HeaderValid(bytes: seq<byte>, base: u64, h: Decoded, outer: bool, arm: bool) {
    && CpuOk(arm, h.cpuSubtype) && (if outer then h.fileType == 12 else h.fileType == 2 || h.fileType == 11)
    && h.commandBytes % 8 == 0 && h.commandCount <= h.commandBytes / 8 && h.commandBytes <= MAX_COMMAND_BYTES
    && Fits64(base + 32 + h.commandBytes) && base + 32 + h.commandBytes <= |bytes|
  }

  /** The image at a file offset is valid, and its header stands at `address` in memory. */
  ghost predicate ImageValid(bytes: seq<byte>, base: u64, h: Decoded, outer: bool, arm: bool, address: u64) {
    && HeaderValid(bytes, base, h, outer, arm)
    && h.segments != [] && AllSegmentsValid(bytes, h.segments)
    && Pairwise(h.segments, ApartInMemory) && Pairwise(h.segments, ApartInFile)
    && SomePlacesHeader(h.segments, HeaderRange(base, h), address)
    && RangesInFile(bytes, AllRanges(h)) && LinkeditOk(h.segments, AllRanges(h)) && SymbolsOk(h)
    && FixupPartValid(bytes, h, address)
  }

  function FixupPart(bytes: seq<byte>, h: Decoded, address: u64): Option<Fixups> {
    var f := FixupsOf(bytes, h, address);
    if f.Ok? then f.value else None
  }

  /** What is reported of a valid image. */
  function ImageOf(bytes: seq<byte>, base: u64, h: Decoded, address: u64): Image {
    Image(h.cpuSubtype, base, address, h.fileType, h.commandBytes, h.segments, h.entry, h.relocations, FixupPart(bytes, h, address))
  }

  /** An image is accepted exactly when it is valid and can be paid for; the result is that image, at its one address. */
  lemma ImageExact(bytes: seq<byte>, base: u64, h: Decoded, outer: bool, arm: bool, budget: Budget, address: u64)
    requires Affordable(budget) && Fits64(|bytes|)
    ensures InspectImage(bytes, base, h, outer, arm, budget).Ok? && InspectImage(bytes, base, h, outer, arm, budget).value.image.headerAddress == address
            <==> ImageValid(bytes, base, h, outer, arm, address) && Affordable(Spent(budget, h))
    ensures InspectImage(bytes, base, h, outer, arm, budget).Ok? ==>
              InspectImage(bytes, base, h, outer, arm, budget).value
              == Parsed(ImageOf(bytes, base, h, InspectImage(bytes, base, h, outer, arm, budget).value.image.headerAddress), Spent(budget, h))
  {
    hide SegmentsError, NonOverlap, LinkeditOk, SymbolsOk, HeaderAddress, ParseFixups, RangesError, AllRanges, CpuOk,
      AllSegmentsValid, Pairwise, SomePlacesHeader, RangesInFile, FixupsValid, SectionTotal;
    RangesExact(bytes, AllRanges(h));
    NonOverlapExact(h.segments);
    if budget.commands + h.commandCount <= MAX_COMMANDS {
      SegmentsExact(bytes, h.segments, budget.(commands := budget.commands + h.commandCount));
    }
    if HeaderValid(bytes, base, h, outer, arm) && Pairwise(h.segments, ApartInFile) {
      HeaderExact(h.segments, HeaderRange(base, h), address);
    }
    if h.fixups.Some? && h.fixups.value.End() <= |bytes| {
      FixupsExact(bytes, h.fixups.value, h.segments, address);
    }
  }

  //////////////////////////////////////////////////////////////////////////////
  // The collection
  //////////////////////////////////////////////////////////////////////////////

  predicate ReferenceValid(bytes: seq<byte>, m: Reference) {
    0 < |m.identifier| <= MAX_IDENTIFIER && 0 < m.offset && Fits64(m.offset + 32) && m.offset + 32 <= |bytes|
  }

  predicate Distinct(a: Reference, b: Reference) {
    !SameMember(a, b)
  }

  /** Entry k of the member table is in order and shares nothing with an earlier one. */
  ghost predicate EntryValid(bytes: seq<byte>, references: seq<Reference>, k: nat)
    requires k < |references|
  {
    ReferenceValid(bytes, references[k]) && forall j :: 0 <= j < k ==> Distinct(references[j], references[k])
  }

  lemma {:induction false} ReferencesExact(bytes: seq<byte>, references: seq<Reference>, k: nat)
    requires k <= |references| && k <= MAX_MEMBERS
    ensures ReferencesError(bytes, references, k).None? <==>
            |references| <= MAX_MEMBERS && forall i :: k <= i < |references| ==> EntryValid(bytes, references, i)
    decreases |references| - k
  {
    hide EntryValid, ReferencesError;
    if k < |references| {
      ReferenceStep(bytes, references, k);
      if k < MAX_MEMBERS {
        ReferencesExact(bytes, references, k + 1);
      }
    } else {
      NoReferenceError(bytes, references);
    }
  }

  lemma NoReferenceError(bytes: seq<byte>, references: seq<Reference>)
    ensures ReferencesError(bytes, references, |references|).None?
  {
  }

  lemma ReferenceStep(bytes: seq<byte>, references: seq<Reference>, k: nat)
    requires k < |references| && k <= MAX_MEMBERS
    ensures if k < MAX_MEMBERS && EntryValid(bytes, references, k)
            then ReferencesError(bytes, references, k) == ReferencesError(bytes, references, k + 1)
            else ReferencesError(bytes, references, k).Some?
  {
    hide SameMember;
  }

  ghost predicate TableValid(bytes: seq<byte>, references: seq<Reference>) {
    && |references| <= MAX_MEMBERS && (forall i :: 0 <= i < |references| ==> ReferenceValid(bytes, references[i]))
    && Pairwise(references, Distinct)
  }

  lemma TableExact(bytes: seq<byte>, references: seq<Reference>)
    ensures ReferencesError(bytes, references, 0).None? <==> TableValid(bytes, references)
  {
    hide ReferencesError, ReferenceValid, Distinct;
    ReferencesExact(bytes, references, 0);
    if TableValid(bytes, references) {
      forall i | 0 <= i < |references| ensures EntryValid(bytes, references, i) {
      }
    }
    if forall i :: 0 <= i < |references| ==> EntryValid(bytes, references, i) {
      forall i, j | 0 <= i < j < |references| ensures Distinct(references[i], references[j]) {
        assert EntryValid(bytes, references, j);
      }
      forall i | 0 <= i < |references| ensures ReferenceValid(bytes, references[i]) {
        assert EntryValid(bytes, references, i);
      }
    }
  }

  /** A member shows its header and its segments' bytes where the collection maps them. */
  ghost predicate MemberShown(outer: seq<Segment>, r: Reference)
    requires Fits64(r.offset + 32 + r.header.commandBytes)
  {
    && IsCollectionView(outer, HeaderRange(r.offset, r.header), r.address)
    && forall i :: 0 <= i < |r.header.segments| ==> MemberSegmentOk(outer, r.header.segments[i])
  }

  ghost predicate MemberValid(bytes: seq<byte>, outer: Decoded, r: Reference, arm: bool) {
    && ImageValid(bytes, r.offset, r.header, false, arm, r.address)
    && r.header.cpuSubtype == outer.cpuSubtype && MemberShown(outer.segments, r)
  }

  ghost predicate MembersValid(bytes: seq<byte>, outer: Decoded, references: seq<Reference>, arm: bool) {
    forall i :: 0 <= i < |references| ==> MemberValid(bytes, outer, references[i], arm)
  }

  /** The budget after all members. */
  function MembersSpent(b: Budget, references: seq<Reference>): Budget
    decreases |references|
  {
    if references == [] then b else MembersSpent(Spent(b, references[0].header), references[1..])
  }

  lemma {:induction false} SpentGrows(b: Budget, references: seq<Reference>)
    ensures Affordable(MembersSpent(b, references)) ==> Affordable(b)
    decreases |references|
  {
    if references != [] {
      SpentGrows(Spent(b, references[0].header), references[1..]);
    }
  }

  function MemberImages(bytes: seq<byte>, references: seq<Reference>): (r: seq<Image>)
    ensures |r| == |references|
  {
    if references == [] then []
    else [ImageOf(bytes, references[0].offset, references[0].header, references[0].address)] + MemberImages(bytes, references[1..])
  }

  lemma MembersCons(bytes: seq<byte>, outer: Decoded, r: Reference, rest: seq<Reference>, arm: bool)
    ensures MembersValid(bytes, outer, [r] + rest, arm) <==> MemberValid(bytes, outer, r, arm) && MembersValid(bytes, outer, rest, arm)
  {
    hide MemberValid;
    var all := [r] + rest;
    assert all[0] == r && forall i :: 0 <= i < |rest| ==> all[i + 1] == rest[i];
  }

  /** One member passes the inspector exactly when it is valid and can be paid for. */
  predicate MemberPasses(bytes: seq<byte>, outer: Image, r: Reference, arm: bool, budget: Budget) {
    var child := InspectImage(bytes, r.offset, r.header, false, arm, budget);
    && child.Ok? && child.value.image.cpuSubtype == outer.cpuSubtype && child.value.image.headerAddress == r.address
    && MemberOk(outer.segments, child.value.image)
  }

  lemma MemberExact(bytes: seq<byte>, outer: Decoded, image: Image, r: Reference, arm: bool, budget: Budget)
    requires Affordable(budget) && Fits64(|bytes|) && image.cpuSubtype == outer.cpuSubtype && image.segments == outer.segments
    ensures MemberPasses(bytes, image, r, arm, budget) <==> MemberValid(bytes, outer, r, arm) && Affordable(Spent(budget, r.header))
    ensures MemberPasses(bytes, image, r, arm, budget) ==>
              InspectImage(bytes, r.offset, r.header, false, arm, budget).value == Parsed(ImageOf(bytes, r.offset, r.header, r.address), Spent(budget, r.header))
  {
    hide InspectImage, MemberOk, MemberShown, ImageValid, ImageOf, Spent, Affordable;
    ImageExact(bytes, r.offset, r.header, false, arm, budget, r.address);
    ImageFields(bytes, r.offset, r.header, r.address);
    if ImageValid(bytes, r.offset, r.header, false, arm, r.address) {
      ValidHeader(bytes, r, arm);
      ShownExact(bytes, outer.segments, r);
    }
  }

  lemma ImageFields(bytes: seq<byte>, base: u64, h: Decoded, address: u64)
    ensures var i := ImageOf(bytes, base, h, address);
            && i.cpuSubtype == h.cpuSubtype && i.headerFileOffset == base && i.headerAddress == address
            && i.commandBytes == h.commandBytes && i.segments == h.segments
  {
  }

  lemma ValidHeader(bytes: seq<byte>, r: Reference, arm: bool)
    requires ImageValid(bytes, r.offset, r.header, false, arm, r.address)
    ensures Fits64(r.offset + 32 + r.header.commandBytes) && r.header.commandBytes <= MAX_COMMAND_BYTES
  {
    hide AllSegmentsValid, Pairwise, SomePlacesHeader, RangesInFile, LinkeditOk, SymbolsOk, AllRanges, FixupPartValid;
  }

  lemma ShownExact(bytes: seq<byte>, outer: seq<Segment>, r: Reference)
    requires Fits64(r.offset + 32 + r.header.commandBytes) && r.header.commandBytes <= MAX_COMMAND_BYTES
    ensures MemberOk(outer, ImageOf(bytes, r.offset, r.header, r.address)) <==> MemberShown(outer, r)
  {
    hide ImageOf, IsCollectionView, MemberSegmentOk;
    ImageFields(bytes, r.offset, r.header, r.address);
  }

  lemma {:induction false} MembersExact(bytes: seq<byte>, outer: Decoded, image: Image, references: seq<Reference>, arm: bool, budget: Budget)
    requires Affordable(budget) && Fits64(|bytes|) && image.cpuSubtype == outer.cpuSubtype && image.segments == outer.segments
    ensures InspectMembers(bytes, image, references, arm, budget).Ok? <==>
            MembersValid(bytes, outer, references, arm) && Affordable(MembersSpent(budget, references))
    ensures InspectMembers(bytes, image, references, arm, budget).Ok? ==>
              InspectMembers(bytes, image, references, arm, budget).value == MemberImages(bytes, references)
    decreases |references|
  {
    hide InspectImage, MemberOk, MemberValid, Affordable, Spent, ImageOf;
    if references != [] {
      var r, rest := references[0], references[1..];
      assert references == [r] + rest;
      MembersCons(bytes, outer, r, rest, arm);
      MemberExact(bytes, outer, image, r, arm, budget);
      SpentGrows(Spent(budget, r.header), rest);
      if MemberPasses(bytes, image, r, arm, budget) {
        MembersExact(bytes, outer, image, rest, arm, Spent(budget, r.header));
      }
    }
  }

  predicate EntryOf(h: Decoded) {
    h.entry.Some? && !h.entry.value.Main? && exists i :: 0 <= i < |h.segments| && Runs(h.segments[i], h.entry.value)
  }

  /** A collection: a valid outer image with an entry that runs, at least one member, all of them valid, within the budgets. */
  ghost predicate CollectionValid(bytes: seq<byte>, header: Decoded, references: seq<Reference>, arm: bool, address: u64) {
    && |bytes| <= MAX_INPUT_SIZE && references != [] && TableValid(bytes, references)
    && ImageValid(bytes, 0, header, true, arm, address) && EntryOf(header)
    && MembersValid(bytes, header, references, arm)
    && Affordable(MembersSpent(Spent(Budget(0, 0, 0), header), references))
  }

  /** A collection is accepted exactly when it is valid, and the inspection reports its image and those of its members. */
  lemma InspectExact(bytes: seq<byte>, header: Decoded, references: seq<Reference>, arm: bool)
    ensures Inspect(bytes, header, references, arm).Ok? <==> exists address: u64 :: CollectionValid(bytes, header, references, arm, address)
    ensures forall address: u64 :: CollectionValid(bytes, header, references, arm, address) ==>
              Inspect(bytes, header, references, arm) == Ok(Inspection(ImageOf(bytes, 0, header, address), MemberImages(bytes, references)))
  {
    hide Inspect, CollectionValid;
    forall address: u64 | CollectionValid(bytes, header, references, arm, address)
      ensures Inspect(bytes, header, references, arm) == Ok(Inspection(ImageOf(bytes, 0, header, address), MemberImages(bytes, references)))
    {
      ValidIsInspected(bytes, header, references, arm, address);
    }
    if Inspect(bytes, header, references, arm).Ok? {
      var address := InspectedIsValid(bytes, header, references, arm);
    }
  }

  lemma ValidIsInspected(bytes: seq<byte>, header: Decoded, references: seq<Reference>, arm: bool, address: u64)
    requires CollectionValid(bytes, header, references, arm, address)
    ensures Inspect(bytes, header, references, arm) == Ok(Inspection(ImageOf(bytes, 0, header, address), MemberImages(bytes, references)))
  {
    hide InspectImage, InspectMembers, ReferencesError, ImageValid, MembersValid, TableValid, Runs, FixupPart, MembersSpent, Spent;
    TableExact(bytes, references);
    SpentGrows(Spent(Budget(0, 0, 0), header), references);
    ImageExact(bytes, 0, header, true, arm, Budget(0, 0, 0), address);
    MembersExact(bytes, header, ImageOf(bytes, 0, header, address), references, arm, Spent(Budget(0, 0, 0), header));
  }

  lemma InspectedIsValid(bytes: seq<byte>, header: Decoded, references: seq<Reference>, arm: bool) returns (address: u64)
    requires Inspect(bytes, header, references, arm).Ok?
    ensures CollectionValid(bytes, header, references, arm, address)
  {
    hide InspectImage, InspectMembers, ReferencesError, ImageValid, MembersValid, TableValid, Runs, FixupPart, MembersSpent, Spent;
    var outer := InspectImage(bytes, 0, header, true, arm, Budget(0, 0, 0)).value;
    address := outer.image.headerAddress;
    TableExact(bytes, references);
    ImageExact(bytes, 0, header, true, arm, Budget(0, 0, 0), address);
    MembersExact(bytes, header, outer.image, references, arm, Spent(Budget(0, 0, 0), header));
  }
}
