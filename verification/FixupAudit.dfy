/**
 The audit of the fixups of an accepted collection: one record for every classic relocation and every
 word of every pointer chain, and an issue for everything a consumer would have to refuse.
 */
module FixupAudit {
  import opened Wrappers
  import opened Words
  import opened Sorting
  import opened Spans
  import opened C = Collection
  import O = OverlapSweep

  const MAX_AUDIT: nat := 1000000

  datatype AuditError = InvalidLimits | AuditLimit | InvalidMetadata | AuditOverflow

  datatype Limits = Limits(records: nat, issues: nat, pageStarts: nat)

  datatype IssueCode =
    | UnsupportedClassicType
    | UnsupportedClassicWidth
    | UnsupportedPcRelative
    | UnsupportedExternal
    | MissingClassicBase
    | NegativeSectionDisplacement
    | WriteOutsideSection
    | WriteOutsideFileMapping
    | WriteAddressOverflow
    | UnsupportedPointerFormat
    | UnsupportedImports
    | UnsupportedCompressedSymbols
    | UnsupportedMultiStartConsumer
    | ChainOutsidePage
    | ChainOutsideFileMapping
    | DuplicateChainVisit
    | MissingCacheBase
    | UnsupportedAuthentication
    | PointerTargetOverflow
    | PointerTargetOutsideMappings
    | SameMechanismWriteOverlap
    | CrossMechanismWriteOverlap

  datatype Issue = Issue(code: IssueCode, image: nat, record: Option<nat>, related: Option<nat>)

  datatype Table = LocalDynamic | ExternalDynamic | SectionTable

  datatype MemberOverlap = ExecutableMember | KextMember | BothMembers | OuterOnly

  datatype Detail =
    | Classic(table: Table, displacement: int, symbolOrdinal: nat, relocationType: nat, lengthExponent: nat,
              pcRelative: bool, external: bool, stored: Option<nat>)
    | Chain11(segmentIndex: nat, page: nat, target: nat, cacheLevel: nat, diversity: nat, addressDiversity: bool, key: nat,
              next: nat, authenticated: bool, resolved: Option<nat>, covered: bool)

  datatype Record = Record(
    image: nat,
    sourceOffset: nat,
    address: Option<nat>,
    file: Option<nat>,
    width: nat,
    overlap: MemberOverlap,
    detail: Detail)

  datatype Mapping = Mapping(start: nat, end: nat, fileEnd: nat, fileOffset: nat)

  datatype Env = Env(
    source: seq<byte>,
    limits: Limits,
    outer: seq<Mapping>,
    executable: seq<Span>,
    kext: seq<Span>,
    primaryBase: nat)

  datatype State = State(
    records: seq<Record>,
    issues: seq<Issue>,
    pageStarts: nat,
    chainStarts: nat,
    chainsTerminated: nat,
    chainRecords: nat,
    classicRecords: nat,
    multiStartPages: nat)

  //////////////////////////////////////////////////////////////////////////////
  // Mappings
  //////////////////////////////////////////////////////////////////////////////

  function MappingStart(m: Mapping): int {
    m.start
  }

  function MappingOf(s: Segment): Mapping {
    Mapping(s.address, s.End(), s.address + s.file.size, s.file.offset)
  }

  function MappingList(segments: seq<Segment>): Result<seq<Mapping>, AuditError>
    decreases |segments|
  {
    if segments == [] then Ok([])
    else if segments[0].memorySize == 0 then MappingList(segments[1..])
    else if !Fits64(segments[0].End()) || !Fits64(segments[0].address + segments[0].file.size) then Err(AuditOverflow)
    else
      var rest :- MappingList(segments[1..]);
      Ok([MappingOf(segments[0])] + rest)
  }

  function Mappings(segments: seq<Segment>): Result<seq<Mapping>, AuditError> {
    var list :- MappingList(segments);
    Ok(Sort(list, MappingStart))
  }

  function MappingSpans(maps: seq<Mapping>): (r: seq<Span>)
    ensures |r| == |maps| && forall i :: 0 <= i < |r| ==> r[i] == Span(maps[i].start, maps[i].end)
  {
    seq(|maps|, i requires 0 <= i < |maps| => Span(maps[i].start, maps[i].end))
  }

  /** The mapping that holds `width` bytes at an address. */
  function Containing(maps: seq<Mapping>, address: nat, width: nat): Option<Mapping> {
    var index := PartitionPoint(MappingSpans(maps), address, 0, |maps|);
    if index == 0 then None
    else if Fits64(address + width) && address + width <= maps[index - 1].end then Some(maps[index - 1])
    else None
  }

  /** The file offset of `width` file-backed bytes at an address. */
  function FileLocation(maps: seq<Mapping>, address: nat, width: nat): Option<nat> {
    var m := Containing(maps, address, width);
    if m.None? || address < m.value.start then None
    else if address + width <= m.value.fileEnd then Some(m.value.fileOffset + (address - m.value.start))
    else None
  }

  /** Segments whose mappings the audit can build and search. */
  ghost predicate Searchable(source: seq<byte>, segments: seq<Segment>) {
    (forall i :: 0 <= i < |segments| ==> SegmentOk(source, segments[i])) && Pairwise(segments, ApartInMemory)
  }

  predicate MapsSegment(m: Mapping, segments: seq<Segment>) {
    exists k :: 0 <= k < |segments| && segments[k].memorySize != 0 && m == MappingOf(segments[k])
  }

  predicate ApartMappings(a: Mapping, b: Mapping) {
    a.end <= b.start || b.end <= a.start
  }

  predicate HasMapping(maps: seq<Mapping>, s: Segment) {
    s.memorySize != 0 ==> MappingOf(s) in maps
  }

  /** The mappings of the nonempty segments, in the order of the segments. */
  ghost predicate Lists(segments: seq<Segment>, r: seq<Mapping>) {
    && (forall i :: 0 <= i < |r| ==> MapsSegment(r[i], segments))
    && (forall k :: 0 <= k < |segments| ==> HasMapping(r, segments[k]))
    && Pairwise(r, ApartMappings)
  }

  lemma ListsEmpty(segments: seq<Segment>, r: seq<Mapping>)
    requires segments != [] && segments[0].memorySize == 0 && Lists(segments[1..], r)
    ensures Lists(segments, r)
  {
    hide Pairwise, MapsSegment;
    forall i | 0 <= i < |r| ensures MapsSegment(r[i], segments) {
      MapsTail(r[i], segments);
    }
    forall k | 0 <= k < |segments| ensures HasMapping(r, segments[k]) {
      assert k > 0 ==> segments[k] == segments[1..][k - 1];
    }
  }

  lemma ListsCons(segments: seq<Segment>, rest: seq<Mapping>)
    requires segments != [] && segments[0].memorySize != 0 && Lists(segments[1..], rest)
    requires All(segments[1..], segments[0], ApartInMemory)
    ensures Lists(segments, [MappingOf(segments[0])] + rest)
  {
    hide Pairwise, MapsSegment, All;
    var r := [MappingOf(segments[0])] + rest;
    MapsHead(segments);
    forall i | 0 <= i < |rest| ensures MapsSegment(rest[i], segments) {
      MapsTail(rest[i], segments);
    }
    forall k | 0 <= k < |segments| ensures HasMapping(r, segments[k]) {
      assert k > 0 ==> segments[k] == segments[1..][k - 1] && HasMapping(rest, segments[1..][k - 1]);
    }
    AllMappingsApart(segments, rest);
    PairwiseCons(MappingOf(segments[0]), rest, ApartMappings);
  }

  lemma AllMappingsApart(segments: seq<Segment>, rest: seq<Mapping>)
    requires segments != [] && segments[0].memorySize != 0 && All(segments[1..], segments[0], ApartInMemory)
    requires forall i :: 0 <= i < |rest| ==> MapsSegment(rest[i], segments[1..])
    ensures All(rest, MappingOf(segments[0]), ApartMappings)
  {
    hide MapsSegment;
    forall i | 0 <= i < |rest| ensures ApartMappings(MappingOf(segments[0]), rest[i]) {
      HeadApart(segments, rest[i]);
    }
  }

  lemma SearchableCons(source: seq<byte>, segments: seq<Segment>)
    requires segments != [] && Searchable(source, segments)
    ensures Searchable(source, segments[1..]) && SegmentOk(source, segments[0]) && All(segments[1..], segments[0], ApartInMemory)
  {
    hide SegmentOk;
    assert segments == [segments[0]] + segments[1..];
    PairwiseCons(segments[0], segments[1..], ApartInMemory);
  }

  lemma {:induction false} MappingListHolds(source: seq<byte>, segments: seq<Segment>)
    requires Searchable(source, segments)
    ensures MappingList(segments).Ok? && Lists(segments, MappingList(segments).value)
    decreases |segments|
  {
    hide Lists, Searchable, MappingOf;
    if segments != [] {
      SearchableCons(source, segments);
      MappingListHolds(source, segments[1..]);
      if segments[0].memorySize != 0 {
        ListsCons(segments, MappingList(segments[1..]).value);
      } else {
        ListsEmpty(segments, MappingList(segments[1..]).value);
      }
    } else {
      NoMappings();
    }
  }

  lemma NoMappings()
    ensures Lists([], [])
  {
  }

  lemma MapsTail(m: Mapping, segments: seq<Segment>)
    requires segments != [] && MapsSegment(m, segments[1..])
    ensures MapsSegment(m, segments)
  {
    var k :| 0 <= k < |segments[1..]| && segments[1..][k].memorySize != 0 && m == MappingOf(segments[1..][k]);
    assert segments[k + 1] == segments[1..][k];
  }

  lemma MapsHead(segments: seq<Segment>)
    requires segments != [] && segments[0].memorySize != 0
    ensures MapsSegment(MappingOf(segments[0]), segments)
  {
  }

  lemma HeadApart(segments: seq<Segment>, m: Mapping)
    requires segments != [] && segments[0].memorySize != 0 && All(segments[1..], segments[0], ApartInMemory) && MapsSegment(m, segments[1..])
    ensures ApartMappings(MappingOf(segments[0]), m)
  {
    var k :| 0 <= k < |segments[1..]| && segments[1..][k].memorySize != 0 && m == MappingOf(segments[1..][k]);
    assert ApartInMemory(segments[0], segments[1..][k]);
  }

  /** The sorted mappings of searchable segments. */
  ghost predicate Searched(segments: seq<Segment>, maps: seq<Mapping>) {
    && (forall i :: 0 <= i < |maps| ==> MapsSegment(maps[i], segments))
    && (forall k :: 0 <= k < |segments| ==> HasMapping(maps, segments[k]))
    && SortedBy(MappingSpans(maps), Start) && AllNonempty(MappingSpans(maps))
    && Pairwise(maps, ApartMappings)
  }

  lemma MappingsHold(source: seq<byte>, segments: seq<Segment>)
    requires Searchable(source, segments)
    ensures Mappings(segments).Ok? && Searched(segments, Mappings(segments).value)
  {
    hide MapsSegment, Pairwise, Searchable, MappingList, SortedBy, Sort;
    MappingListHolds(source, segments);
    var list := MappingList(segments).value;
    var maps := Sort(list, MappingStart);
    SortSorted(list, MappingStart);
    SortPairwise(list, MappingStart, ApartMappings);
    forall i | 0 <= i < |maps| ensures MapsSegment(maps[i], segments) {
      SortMembers(list, MappingStart, maps[i]);
      var j :| 0 <= j < |list| && list[j] == maps[i];
    }
    forall k | 0 <= k < |segments| ensures HasMapping(maps, segments[k]) {
      SortMembers(list, MappingStart, MappingOf(segments[k]));
    }
    SortedSpans(maps);
    forall i | 0 <= i < |maps| ensures Nonempty(MappingSpans(maps)[i]) {
      MappedNonempty(maps[i], segments);
    }
    SearchedHolds(segments, maps);
  }

  lemma SearchedHolds(segments: seq<Segment>, maps: seq<Mapping>)
    requires forall i :: 0 <= i < |maps| ==> MapsSegment(maps[i], segments)
    requires forall k :: 0 <= k < |segments| ==> HasMapping(maps, segments[k])
    requires SortedBy(MappingSpans(maps), Start) && Pairwise(maps, ApartMappings) && AllNonempty(MappingSpans(maps))
    ensures Searched(segments, maps)
  {
    hide MapsSegment, HasMapping, SortedBy, Pairwise;
  }

  lemma MappedNonempty(m: Mapping, segments: seq<Segment>)
    requires MapsSegment(m, segments)
    ensures m.start < m.end
  {
  }

  lemma SortedSpans(maps: seq<Mapping>)
    requires SortedBy(maps, MappingStart)
    ensures SortedBy(MappingSpans(maps), Start)
  {
    forall i, j | 0 <= i < j < |maps| ensures Start(MappingSpans(maps)[i]) <= Start(MappingSpans(maps)[j]) {
      assert MappingStart(maps[i]) <= MappingStart(maps[j]);
    }
  }

  /** The binary search finds the segment that holds a range, whichever it is. */
  lemma ContainingFinds(segments: seq<Segment>, maps: seq<Mapping>, k: nat, address: nat, width: nat)
    requires Searched(segments, maps) && k < |segments| && segments[k].memorySize != 0 && Fits64(segments[k].End())
    requires width > 0 && segments[k].address <= address && address + width <= segments[k].End()
    ensures Containing(maps, address, width) == Some(MappingOf(segments[k]))
  {
    hide MapsSegment, Pairwise, SortedBy, PartitionPoint;
    assert HasMapping(maps, segments[k]);
    var j :| 0 <= j < |maps| && maps[j] == MappingOf(segments[k]);
    IndexOfHolder(maps, j, address);
  }

  lemma IndexOfHolder(maps: seq<Mapping>, j: nat, address: nat)
    requires SortedBy(MappingSpans(maps), Start) && Pairwise(maps, ApartMappings) && AllNonempty(MappingSpans(maps))
    requires j < |maps| && maps[j].start <= address < maps[j].end
    ensures PartitionPoint(MappingSpans(maps), address, 0, |maps|) == j + 1
  {
    hide Pairwise, PartitionPoint;
    var spans := MappingSpans(maps);
    PartitionPointSplits(spans, address, 0, |maps|);
    var n := PartitionPoint(spans, address, 0, |maps|);
    assert spans[j].start <= address;
    assert spans[n - 1].start <= address;
    assert Nonempty(spans[n - 1]);
    if j < n - 1 {
      assert Start(spans[j]) <= Start(spans[n - 1]);
      MappingsApart(maps, j, n - 1);
    }
  }

  lemma MappingsApart(maps: seq<Mapping>, i: nat, j: nat)
    requires Pairwise(maps, ApartMappings) && i < j < |maps|
    ensures ApartMappings(maps[i], maps[j])
  {
  }

  lemma ContainingMeans(segments: seq<Segment>, maps: seq<Mapping>, address: nat, width: nat) returns (k: nat)
    requires Searched(segments, maps) && Containing(maps, address, width).Some?
    ensures k < |segments| && segments[k].memorySize != 0 && Containing(maps, address, width) == Some(MappingOf(segments[k]))
    ensures segments[k].address <= address && address + width <= segments[k].End()
  {
    hide Pairwise, AllNonempty, PartitionPoint, SortedBy, HasMapping;
    PartitionPointSplits(MappingSpans(maps), address, 0, |maps|);
    var n := PartitionPoint(MappingSpans(maps), address, 0, |maps|);
    assert MappingSpans(maps)[n - 1].start <= address;
    assert MapsSegment(maps[n - 1], segments);
    k :| 0 <= k < |segments| && segments[k].memorySize != 0 && maps[n - 1] == MappingOf(segments[k]);
  }

  /** A file location is found exactly for ranges inside the file bytes of a segment, and it is their file offset. */
  lemma FileLocationFinds(segments: seq<Segment>, maps: seq<Mapping>, k: nat, address: nat, width: nat)
    requires Searched(segments, maps) && k < |segments| && Fits64(segments[k].End()) && segments[k].file.size <= segments[k].memorySize
    requires width > 0 && segments[k].address <= address && address + width <= segments[k].address + segments[k].file.size
    ensures FileLocation(maps, address, width) == Some(segments[k].file.offset + (address - segments[k].address))
  {
    hide Searched, Containing;
    ContainingFinds(segments, maps, k, address, width);
  }

  lemma FileLocationMeans(segments: seq<Segment>, maps: seq<Mapping>, address: nat, width: nat) returns (k: nat)
    requires Searched(segments, maps) && FileLocation(maps, address, width).Some?
    ensures k < |segments| && segments[k].memorySize != 0
    ensures segments[k].address <= address && address + width <= segments[k].address + segments[k].file.size
    ensures FileLocation(maps, address, width) == Some(segments[k].file.offset + (address - segments[k].address))
  {
    hide Searched, Containing;
    k := ContainingMeans(segments, maps, address, width);
  }

  //////////////////////////////////////////////////////////////////////////////
  // Reading, recording and reporting
  //////////////////////////////////////////////////////////////////////////////

  function ReadWord(source: seq<byte>, at: nat, width: nat): Result<nat, AuditError> {
    if !Fits64(at + width) then Err(AuditOverflow)
    else if at + width > |source| then Err(InvalidMetadata)
    else Ok(Word(source, at, width))
  }

  /** The overlap of a write with the members of each kind. */
  function OverlapOf(env: Env, address: Option<nat>, width: nat): MemberOverlap {
    if address.None? || !Fits64(address.value + width) then OuterOnly
    else
      var q := Span(address.value, address.value + width);
      match (Reaches(env.executable, q), Reaches(env.kext, q))
      case (true, true) => BothMembers
      case (true, false) => ExecutableMember
      case (false, true) => KextMember
      case (false, false) => OuterOnly
  }

  function AddIssue(env: Env, st: State, issue: Issue): Result<State, AuditError> {
    if |st.issues| >= env.limits.issues then Err(AuditLimit) else Ok(st.(issues := st.issues + [issue]))
  }

  function AddIssues(env: Env, st: State, image: nat, record: Option<nat>, codes: seq<IssueCode>): Result<State, AuditError>
    decreases |codes|
  {
    if codes == [] then Ok(st)
    else
      var next :- AddIssue(env, st, Issue(codes[0], image, record, None));
      AddIssues(env, next, image, record, codes[1..])
  }

  function AddRecord(env: Env, st: State, r: Record): Result<State, AuditError> {
    if |st.records| >= env.limits.records then Err(AuditLimit) else Ok(st.(records := st.records + [r]))
  }

  function VisitPageStart(env: Env, st: State): Result<State, AuditError> {
    if st.pageStarts >= env.limits.pageStarts then Err(AuditLimit) else Ok(st.(pageStarts := st.pageStarts + 1))
  }

  //////////////////////////////////////////////////////////////////////////////
  // Classic relocations
  //////////////////////////////////////////////////////////////////////////////

  datatype ClassicContext = ClassicContext(
    image: nat,
    sectionSize: Option<nat>,
    maps: seq<Mapping>,
    table: Table,
    records: Records,
    base: Option<nat>)

  function Signed32(x: u32): int {
    if x < 0x8000_0000 then x else x - U32_LIMIT
  }

  function WidthOf(lengthExponent: nat): (w: nat)
    ensures 1 <= w <= 8
  {
    if lengthExponent == 0 then 1 else if lengthExponent == 1 then 2 else if lengthExponent == 2 then 4 else 8
  }

  /** The file offset a classic write goes to: the image and the collection have to agree on it. */
  function ClassicFile(env: Env, maps: seq<Mapping>, address: Option<nat>, width: nat): Option<nat> {
    if address.None? then None
    else
      var file := FileLocation(maps, address.value, width);
      if file.Some? && FileLocation(env.outer, address.value, width) == file then file else None
  }

  function ClassicAddress(base: Option<nat>, displacement: int): Option<nat> {
    if base.Some? && Fits64(base.value + displacement) then Some(base.value + displacement) else None
  }

  function ClassicRecord(env: Env, c: ClassicContext, at: nat, low: u32, info: u32): Result<Record, AuditError> {
    var displacement := Signed32(low);
    var kind, length := info / 0x1000_0000, (info / 0x200_0000) % 4;
    var width := WidthOf(length);
    var pc, external := (info / 0x100_0000) % 2 == 1, (info / 0x800_0000) % 2 == 1;
    var address := ClassicAddress(c.base, displacement);
    var file := ClassicFile(env, c.maps, address, width);
    if file.Some? then
      var stored :- ReadWord(env.source, file.value, width);
      Ok(Record(c.image, at, address, file, width, OverlapOf(env, address, width),
                Classic(c.table, displacement, info % 0x100_0000, kind, length, pc, external, Some(stored))))
    else
      Ok(Record(c.image, at, address, file, width, OverlapOf(env, address, width),
                Classic(c.table, displacement, info % 0x100_0000, kind, length, pc, external, None)))
  }

  function When(condition: bool, code: IssueCode): seq<IssueCode> {
    if condition then [code] else []
  }

  /** The issues of one classic record, in the order they are raised. */
  function ClassicCodes(c: ClassicContext, r: Record): seq<IssueCode>
    requires r.detail.Classic?
  {
    KindCodes(c, r) + PlaceCodes(c, r)
  }

  function KindCodes(c: ClassicContext, r: Record): seq<IssueCode>
    requires r.detail.Classic?
  {
    When(r.detail.relocationType != 0, UnsupportedClassicType)
    + When(r.detail.lengthExponent < 2, UnsupportedClassicWidth)
    + When(r.detail.pcRelative, UnsupportedPcRelative)
    + When(r.detail.external || c.table == ExternalDynamic, UnsupportedExternal)
  }

  function PlaceCodes(c: ClassicContext, r: Record): seq<IssueCode>
    requires r.detail.Classic?
  {
    (if c.base.None? then [MissingClassicBase] else When(r.address.None?, WriteAddressOverflow))
    + When(c.table == SectionTable && r.detail.displacement < 0, NegativeSectionDisplacement)
    + When(c.sectionSize.Some? && (r.detail.displacement < 0 || r.detail.displacement + r.width > c.sectionSize.value), WriteOutsideSection)
    + When(r.file.None?, WriteOutsideFileMapping)
  }

  function ClassicStep(env: Env, st: State, c: ClassicContext, k: nat): Result<State, AuditError> {
    var at := c.records.offset + 8 * k;
    var low :- ReadWord(env.source, at, 4);
    var info :- ReadWord(env.source, at + 4, 4);
    WordBounds(env.source, at);
    var record :- ClassicRecord(env, c, at, low, info);
    var added :- AddRecord(env, st, record);
    AddIssues(env, added.(classicRecords := st.classicRecords + 1), c.image, Some(|st.records|), ClassicCodes(c, record))
  }

  lemma WordBounds(source: seq<byte>, at: nat)
    ensures at + 4 <= |source| ==> Word(source, at, 4) < U32_LIMIT
    ensures at + 8 <= |source| ==> Word(source, at + 4, 4) < U32_LIMIT && Word(source, at, 8) < U64_LIMIT
  {
    Pow2Word();
    hide Word, Pow2;
    if at + 4 <= |source| {
      WordBound(source, at, 4);
    }
    if at + 8 <= |source| {
      WordBound(source, at + 4, 4);
      WordBound(source, at, 8);
    }
  }

  /** A table of classic relocations from its k-th record on. */
  function ClassicFrom(env: Env, st: State, c: ClassicContext, k: nat): Result<State, AuditError>
    requires k <= c.records.count
    decreases c.records.count - k
  {
    if k == c.records.count then Ok(st)
    else
      var next :- ClassicStep(env, st, c, k);
      ClassicFrom(env, next, c, k + 1)
  }

  //////////////////////////////////////////////////////////////////////////////
  // Pointer chains
  //////////////////////////////////////////////////////////////////////////////

  /** A page of a segment; `offset` is where the page starts in the segment. */
  datatype ChainContext = ChainContext(image: nat, segmentIndex: nat, page: nat, segment: Segment, pageSize: nat, offset: nat)

  datatype Visit = Stop(state: State) | Continue(state: State, inPage: nat)

  function Resolved(env: Env, word: nat): Option<nat> {
    if (word / 0x4000_0000) % 4 == 0 && env.primaryBase != 0 && Fits64(env.primaryBase + word % 0x4000_0000) then
      Some(env.primaryBase + word % 0x4000_0000)
    else None
  }

  predicate TargetCovered(env: Env, word: nat) {
    Resolved(env, word).Some? && Containing(env.outer, Resolved(env, word).value, 1).Some?
  }

  function ChainRecord(env: Env, c: ChainContext, address: nat, file: nat, word: u64): Record {
    Record(c.image, file, Some(address), Some(file), 8, OverlapOf(env, Some(address), 8),
           Chain11(c.segmentIndex, c.page, word % 0x4000_0000, (word / 0x4000_0000) % 4,
                   (word / 0x1_0000_0000) % 0x1_0000, (word / 0x1_0000_0000_0000) % 2 == 1, (word / 0x2_0000_0000_0000) % 4,
                   (word / 0x8_0000_0000_0000) % 0x1000, word / 0x8000_0000_0000_0000 != 0, Resolved(env, word), TargetCovered(env, word)))
  }

  function ChainCodes(env: Env, r: Record): seq<IssueCode>
    requires r.detail.Chain11?
  {
    (if r.detail.cacheLevel != 0 || env.primaryBase == 0 then [MissingCacheBase]
     else if r.detail.resolved.None? then [PointerTargetOverflow]
     else When(!r.detail.covered, PointerTargetOutsideMappings))
    + When(r.detail.authenticated, UnsupportedAuthentication)
  }

  function StopWith(env: Env, st: State, c: ChainContext, code: IssueCode): Result<Visit, AuditError> {
    var next :- AddIssue(env, st, Issue(code, c.image, None, None));
    Ok(Stop(next))
  }

  datatype Recorded = Recorded(state: State, next: nat)

  /** Reads, records and reports the word of a chain, and says how far the next one is. */
  function RecordWord(env: Env, st: State, c: ChainContext, address: nat, file: nat): Result<Recorded, AuditError> {
    var word :- ReadWord(env.source, file, 8);
    WordBounds(env.source, file);
    var record := ChainRecord(env, c, address, file, word);
    var added :- AddRecord(env, st, record);
    var reported :- AddIssues(env, added.(chainRecords := st.chainRecords + 1), c.image, Some(|st.records|), ChainCodes(env, record));
    Ok(Recorded(reported, record.detail.next))
  }

  /** One word of a chain. */
  function ChainVisit(env: Env, st: State, c: ChainContext, inPage: nat): (r: Result<Visit, AuditError>)
    ensures r.Ok? && r.value.Continue? ==> inPage < r.value.inPage && inPage < c.pageSize
  {
    var offset := c.offset + inPage;
    if inPage >= c.pageSize then StopWith(env, st, c, ChainOutsidePage)
    else if !Fits64(offset) then Err(AuditOverflow)
    else if !Fits64(offset + 8) || offset + 8 > c.segment.file.size || offset + 8 > c.segment.memorySize then StopWith(env, st, c, ChainOutsideFileMapping)
    else if !Fits64(c.segment.address + offset) || !Fits64(c.segment.file.offset + offset) then Err(AuditOverflow)
    else
      var address, file := c.segment.address + offset, c.segment.file.offset + offset;
      if FileLocation(env.outer, address, 8) != Some(file) then StopWith(env, st, c, ChainOutsideFileMapping)
      else
        var word :- RecordWord(env, st, c, address, file);
        if word.next == 0 then Ok(Stop(word.state.(chainsTerminated := word.state.chainsTerminated + 1)))
        else if !Fits64(inPage + word.next) then Err(AuditOverflow)
        else Ok(Continue(word.state, inPage + word.next))
  }

  function ChainFrom(env: Env, st: State, c: ChainContext, inPage: nat): Result<State, AuditError>
    decreases if inPage < c.pageSize then c.pageSize - inPage else 0
  {
    var v :- ChainVisit(env, st, c, inPage);
    match v
    case Stop(next) => Ok(next)
    case Continue(next, further) => ChainFrom(env, next, c, further)
  }

  function StartChain(env: Env, st: State, c: ChainContext, start: nat): Result<State, AuditError> {
    if !Fits64(c.offset) then Err(AuditOverflow)
    else ChainFrom(env, st.(chainStarts := st.chainStarts + 1), c, start)
  }

  /** The starts of a page with several chains, from the slot at a file offset on. */
  function StartsFrom(env: Env, st: State, c: ChainContext, infoEnd: nat, at: nat): Result<State, AuditError>
    decreases if at < infoEnd then infoEnd - at else 0
  {
    var counted :- VisitPageStart(env, st);
    if !Fits64(at + 2) then Err(AuditOverflow)
    else if at + 2 > infoEnd then Err(InvalidMetadata)
    else
      var start :- ReadWord(env.source, at, 2);
      var next :- StartChain(env, counted, c, start % 0x8000);
      if start >= 0x8000 then Ok(next) else StartsFrom(env, next, c, infoEnd, at + 2)
  }

  function PageAt(env: Env, st: State, c: ChainContext, info: nat, infoEnd: nat): Result<State, AuditError> {
    var counted :- VisitPageStart(env, st);
    var first :- ReadWord(env.source, info + 22 + c.page * 2, 2);
    if first == 0xffff then Ok(counted)
    else if first < 0x8000 then StartChain(env, counted, c, first)
    else
      var reported :- AddIssue(env, counted.(multiStartPages := counted.multiStartPages + 1), Issue(UnsupportedMultiStartConsumer, c.image, None, None));
      StartsFrom(env, reported, c, infoEnd, info + 22 + (first % 0x8000) * 2)
  }

  function PagesFrom(env: Env, st: State, image: nat, s: Segment, f: FixupSegment, info: nat, infoEnd: nat, page: nat): Result<State, AuditError>
    requires page <= f.pageCount
    decreases f.pageCount - page
  {
    if page == f.pageCount then Ok(st)
    else
      var next :- PageAt(env, st, ChainContext(image, f.segmentIndex, page, s, f.pageSize, page * f.pageSize), info, infoEnd);
      PagesFrom(env, next, image, s, f, info, infoEnd, page + 1)
  }

  function SegmentFixups(env: Env, st: State, image: nat, i: Image, starts: nat, f: FixupSegment): Result<State, AuditError> {
    if f.pointerFormat != 11 then AddIssue(env, st, Issue(UnsupportedPointerFormat, image, None, None))
    else if f.segmentIndex >= |i.segments| then Err(InvalidMetadata)
    else if f.segmentOffset != WrapSub(i.segments[f.segmentIndex].address, i.headerAddress) then Err(InvalidMetadata)
    else
      var offset :- ReadWord(env.source, starts + 4 + f.segmentIndex * 4, 4);
      var size :- ReadWord(env.source, starts + offset, 4);
      PagesFrom(env, st, image, i.segments[f.segmentIndex], f, starts + offset, starts + offset + size, 0)
  }

  function FixupsFrom(env: Env, st: State, image: nat, i: Image, starts: nat, fixups: seq<FixupSegment>, k: nat): Result<State, AuditError>
    requires k <= |fixups|
    decreases |fixups| - k
  {
    if k == |fixups| then Ok(st)
    else
      var next :- SegmentFixups(env, st, image, i, starts, fixups[k]);
      FixupsFrom(env, next, image, i, starts, fixups, k + 1)
  }

  function ImageFixups(env: Env, st: State, image: nat, i: Image): Result<State, AuditError> {
    if i.fixups.None? then Ok(st)
    else
      var f := i.fixups.value;
      var imports :- if f.importsCount != 0 then AddIssue(env, st, Issue(UnsupportedImports, image, None, None)) else Ok(st);
      var symbols :- if f.symbolsFormat != 0 then AddIssue(env, imports, Issue(UnsupportedCompressedSymbols, image, None, None)) else Ok(imports);
      var relative :- ReadWord(env.source, f.file.offset + 4, 4);
      FixupsFrom(env, symbols, image, i, f.file.offset + relative, f.segments, 0)
  }

  //////////////////////////////////////////////////////////////////////////////
  // Images
  //////////////////////////////////////////////////////////////////////////////

  function AllSections(segments: seq<Segment>): seq<Section>
    decreases |segments|
  {
    if segments == [] then [] else segments[0].sections + AllSections(segments[1..])
  }

  function SectionsFrom(env: Env, st: State, image: nat, maps: seq<Mapping>, sections: seq<Section>): Result<State, AuditError>
    decreases |sections|
  {
    if sections == [] then Ok(st)
    else
      var s := sections[0];
      var next :- ClassicFrom(env, st, ClassicContext(image, Some(s.size), maps, SectionTable, s.relocations, Some(s.address)), 0);
      SectionsFrom(env, next, image, maps, sections[1..])
  }

  function FirstWritable(segments: seq<Segment>): Option<nat>
    decreases |segments|
  {
    if segments == [] then None
    else if (segments[0].initialProtection / 2) % 2 == 1 then Some(segments[0].address)
    else FirstWritable(segments[1..])
  }

  /** What classic displacements of an image count from. */
  function ClassicBase(i: Image): Option<nat> {
    if i.fileType == 11 then (if i.segments == [] then None else Some(i.segments[0].address)) else FirstWritable(i.segments)
  }

  function DynamicTables(env: Env, st: State, image: nat, i: Image, maps: seq<Mapping>): Result<State, AuditError> {
    if i.relocations.None? then Ok(st)
    else
      var r := i.relocations.value;
      var local :- ClassicFrom(env, st, ClassicContext(image, None, maps, LocalDynamic, r.local, ClassicBase(i)), 0);
      ClassicFrom(env, local, ClassicContext(image, None, maps, ExternalDynamic, r.external, ClassicBase(i)), 0)
  }

  function AuditImage(env: Env, st: State, image: nat, i: Image): Result<State, AuditError> {
    var maps :- Mappings(i.segments);
    var dynamic :- DynamicTables(env, st, image, i, maps);
    var sections :- SectionsFrom(env, dynamic, image, maps, AllSections(i.segments));
    ImageFixups(env, sections, image, i)
  }

  function AuditMembers(env: Env, st: State, members: seq<Image>, k: nat): Result<State, AuditError>
    requires k <= |members|
    decreases |members| - k
  {
    if k == |members| then Ok(st)
    else
      var next :- AuditImage(env, st, k + 1, members[k]);
      AuditMembers(env, next, members, k + 1)
  }

  //////////////////////////////////////////////////////////////////////////////
  // Overlaps
  //////////////////////////////////////////////////////////////////////////////

  function WriteOf(r: Record, index: nat): O.Write
    requires r.address.Some?
  {
    O.Write(r.address.value, r.address.value + r.width, if r.detail.Chain11? then O.ChainWrite else O.ClassicWrite, index)
  }

  /** The file-backed writes, in record order. */
  function WritesFrom(records: seq<Record>, k: nat): seq<O.Write>
    requires k <= |records|
    decreases |records| - k
  {
    if k == |records| then []
    else if records[k].file.Some? && records[k].address.Some? then [WriteOf(records[k], k)] + WritesFrom(records, k + 1)
    else WritesFrom(records, k + 1)
  }

  function OrderedWrites(records: seq<Record>): seq<O.Write> {
    Sort(WritesFrom(records, 0), O.Address)
  }

  function ConflictIssue(records: seq<Record>, c: O.Conflict): Issue {
    Issue(match c case DuplicateVisit(_, _) => DuplicateChainVisit case SameOverlap(_, _) => SameMechanismWriteOverlap case CrossOverlap(_, _) => CrossMechanismWriteOverlap,
          if c.record < |records| then records[c.record].image else 0, Some(c.record), Some(c.other))
  }

  function AddConflicts(env: Env, st: State, conflicts: seq<O.Conflict>): Result<State, AuditError>
    decreases |conflicts|
  {
    if conflicts == [] then Ok(st)
    else
      var next :- AddIssue(env, st, ConflictIssue(st.records, conflicts[0]));
      AddConflicts(env, next, conflicts[1..])
  }

  predicate EndsFit(writes: seq<O.Write>) {
    forall i :: 0 <= i < |writes| ==> Fits64(writes[i].end)
  }

  function AuditOverlaps(env: Env, st: State): Result<State, AuditError> {
    var ordered := OrderedWrites(st.records);
    if !EndsFit(ordered) then Err(AuditOverflow) else AddConflicts(env, st, O.Sweep(ordered))
  }

  //////////////////////////////////////////////////////////////////////////////
  // The audit
  //////////////////////////////////////////////////////////////////////////////

  const MAX_MEMBER_RANGES: nat := 4096

  function KindSpans(members: seq<Image>, fileType: u32): seq<Span>
    decreases |members|
  {
    if members == [] then []
    else (if members[0].fileType == fileType then AddressSpans(members[0].segments) else []) + KindSpans(members[1..], fileType)
  }

  predicate SpansFit(spans: seq<Span>) {
    forall i :: 0 <= i < |spans| ==> Fits64(spans[i].end)
  }

  function MemberRanges(members: seq<Image>, fileType: u32): Result<seq<Span>, AuditError> {
    var spans := KindSpans(members, fileType);
    if !SpansFit(spans) then Err(AuditOverflow)
    else if |spans| > MAX_MEMBER_RANGES then Err(AuditLimit)
    else Ok(Merge([], Sort(spans, Start)))
  }

  function LowestAddress(segments: seq<Segment>): Result<nat, AuditError>
    decreases |segments|
  {
    if segments == [] then Err(InvalidMetadata)
    else
      var rest := LowestAddress(segments[1..]);
      if rest.Ok? && rest.value < segments[0].address then rest else Ok(segments[0].address)
  }

  const NO_RECORDS: State := State([], [], 0, 0, 0, 0, 0, 0)

  predicate LimitsOk(l: Limits) {
    0 < l.records <= MAX_AUDIT && 0 < l.issues <= MAX_AUDIT && 0 < l.pageStarts <= MAX_AUDIT
  }

  function EnvOf(source: seq<byte>, limits: Limits, i: Inspection): Result<Env, AuditError> {
    var base :- LowestAddress(i.collection.segments);
    var outer :- Mappings(i.collection.segments);
    var executable :- MemberRanges(i.members, 2);
    var kext :- MemberRanges(i.members, 11);
    Ok(Env(source, limits, outer, executable, kext, base))
  }

  /** `audit_kernel_collection_with_limits`, after the inspection. */
  function Audit(source: seq<byte>, limits: Limits, i: Inspection): Result<State, AuditError> {
    if !LimitsOk(limits) then Err(InvalidLimits)
    else
      var env :- EnvOf(source, limits, i);
      var outer :- AuditImage(env, NO_RECORDS, 0, i.collection);
      var members :- AuditMembers(env, outer, i.members, 0);
      AuditOverlaps(env, members)
  }
}
