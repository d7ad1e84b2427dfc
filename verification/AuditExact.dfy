/**
 What a finished audit has recorded: one record for every entry of every table of relocations and one for
 every word of every pointer chain, in the order of the collection, each with the fields its bytes hold;
 and exactly the issues those records and chains deserve.
 */
module AuditExact {
  import opened Wrappers
  import opened Words
  import opened Sorting
  import opened Spans
  import opened C = Collection
  import opened FixupAudit
  import opened AuditSafety
  import O = OverlapSweep

  //////////////////////////////////////////////////////////////////////////////
  // What there is to audit, as the bytes say it
  //////////////////////////////////////////////////////////////////////////////

  datatype Event =
    | TableEntry(table: ClassicContext, index: nat)
    | ChainWord(page: ChainContext, position: nat)
    | Remark(image: nat, code: IssueCode)
    | PageVisited
    | ChainStarted
    | ChainEnded
    | PageWithMany

  /** The little-endian word of n bytes at an offset of the source. */
  function Read(source: seq<byte>, at: nat, n: nat): nat {
    if at + n <= |source| then Le(source[at..at + n]) else 0
  }

  /** One event for every entry of a table. */
  function TableEvents(c: ClassicContext): (r: seq<Event>)
    ensures |r| == c.records.count && forall k :: 0 <= k < |r| ==> r[k] == TableEntry(c, k)
  {
    seq(c.records.count, k requires 0 <= k < c.records.count => TableEntry(c, k))
  }

  /** The stored word at a position of a page, and its distance to the next word: bits 51 to 62. */
  function WordAt(source: seq<byte>, c: ChainContext, position: nat): nat {
    Read(source, c.segment.file.offset + c.offset + position, 8)
  }

  function Stride(source: seq<byte>, c: ChainContext, position: nat): nat {
    (WordAt(source, c, position) / 0x8_0000_0000_0000) % 0x1000
  }

  predicate WordFits(c: ChainContext, position: nat) {
    position < c.pageSize && c.offset + position + 8 <= c.segment.file.size
  }

  /** What follows the last word of a chain: the end it names, or the bound it would cross. */
  function Beyond(c: ChainContext, position: nat): Event {
    if position >= c.pageSize then Remark(c.image, ChainOutsidePage) else Remark(c.image, ChainOutsideFileMapping)
  }

  function ChainEvents(source: seq<byte>, c: ChainContext, position: nat): seq<Event>
    decreases if position < c.pageSize then c.pageSize - position else 0
  {
    if !WordFits(c, position) then [Beyond(c, position)]
    else if Stride(source, c, position) == 0 then [ChainWord(c, position), ChainEnded]
    else [ChainWord(c, position)] + ChainEvents(source, c, position + Stride(source, c, position))
  }

  /** The chains of a list of starts, from an offset of the source to the slot with the high bit. */
  function StartEvents(source: seq<byte>, c: ChainContext, infoEnd: nat, at: nat): seq<Event>
    decreases if at < infoEnd then infoEnd - at else 0
  {
    if at + 2 > infoEnd then []
    else if Read(source, at, 2) >= 0x8000 then [PageVisited, ChainStarted] + ChainEvents(source, c, Read(source, at, 2) % 0x8000)
    else ([PageVisited, ChainStarted] + ChainEvents(source, c, Read(source, at, 2) % 0x8000)) + StartEvents(source, c, infoEnd, at + 2)
  }

  function PageEvents(source: seq<byte>, c: ChainContext, info: nat, infoEnd: nat): seq<Event> {
    var first := Read(source, info + 22 + 2 * c.page, 2);
    if first == 0xffff then [PageVisited]
    else if first < 0x8000 then [PageVisited] + ([ChainStarted] + ChainEvents(source, c, first))
    else [PageVisited, PageWithMany, Remark(c.image, UnsupportedMultiStartConsumer)] + StartEvents(source, c, infoEnd, info + 22 + 2 * (first % 0x8000))
  }

  function PageContextOf(n: nat, s: Segment, f: FixupSegment, page: nat): ChainContext {
    ChainContext(n, f.segmentIndex, page, s, f.pageSize, page * f.pageSize)
  }

  function PagesEvents(source: seq<byte>, n: nat, s: Segment, f: FixupSegment, info: nat, infoEnd: nat, page: nat): seq<Event>
    requires page <= f.pageCount
    decreases f.pageCount - page
  {
    if page == f.pageCount then []
    else PageEvents(source, PageContextOf(n, s, f, page), info, infoEnd) + PagesEvents(source, n, s, f, info, infoEnd, page + 1)
  }

  /** Where the record of a fixed-up segment starts in the source: the offset stored in its slot after the count of segments. */
  function InfoOf(source: seq<byte>, starts: nat, f: FixupSegment): nat {
    starts + Read(source, starts + 4 + 4 * f.segmentIndex, 4)
  }

  function SegmentEvents(source: seq<byte>, n: nat, i: Image, starts: nat, f: FixupSegment): seq<Event> {
    if f.pointerFormat != 11 then [Remark(n, UnsupportedPointerFormat)]
    else if f.segmentIndex >= |i.segments| then []
    else
      var info := InfoOf(source, starts, f);
      PagesEvents(source, n, i.segments[f.segmentIndex], f, info, info + Read(source, info, 4), 0)
  }

  function FixupEvents(source: seq<byte>, n: nat, i: Image, starts: nat, fixups: seq<FixupSegment>): seq<Event>
    decreases |fixups|
  {
    if fixups == [] then [] else SegmentEvents(source, n, i, starts, fixups[0]) + FixupEvents(source, n, i, starts, fixups[1..])
  }

  function Remarks(condition: bool, n: nat, code: IssueCode): seq<Event> {
    if condition then [Remark(n, code)] else []
  }

  function ImageFixupEvents(source: seq<byte>, n: nat, i: Image): seq<Event> {
    if i.fixups.None? then []
    else
      var f := i.fixups.value;
      Remarks(f.importsCount != 0, n, UnsupportedImports)
      + (Remarks(f.symbolsFormat != 0, n, UnsupportedCompressedSymbols)
         + FixupEvents(source, n, i, f.file.offset + Read(source, f.file.offset + 4, 4), f.segments))
  }

  function MapsOf(segments: seq<Segment>): seq<Mapping> {
    if Mappings(segments).Ok? then Mappings(segments).value else []
  }

  /** The three kinds of table of an image. */
  function LocalTable(n: nat, i: Image, records: Records, base: Option<nat>): ClassicContext {
    ClassicContext(n, None, MapsOf(i.segments), LocalDynamic, records, base)
  }

  function ExternalTable(n: nat, i: Image, records: Records, base: Option<nat>): ClassicContext {
    ClassicContext(n, None, MapsOf(i.segments), ExternalDynamic, records, base)
  }

  function TableOfSection(n: nat, i: Image, s: Section): ClassicContext {
    ClassicContext(n, Some(s.size), MapsOf(i.segments), SectionTable, s.relocations, Some(s.address))
  }

  /** Displacements count from the first segment of a kext, and from the first writable segment of anything else. */
  ghost predicate IsBase(i: Image, base: Option<nat>) {
    if i.fileType == 11 then base == if i.segments == [] then None else Some(i.segments[0].address)
    else
      || (base.None? && forall k :: 0 <= k < |i.segments| ==> !Writable(i.segments[k]))
      || (exists k :: 0 <= k < |i.segments| && Writable(i.segments[k]) && (forall j :: 0 <= j < k ==> !Writable(i.segments[j])) && base == Some(i.segments[k].address))
  }

  predicate Writable(s: Segment) {
    (s.initialProtection / 2) % 2 == 1
  }

  function SectionEvents(n: nat, i: Image, sections: seq<Section>): seq<Event>
    decreases |sections|
  {
    if sections == [] then [] else TableEvents(TableOfSection(n, i, sections[0])) + SectionEvents(n, i, sections[1..])
  }

  function SegmentTables(n: nat, i: Image, segments: seq<Segment>): seq<Event>
    decreases |segments|
  {
    if segments == [] then [] else SectionEvents(n, i, segments[0].sections) + SegmentTables(n, i, segments[1..])
  }

  function DynamicEvents(n: nat, i: Image): seq<Event> {
    if i.relocations.None? then []
    else TableEvents(LocalTable(n, i, i.relocations.value.local, ClassicBase(i))) + TableEvents(ExternalTable(n, i, i.relocations.value.external, ClassicBase(i)))
  }

  function ImageEvents(source: seq<byte>, n: nat, i: Image): seq<Event> {
    DynamicEvents(n, i) + (SegmentTables(n, i, i.segments) + ImageFixupEvents(source, n, i))
  }

  function MemberEvents(source: seq<byte>, members: seq<Image>, k: nat): seq<Event>
    requires k <= |members|
    decreases |members| - k
  {
    if k == |members| then [] else ImageEvents(source, k + 1, members[k]) + MemberEvents(source, members, k + 1)
  }

  /** Everything the audit of a collection meets, image by image. */
  function Events(source: seq<byte>, i: Inspection): seq<Event> {
    ImageEvents(source, 0, i.collection) + MemberEvents(source, i.members, 0)
  }

  lemma {:induction false} FirstWritableExact(segments: seq<Segment>, i: Image)
    requires i.segments == segments && i.fileType != 11
    ensures IsBase(i, FirstWritable(segments))
  {
    var k := WritableAt(segments);
    if FirstWritable(segments).Some? {
      assert Writable(segments[k]);
    }
  }

  lemma {:induction false} WritableAt(segments: seq<Segment>) returns (k: nat)
    ensures FirstWritable(segments).None? ==> forall j :: 0 <= j < |segments| ==> !Writable(segments[j])
    ensures FirstWritable(segments).Some? ==>
              k < |segments| && Writable(segments[k]) && FirstWritable(segments).value == segments[k].address && forall j :: 0 <= j < k ==> !Writable(segments[j])
    decreases |segments|
  {
    k := 0;
    if segments != [] && !Writable(segments[0]) {
      var rest := segments[1..];
      var m := WritableAt(rest);
      k := m + 1;
      forall j | 0 <= j < |segments| && (FirstWritable(rest).None? || j < k) ensures !Writable(segments[j]) {
        assert j > 0 ==> segments[j] == rest[j - 1];
      }
      if FirstWritable(rest).Some? {
        assert segments[k] == rest[m];
      }
    }
  }

  lemma BaseExact(i: Image)
    ensures IsBase(i, ClassicBase(i))
  {
    if i.fileType != 11 {
      FirstWritableExact(i.segments, i);
    }
  }

  //////////////////////////////////////////////////////////////////////////////
  // Running the events
  //////////////////////////////////////////////////////////////////////////////

  predicate Within(env: Env, st: State) {
    |st.records| <= env.limits.records && |st.issues| <= env.limits.issues && st.pageStarts <= env.limits.pageStarts
  }

  /** The record of an entry of a table, and of a word of a chain. */
  function EntryRecord(env: Env, c: ClassicContext, k: nat): Record {
    var at := c.records.offset + 8 * k;
    ReadBound(env.source, at, 4);
    ReadBound(env.source, at + 4, 4);
    var r := ClassicRecord(env, c, at, Read(env.source, at, 4), Read(env.source, at + 4, 4));
    if r.Ok? then r.value else Record(0, 0, None, None, 0, OuterOnly, Classic(LocalDynamic, 0, 0, 0, 0, false, false, None))
  }

  function WordRecord(env: Env, c: ChainContext, position: nat): Record {
    ReadBound(env.source, c.segment.file.offset + c.offset + position, 8);
    ChainRecord(env, c, c.segment.address + c.offset + position, c.segment.file.offset + c.offset + position, WordAt(env.source, c, position))
  }

  lemma ReadBound(source: seq<byte>, at: nat, n: nat)
    ensures n == 4 ==> Read(source, at, n) < U32_LIMIT
    ensures n == 8 ==> Read(source, at, n) < U64_LIMIT
    ensures n == 2 ==> Read(source, at, n) < 0x1_0000
  {
    Pow2Word();
    hide Pow2, Le;
    if at + n <= |source| {
      WordBound(source, at, n);
    }
  }

  lemma ReadIs(source: seq<byte>, at: nat, n: nat)
    requires at + n <= |source| < U64_LIMIT
    ensures ReadWord(source, at, n) == Ok(Read(source, at, n)) && Read(source, at, n) == C.Word(source, at, n)
  {
  }

  function Add(st: State, r: Record, codes: seq<IssueCode>): State {
    st.(records := st.records + [r], issues := st.issues + IssueList(r.image, Some(|st.records|), codes))
  }

  function After(env: Env, st: State, e: Event): State {
    match e
    case TableEntry(c, k) =>
      var r := EntryRecord(env, c, k);
      Add(st, r, if r.detail.Classic? then ClassicCodes(c, r) else []).(classicRecords := st.classicRecords + 1)
    case ChainWord(c, position) =>
      var r := WordRecord(env, c, position);
      Add(st, r, ChainCodes(env, r)).(chainRecords := st.chainRecords + 1)
    case Remark(image, code) => st.(issues := st.issues + [Issue(code, image, None, None)])
    case PageVisited => st.(pageStarts := st.pageStarts + 1)
    case ChainStarted => st.(chainStarts := st.chainStarts + 1)
    case ChainEnded => st.(chainsTerminated := st.chainsTerminated + 1)
    case PageWithMany => st.(multiStartPages := st.multiStartPages + 1)
  }

  function Run(env: Env, st: State, es: seq<Event>): State
    decreases |es|
  {
    if es == [] then st else Run(env, After(env, st, es[0]), es[1..])
  }

  /** The result is the run of the events if that stays within the limits, and the error of a limit if not. */
  predicate Follows(env: Env, st: State, r: Result<State, AuditError>, es: seq<Event>) {
    r == if Within(env, Run(env, st, es)) then Ok(Run(env, st, es)) else Err(AuditLimit)
  }

  lemma {:induction false} RunJoin(env: Env, st: State, a: seq<Event>, b: seq<Event>)
    ensures Run(env, st, a + b) == Run(env, Run(env, st, a), b)
    decreases |a|
  {
    hide After;
    if a == [] {
      assert a + b == b;
    } else {
      assert (a + b)[0] == a[0] && (a + b)[1..] == a[1..] + b;
      RunJoin(env, After(env, st, a[0]), a[1..], b);
    }
  }

  predicate Grown(st: State, next: State) {
    |st.records| <= |next.records| && |st.issues| <= |next.issues| && st.pageStarts <= next.pageStarts
  }

  lemma {:induction false} RunGrows(env: Env, st: State, es: seq<Event>)
    ensures Grown(st, Run(env, st, es))
    decreases |es|
  {
    if es != [] {
      AfterGrows(env, st, es[0]);
      hide After;
      RunGrows(env, After(env, st, es[0]), es[1..]);
    }
  }

  lemma AfterGrows(env: Env, st: State, e: Event)
    ensures Grown(st, After(env, st, e))
  {
    hide EntryRecord, WordRecord, ClassicCodes, ChainCodes;
  }

  lemma RunOne(env: Env, st: State, e: Event)
    ensures Run(env, st, [e]) == After(env, st, e)
  {
    hide After;
    assert [e][1..] == [];
  }

  lemma RunNone(env: Env, st: State)
    ensures Run(env, st, []) == st
  {
  }

  /** Two stages, one after the other. */
  lemma Then(env: Env, st: State, r: Result<State, AuditError>, a: seq<Event>, whole: Result<State, AuditError>, b: seq<Event>)
    requires Follows(env, st, r, a)
    requires r.Ok? ==> Follows(env, r.value, whole, b)
    requires r.Err? ==> whole == Err(r.error)
    ensures Follows(env, st, whole, a + b)
  {
    hide Run;
    RunJoin(env, st, a, b);
    RunGrows(env, Run(env, st, a), b);
  }

  lemma Nothing(env: Env, st: State)
    requires Within(env, st)
    ensures Follows(env, st, Ok(st), [])
  {
  }

  //////////////////////////////////////////////////////////////////////////////
  // Every stage of the audit runs its events
  //////////////////////////////////////////////////////////////////////////////

  lemma {:induction false} AddIssuesLimit(env: Env, st: State, image: nat, record: Option<nat>, codes: seq<IssueCode>)
    requires |st.issues| <= env.limits.issues
    ensures AddIssues(env, st, image, record, codes)
         == if |st.issues| + |codes| <= env.limits.issues then Ok(st.(issues := st.issues + IssueList(image, record, codes))) else Err(AuditLimit)
    decreases |codes|
  {
    AddIssuesExact(env, st, image, record, codes);
    hide IssueList;
    if codes != [] {
      var next := AddIssue(env, st, Issue(codes[0], image, record, None));
      if next.Ok? {
        AddIssuesLimit(env, next.value, image, record, codes[1..]);
      }
    }
  }

  lemma OneRemark(env: Env, st: State, image: nat, code: IssueCode)
    requires Within(env, st)
    ensures Follows(env, st, AddIssue(env, st, Issue(code, image, None, None)), [Remark(image, code)])
  {
    RunOne(env, st, Remark(image, code));
    hide Run;
  }

  lemma OnePage(env: Env, st: State)
    requires Within(env, st)
    ensures Follows(env, st, VisitPageStart(env, st), [PageVisited])
  {
    RunOne(env, st, PageVisited);
    hide Run;
  }

  lemma OneEntry(env: Env, outer: seq<Segment>, st: State, c: ClassicContext, k: nat)
    requires EnvOk(env, outer) && Within(env, st)
    requires k < c.records.count && c.records.Range().End() <= |env.source|
    ensures Follows(env, st, ClassicStep(env, st, c, k), [TableEntry(c, k)])
  {
    hide *;
    EntryIsRead(env, outer, c, k);
    RunOne(env, st, TableEntry(c, k));
    StepOfRecord(env, st, c, k);
  }

  /** The two words of an entry are there, and its record is made of them. */
  predicate EntryRead(env: Env, c: ClassicContext, k: nat) {
    var at := c.records.offset + 8 * k;
    && ReadWord(env.source, at, 4) == Ok(Read(env.source, at, 4)) && ReadWord(env.source, at + 4, 4) == Ok(Read(env.source, at + 4, 4))
    && Read(env.source, at, 4) < U32_LIMIT && Read(env.source, at + 4, 4) < U32_LIMIT
    && ClassicRecord(env, c, at, Read(env.source, at, 4), Read(env.source, at + 4, 4)) == Ok(EntryRecord(env, c, k))
    && EntryRecord(env, c, k).image == c.image && EntryRecord(env, c, k).detail.Classic?
  }

  lemma EntryIsRead(env: Env, outer: seq<Segment>, c: ClassicContext, k: nat)
    requires EnvOk(env, outer) && k < c.records.count && c.records.Range().End() <= |env.source|
    ensures EntryRead(env, c, k)
  {
    Small(env, outer);
    var at := c.records.offset + 8 * k;
    ReadBound(env.source, at, 4);
    ReadBound(env.source, at + 4, 4);
    ReadIs(env.source, at, 4);
    ReadIs(env.source, at + 4, 4);
    hide EnvOk, RecordOk, Read, ReadWord;
    ClassicRecordOk(env, outer, c, at, Read(env.source, at, 4), Read(env.source, at + 4, 4));
    hide ClassicRecord;
  }

  lemma StepOfRecord(env: Env, st: State, c: ClassicContext, k: nat)
    requires EntryRead(env, c, k) && Within(env, st) && Run(env, st, [TableEntry(c, k)]) == After(env, st, TableEntry(c, k))
    ensures Follows(env, st, ClassicStep(env, st, c, k), [TableEntry(c, k)])
  {
    hide ClassicRecord, EntryRecord, ClassicCodes, Read, AddIssues, IssueList, Run, ReadWord;
    var r := EntryRecord(env, c, k);
    var added := AddRecord(env, st, r);
    if added.Ok? {
      AddIssuesLimit(env, added.value.(classicRecords := st.classicRecords + 1), c.image, Some(|st.records|), ClassicCodes(c, r));
    }
  }

  lemma {:induction false} EntriesFollow(env: Env, outer: seq<Segment>, st: State, c: ClassicContext, k: nat)
    requires EnvOk(env, outer) && Within(env, st)
    requires k <= c.records.count && c.records.Range().End() <= |env.source|
    ensures Follows(env, st, ClassicFrom(env, st, c, k), TableEvents(c)[k..])
    decreases c.records.count - k
  {
    hide EnvOk, ClassicStep, Follows, Within, TableEvents;
    if k < c.records.count {
      OneEntry(env, outer, st, c, k);
      var next := ClassicStep(env, st, c, k);
      assert TableEvents(c)[k..] == [TableEntry(c, k)] + TableEvents(c)[k + 1..];
      if next.Ok? {
        FollowsWithin(env, st, next, [TableEntry(c, k)]);
        EntriesFollow(env, outer, next.value, c, k + 1);
      }
      Then(env, st, next, [TableEntry(c, k)], ClassicFrom(env, st, c, k), TableEvents(c)[k + 1..]);
    } else {
      Nothing(env, st);
      assert TableEvents(c)[k..] == [];
    }
  }

  lemma FollowsWithin(env: Env, st: State, r: Result<State, AuditError>, es: seq<Event>)
    requires Follows(env, st, r, es)
    ensures r.Ok? ==> Within(env, r.value)
  {
  }

  lemma TableFollows(env: Env, outer: seq<Segment>, st: State, c: ClassicContext)
    requires EnvOk(env, outer) && Within(env, st) && c.records.Range().End() <= |env.source|
    ensures Follows(env, st, ClassicFrom(env, st, c, 0), TableEvents(c))
  {
    hide *;
    EntriesFollow(env, outer, st, c, 0);
    assert TableEvents(c)[0..] == TableEvents(c);
  }

  /** The result of a visit that has taken an event. */
  function Visited(env: Env, next: State, source: seq<byte>, c: ChainContext, position: nat): Result<Visit, AuditError> {
    if !Within(env, next) then Err(AuditLimit)
    else if Stride(source, c, position) == 0 then Ok(Stop(After(env, next, ChainEnded)))
    else Ok(Continue(next, position + Stride(source, c, position)))
  }

  function Stopped(env: Env, next: State): Result<Visit, AuditError> {
    if Within(env, next) then Ok(Stop(next)) else Err(AuditLimit)
  }

  /** One word of a chain is recorded exactly where the source has it; past the last one the chain stops. */
  lemma VisitFollows(env: Env, outer: seq<Segment>, st: State, c: ChainContext, position: nat)
    requires PlaceOk(env, outer, c) && Within(env, st) && position <= 0x1_0000
    ensures !WordFits(c, position) ==> ChainVisit(env, st, c, position) == Stopped(env, After(env, st, Beyond(c, position)))
    ensures WordFits(c, position) ==> ChainVisit(env, st, c, position) == Visited(env, After(env, st, ChainWord(c, position)), env.source, c, position)
  {
    hide *;
    SmallSource(env, outer, c);
    PlaceSegment(env, outer, c);
    if WordFits(c, position) {
      WordPlaced(c, position);
      SharedLocation(env, outer, c.segment, c.offset + position);
      WordFollows(env, outer, st, c, position);
      EndKeeps(env, After(env, st, ChainWord(c, position)));
      VisitInside(env, st, c, position, After(env, st, ChainWord(c, position)));
    } else {
      StopIs(env, st, c, ChainOutsidePage);
      StopIs(env, st, c, ChainOutsideFileMapping);
      VisitOutside(env, st, c, position);
    }
  }

  lemma WordPlaced(c: ChainContext, position: nat)
    requires WordFits(c, position)
    ensures c.offset + position + 8 <= c.segment.file.size
  {
  }

  lemma PlaceSegment(env: Env, outer: seq<Segment>, c: ChainContext)
    requires PlaceOk(env, outer, c)
    ensures SegmentOk(env.source, c.segment) && Shared(outer, c.segment) && ChainOk(env, c) && c.pageSize <= 16384 && c.offset <= 0x4000_0000
  {
    hide EnvOk, Shared, SegmentOk;
  }

  lemma VisitOutside(env: Env, st: State, c: ChainContext, position: nat)
    requires SegmentOk(env.source, c.segment) && c.pageSize <= 16384 && c.offset <= 0x4000_0000 && position <= 0x1_0000
    requires !WordFits(c, position)
    ensures position >= c.pageSize ==> ChainVisit(env, st, c, position) == StopWith(env, st, c, ChainOutsidePage)
    ensures position < c.pageSize ==> ChainVisit(env, st, c, position) == StopWith(env, st, c, ChainOutsideFileMapping)
    ensures Beyond(c, position) == Remark(c.image, if position >= c.pageSize then ChainOutsidePage else ChainOutsideFileMapping)
  {
    hide StopWith, RecordWord, FileLocation;
  }

  lemma VisitInside(env: Env, st: State, c: ChainContext, position: nat, next: State)
    requires SegmentOk(env.source, c.segment) && c.pageSize <= 16384 && c.offset <= 0x4000_0000
    requires |env.source| <= MAX_INPUT_SIZE && WordFits(c, position)
    requires FileLocation(env.outer, c.segment.address + (c.offset + position), 8) == Some(c.segment.file.offset + (c.offset + position))
    requires RecordWord(env, st, c, c.segment.address + c.offset + position, c.segment.file.offset + c.offset + position)
          == if Within(env, next) then Ok(Recorded(next, Stride(env.source, c, position))) else Err(AuditLimit)
    requires After(env, next, ChainEnded) == next.(chainsTerminated := next.chainsTerminated + 1)
    ensures ChainVisit(env, st, c, position) == Visited(env, next, env.source, c, position)
  {
    hide StopWith, RecordWord, FileLocation, Within, After;
    StrideSmall(env.source, c, position);
    hide Stride;
    assert c.segment.address + (c.offset + position) == c.segment.address + c.offset + position;
    assert c.segment.file.offset + (c.offset + position) == c.segment.file.offset + c.offset + position;
  }

  lemma EndKeeps(env: Env, st: State)
    ensures After(env, st, ChainEnded) == st.(chainsTerminated := st.chainsTerminated + 1)
  {
  }

  lemma StopIs(env: Env, st: State, c: ChainContext, code: IssueCode)
    requires Within(env, st)
    ensures StopWith(env, st, c, code) == Stopped(env, After(env, st, Remark(c.image, code)))
  {
  }

  lemma WordFollows(env: Env, outer: seq<Segment>, st: State, c: ChainContext, position: nat)
    requires PlaceOk(env, outer, c) && Within(env, st) && WordFits(c, position)
    ensures var next := After(env, st, ChainWord(c, position));
            RecordWord(env, st, c, c.segment.address + c.offset + position, c.segment.file.offset + c.offset + position)
            == if Within(env, next) then Ok(Recorded(next, Stride(env.source, c, position))) else Err(AuditLimit)
  {
    Small(env, outer);
    ChainOkSegment(env, c);
    var file := c.segment.file.offset + c.offset + position;
    ReadIs(env.source, file, 8);
    ReadBound(env.source, file, 8);
    var r := WordRecord(env, c, position);
    hide PlaceOk, SegmentOk, Read, AddIssues, IssueList, Resolved, TargetCovered, OverlapOf, ChainCodes, ReadWord;
    var added := AddRecord(env, st, r);
    if added.Ok? {
      AddIssuesLimit(env, added.value.(chainRecords := st.chainRecords + 1), c.image, Some(|st.records|), ChainCodes(env, r));
    }
  }

  lemma {:induction false} ChainFollows(env: Env, outer: seq<Segment>, st: State, c: ChainContext, position: nat)
    requires PlaceOk(env, outer, c) && Within(env, st) && position <= 0x1_0000
    ensures Follows(env, st, ChainFrom(env, st, c, position), ChainEvents(env.source, c, position))
    decreases if position < c.pageSize then c.pageSize - position else 0
  {
    hide *;
    VisitFollows(env, outer, st, c, position);
    ChainStep(env, st, c, position);
    PageSmall(env, outer, c);
    StrideSmall(env.source, c, position);
    if !WordFits(c, position) {
      ChainStops(env, st, c, position);
    } else {
      var next, stride := After(env, st, ChainWord(c, position)), Stride(env.source, c, position);
      WordPage(c, position);
      if stride == 0 || !Within(env, next) {
        ChainCloses(env, st, c, position, next);
      } else {
        VisitedOn(env, next, env.source, c, position);
        RunOne(env, st, ChainWord(c, position));
        FollowsOk(env, st, next, [ChainWord(c, position)]);
        ChainFollows(env, outer, next, c, position + stride);
        Then(env, st, Ok(next), [ChainWord(c, position)], ChainFrom(env, next, c, position + stride), ChainEvents(env.source, c, position + stride));
      }
    }
  }

  lemma WordPage(c: ChainContext, position: nat)
    requires WordFits(c, position)
    ensures position < c.pageSize
  {
  }

  lemma VisitedOn(env: Env, next: State, source: seq<byte>, c: ChainContext, position: nat)
    requires Within(env, next) && Stride(source, c, position) != 0
    ensures Visited(env, next, source, c, position) == Ok(Continue(next, position + Stride(source, c, position)))
  {
    hide Within, Stride;
  }

  lemma FollowsOk(env: Env, st: State, next: State, es: seq<Event>)
    requires next == Run(env, st, es) && Within(env, next)
    ensures Follows(env, st, Ok(next), es)
  {
    hide Run, Within;
  }

  lemma ChainStops(env: Env, st: State, c: ChainContext, position: nat)
    requires !WordFits(c, position) && ChainVisit(env, st, c, position) == Stopped(env, After(env, st, Beyond(c, position)))
    ensures Follows(env, st, ChainFrom(env, st, c, position), ChainEvents(env.source, c, position))
  {
    ChainStep(env, st, c, position);
    RunOne(env, st, Beyond(c, position));
    hide ChainVisit, After, Run, Within, ChainFrom, ChainEvents;
  }

  lemma ChainCloses(env: Env, st: State, c: ChainContext, position: nat, next: State)
    requires WordFits(c, position) && next == After(env, st, ChainWord(c, position))
    requires ChainVisit(env, st, c, position) == Visited(env, next, env.source, c, position)
    requires Stride(env.source, c, position) == 0 || !Within(env, next)
    ensures Follows(env, st, ChainFrom(env, st, c, position), ChainEvents(env.source, c, position))
  {
    ChainStep(env, st, c, position);
    RunOne(env, st, ChainWord(c, position));
    EndedWithin(env, next);
    ChainEventsHead(env.source, c, position);
    hide ChainVisit, After, Run, Within, ChainFrom, ChainEvents, Stride;
    if !Within(env, next) {
      RunOver(env, st, ChainEvents(env.source, c, position), ChainWord(c, position));
    } else {
      RunJoin(env, st, [ChainWord(c, position)], [ChainEnded]);
      RunOne(env, next, ChainEnded);
      assert [ChainWord(c, position)] + [ChainEnded] == [ChainWord(c, position), ChainEnded];
    }
  }

  lemma EndedWithin(env: Env, st: State)
    ensures Within(env, After(env, st, ChainEnded)) <==> Within(env, st)
  {
  }

  lemma ChainEventsHead(source: seq<byte>, c: ChainContext, position: nat)
    requires WordFits(c, position)
    ensures ChainEvents(source, c, position) != [] && ChainEvents(source, c, position)[0] == ChainWord(c, position)
  {
    hide Stride;
  }

  lemma RunOver(env: Env, st: State, es: seq<Event>, e: Event)
    requires es != [] && es[0] == e && !Within(env, After(env, st, e))
    ensures !Within(env, Run(env, st, es))
  {
    RunGrows(env, After(env, st, e), es[1..]);
    hide After;
  }

  lemma PageSmall(env: Env, outer: seq<Segment>, c: ChainContext)
    requires PlaceOk(env, outer, c)
    ensures c.pageSize <= 16384
  {
    hide EnvOk, Shared, SegmentOk;
  }

  lemma StrideSmall(source: seq<byte>, c: ChainContext, position: nat)
    ensures Stride(source, c, position) < 0x1000
  {
  }

  lemma ChainStep(env: Env, st: State, c: ChainContext, position: nat)
    ensures ChainFrom(env, st, c, position) ==
              (var v := ChainVisit(env, st, c, position);
               if v.Err? then Err(v.error) else if v.value.Stop? then Ok(v.value.state) else ChainFrom(env, v.value.state, c, v.value.inPage))
    ensures ChainEvents(env.source, c, position) ==
              if !WordFits(c, position) then [Beyond(c, position)]
              else if Stride(env.source, c, position) == 0 then [ChainWord(c, position), ChainEnded]
              else [ChainWord(c, position)] + ChainEvents(env.source, c, position + Stride(env.source, c, position))
  {
    hide ChainVisit, Stride;
  }

  lemma StartFollows(env: Env, outer: seq<Segment>, st: State, c: ChainContext, start: nat)
    requires PlaceOk(env, outer, c) && Within(env, st) && start <= 0x1_0000
    ensures Follows(env, st, StartChain(env, st, c, start), [ChainStarted] + ChainEvents(env.source, c, start))
  {
    OffsetSmall(env, outer, c);
    var begun := After(env, st, ChainStarted);
    BegunIs(env, st);
    RunOne(env, st, ChainStarted);
    hide PlaceOk, After, Run, ChainFrom, ChainEvents, Within;
    ChainFollows(env, outer, begun, c, start);
    Then(env, st, Ok(begun), [ChainStarted], ChainFrom(env, begun, c, start), ChainEvents(env.source, c, start));
  }

  lemma BegunIs(env: Env, st: State)
    ensures After(env, st, ChainStarted) == st.(chainStarts := st.chainStarts + 1)
    ensures Within(env, st) ==> Within(env, After(env, st, ChainStarted))
  {
  }

  lemma OffsetSmall(env: Env, outer: seq<Segment>, c: ChainContext)
    requires PlaceOk(env, outer, c)
    ensures c.offset <= 0x4000_0000
  {
    hide EnvOk, Shared, SegmentOk;
  }

  function VisitedStart(env: Env, st: State, c: ChainContext, start: nat): Result<State, AuditError> {
    var counted := VisitPageStart(env, st);
    if counted.Err? then Err(counted.error) else StartChain(env, counted.value, c, start)
  }

  /** A visited page and one chain of it. */
  lemma VisitedChain(env: Env, outer: seq<Segment>, st: State, c: ChainContext, start: nat)
    requires PlaceOk(env, outer, c) && Within(env, st) && start <= 0x1_0000
    ensures Follows(env, st, VisitedStart(env, st, c, start), [PageVisited] + ([ChainStarted] + ChainEvents(env.source, c, start)))
  {
    hide *;
    OnePage(env, st);
    var counted := VisitPageStart(env, st);
    FollowsWithin(env, st, counted, [PageVisited]);
    VisitedParts(env, st, c, start);
    if counted.Ok? {
      StartFollows(env, outer, counted.value, c, start);
    }
    Then(env, st, counted, [PageVisited], VisitedStart(env, st, c, start), [ChainStarted] + ChainEvents(env.source, c, start));
  }

  lemma VisitedParts(env: Env, st: State, c: ChainContext, start: nat)
    ensures var counted := VisitPageStart(env, st);
            VisitedStart(env, st, c, start) == if counted.Err? then Err(counted.error) else StartChain(env, counted.value, c, start)
  {
    hide VisitPageStart, StartChain;
  }

  lemma SlotIsRead(source: seq<byte>, info: nat, slice: seq<byte>, k: nat)
    requires InfoAt(source, info, slice) && k < Slots(slice) && |source| <= MAX_INPUT_SIZE
    ensures info + 22 + k * 2 + 2 <= info + |slice| <= |source|
    ensures ReadWord(source, info + 22 + k * 2, 2) == Ok(Slot(slice, k)) && Slot(slice, k) == Read(source, info + 22 + k * 2, 2)
  {
    SlotRead(source, info, slice, k);
    ReadIs(source, info + 22 + k * 2, 2);
  }

  lemma {:induction false} StartsFollow(env: Env, outer: seq<Segment>, st: State, c: ChainContext, info: nat, slice: seq<byte>, k: nat)
    requires PlaceOk(env, outer, c) && Within(env, st) && InfoAt(env.source, info, slice)
    requires StartsEnd(slice, k, c.pageSize, Backed(c.segment, c.offset), 11)
    ensures Follows(env, st, StartsFrom(env, st, c, info + |slice|, info + 22 + k * 2), StartEvents(env.source, c, info + |slice|, info + 22 + k * 2))
    decreases if k < Slots(slice) then Slots(slice) - k else 0
  {
    hide *;
    SmallSource(env, outer, c);
    StartsEndParts(slice, k, c);
    SlotIsRead(env.source, info, slice, k);
    var at, end, start := info + 22 + k * 2, info + |slice|, Slot(slice, k);
    VisitedChain(env, outer, st, c, start % 0x8000);
    var one := VisitedStart(env, st, c, start % 0x8000);
    var events := [PageVisited] + ([ChainStarted] + ChainEvents(env.source, c, start % 0x8000));
    FollowsWithin(env, st, one, events);
    StartsStep(env, st, c, end, at, start);
    if start < 0x8000 {
      assert at + 2 == info + 22 + (k + 1) * 2;
      if one.Ok? {
        StartsFollow(env, outer, one.value, c, info, slice, k + 1);
      }
      Then(env, st, one, events, StartsFrom(env, st, c, end, at), StartEvents(env.source, c, end, at + 2));
    }
  }

  lemma StartsEndParts(slice: seq<byte>, k: nat, c: ChainContext)
    requires StartsEnd(slice, k, c.pageSize, Backed(c.segment, c.offset), 11)
    ensures k < Slots(slice)
    ensures Slot(slice, k) < 0x8000 ==> StartsEnd(slice, k + 1, c.pageSize, Backed(c.segment, c.offset), 11)
  {
    hide Slot, Slots, PageStartOk, Backed;
  }

  lemma StartsStep(env: Env, st: State, c: ChainContext, end: nat, at: nat, start: u16)
    requires at + 2 <= end <= |env.source| <= MAX_INPUT_SIZE
    requires ReadWord(env.source, at, 2) == Ok(start) && start == Read(env.source, at, 2)
    ensures var one := VisitedStart(env, st, c, start % 0x8000);
            var events := [PageVisited] + ([ChainStarted] + ChainEvents(env.source, c, start % 0x8000));
            && StartsFrom(env, st, c, end, at) == (if one.Err? || start >= 0x8000 then one else StartsFrom(env, one.value, c, end, at + 2))
            && StartEvents(env.source, c, end, at) == (if start >= 0x8000 then events else events + StartEvents(env.source, c, end, at + 2))
  {
    hide ReadWord, Read, VisitPageStart, StartChain, ChainEvents;
    var events := [PageVisited] + ([ChainStarted] + ChainEvents(env.source, c, start % 0x8000));
    assert events == [PageVisited, ChainStarted] + ChainEvents(env.source, c, start % 0x8000);
  }

  lemma SmallSource(env: Env, outer: seq<Segment>, c: ChainContext)
    requires PlaceOk(env, outer, c)
    ensures |env.source| <= MAX_INPUT_SIZE && EnvOk(env, outer)
  {
    hide Shared, SegmentOk;
  }

  lemma MultiFollows(env: Env, st: State, image: nat)
    requires Within(env, st)
    ensures var counted := VisitPageStart(env, st);
            var r := if counted.Err? then Err(counted.error)
                     else AddIssue(env, counted.value.(multiStartPages := counted.value.multiStartPages + 1), Issue(UnsupportedMultiStartConsumer, image, None, None));
            Follows(env, st, r, [PageVisited, PageWithMany, Remark(image, UnsupportedMultiStartConsumer)])
  {
    var a := After(env, st, PageVisited);
    var b := After(env, a, PageWithMany);
    var d := After(env, b, Remark(image, UnsupportedMultiStartConsumer));
    var es := [PageVisited, PageWithMany, Remark(image, UnsupportedMultiStartConsumer)];
    assert Run(env, st, es) == d by {
      RunOne(env, st, PageVisited);
      RunOne(env, a, PageWithMany);
      RunOne(env, b, Remark(image, UnsupportedMultiStartConsumer));
      RunJoin(env, st, [PageVisited], [PageWithMany] + [Remark(image, UnsupportedMultiStartConsumer)]);
      RunJoin(env, a, [PageWithMany], [Remark(image, UnsupportedMultiStartConsumer)]);
      assert es == [PageVisited] + ([PageWithMany] + [Remark(image, UnsupportedMultiStartConsumer)]);
    }
    hide Run;
  }

  lemma PageFollows(env: Env, outer: seq<Segment>, st: State, c: ChainContext, info: nat, slice: seq<byte>)
    requires PlaceOk(env, outer, c) && Within(env, st) && InfoAt(env.source, info, slice)
    requires c.page < Slots(slice)
    requires var first, backed := Slot(slice, c.page), Backed(c.segment, c.offset);
             || first == 0xffff
             || (first < 0x8000 && PageStartOk(first, c.pageSize, backed, 11))
             || (first >= 0x8000 && StartsEnd(slice, first - 0x8000, c.pageSize, backed, 11))
    ensures Follows(env, st, PageAt(env, st, c, info, info + |slice|), PageEvents(env.source, c, info, info + |slice|))
  {
    hide *;
    SmallSource(env, outer, c);
    SlotIsRead(env.source, info, slice, c.page);
    PageParts(env, st, c, info, info + |slice|, Slot(slice, c.page));
    var first := Slot(slice, c.page);
    if first == 0xffff {
      OnePage(env, st);
    } else if first < 0x8000 {
      VisitedChain(env, outer, st, c, first);
    } else {
      ManyFollow(env, outer, st, c, info, slice, first - 0x8000);
    }
  }

  /** A page with a list of starts. */
  function PageStarts(env: Env, st: State, c: ChainContext, infoEnd: nat, at: nat): Result<State, AuditError> {
    var counted :- VisitPageStart(env, st);
    var reported :- AddIssue(env, counted.(multiStartPages := counted.multiStartPages + 1), Issue(UnsupportedMultiStartConsumer, c.image, None, None));
    StartsFrom(env, reported, c, infoEnd, at)
  }

  function ManyEvents(source: seq<byte>, c: ChainContext, infoEnd: nat, at: nat): seq<Event> {
    [PageVisited, PageWithMany, Remark(c.image, UnsupportedMultiStartConsumer)] + StartEvents(source, c, infoEnd, at)
  }

  lemma PageParts(env: Env, st: State, c: ChainContext, info: nat, infoEnd: nat, first: u16)
    requires ReadWord(env.source, info + 22 + c.page * 2, 2) == Ok(first) && first == Read(env.source, info + 22 + c.page * 2, 2)
    ensures first == 0xffff ==>
              PageAt(env, st, c, info, infoEnd) == VisitPageStart(env, st) && PageEvents(env.source, c, info, infoEnd) == [PageVisited]
    ensures first < 0x8000 ==>
              && PageAt(env, st, c, info, infoEnd) == VisitedStart(env, st, c, first)
              && PageEvents(env.source, c, info, infoEnd) == [PageVisited] + ([ChainStarted] + ChainEvents(env.source, c, first))
    ensures 0x8000 <= first < 0xffff ==>
              && PageAt(env, st, c, info, infoEnd) == PageStarts(env, st, c, infoEnd, info + 22 + (first - 0x8000) * 2)
              && PageEvents(env.source, c, info, infoEnd) == ManyEvents(env.source, c, infoEnd, info + 22 + (first - 0x8000) * 2)
  {
    assert info + 22 + 2 * c.page == info + 22 + c.page * 2;
    assert first >= 0x8000 ==> first % 0x8000 == first - 0x8000;
    hide ReadWord, Read, VisitPageStart, StartChain, ChainEvents, StartsFrom, StartEvents, AddIssue;
  }

  lemma ManyFollow(env: Env, outer: seq<Segment>, st: State, c: ChainContext, info: nat, slice: seq<byte>, k: nat)
    requires PlaceOk(env, outer, c) && Within(env, st) && InfoAt(env.source, info, slice)
    requires StartsEnd(slice, k, c.pageSize, Backed(c.segment, c.offset), 11)
    ensures Follows(env, st, PageStarts(env, st, c, info + |slice|, info + 22 + k * 2), ManyEvents(env.source, c, info + |slice|, info + 22 + k * 2))
  {
    hide Within, PlaceOk, InfoAt, VisitPageStart, Follows, Run, StartsFrom, StartEvents, StartsEnd, Backed, AddIssue;
    MultiFollows(env, st, c.image);
    var counted := VisitPageStart(env, st);
    var many := if counted.Err? then Err(counted.error)
                else AddIssue(env, counted.value.(multiStartPages := counted.value.multiStartPages + 1), Issue(UnsupportedMultiStartConsumer, c.image, None, None));
    var events := [PageVisited, PageWithMany, Remark(c.image, UnsupportedMultiStartConsumer)];
    FollowsWithin(env, st, many, events);
    var at, end := info + 22 + k * 2, info + |slice|;
    if many.Ok? {
      StartsFollow(env, outer, many.value, c, info, slice, k);
    }
    Then(env, st, many, events, PageStarts(env, st, c, end, at), StartEvents(env.source, c, end, at));
  }

  lemma {:induction false} PagesFollow(env: Env, outer: seq<Segment>, st: State, n: nat, s: Segment, f: FixupSegment, info: nat, slice: seq<byte>, page: nat)
    requires EnvOk(env, outer) && Within(env, st) && InfoAt(env.source, info, slice)
    requires SegmentOk(env.source, s) && Shared(outer, s) && f.pointerFormat == 11 && (f.pageSize == 4096 || f.pageSize == 16384)
    requires page <= f.pageCount && PagesOk(slice, s, f)
    ensures Follows(env, st, PagesFrom(env, st, n, s, f, info, info + |slice|, page), PagesEvents(env.source, n, s, f, info, info + |slice|, page))
    decreases f.pageCount - page
  {
    hide Within, PageAt, PageEvents, EnvOk, Shared, InfoAt, SegmentOk, PageOk, Follows, Run;
    if page < f.pageCount {
      var c := PageContextOf(n, s, f, page);
      PageContext(env, s, f, page, c);
      PageFacts(slice, s, f, page);
      PageFollows(env, outer, st, c, info, slice);
      var next := PageAt(env, st, c, info, info + |slice|);
      FollowsWithin(env, st, next, PageEvents(env.source, c, info, info + |slice|));
      if next.Ok? {
        PagesFollow(env, outer, next.value, n, s, f, info, slice, page + 1);
      }
      Then(env, st, next, PageEvents(env.source, c, info, info + |slice|),
           PagesFrom(env, st, n, s, f, info, info + |slice|, page), PagesEvents(env.source, n, s, f, info, info + |slice|, page + 1));
    } else {
      Nothing(env, st);
    }
  }

  lemma RecordIsRead(source: seq<byte>, f: Fixups, data: seq<byte>, g: FixupSegment, at: nat, size: nat)
    requires |source| <= MAX_INPUT_SIZE && f.file.End() <= |source| && data == source[f.file.offset..f.file.End()]
    requires RecordAt(data, g.segmentIndex, at, size)
    ensures var starts := f.file.offset + U32(data, 4);
            && InfoOf(source, starts, g) == f.file.offset + at && Read(source, f.file.offset + at, 4) == size
            && Read(source, f.file.offset + 4, 4) == U32(data, 4) && f.file.offset + at + 4 <= |source| && U32(data, 4) <= at && at + size <= |data|
            && ReadWord(source, starts + 4 + g.segmentIndex * 4, 4) == Ok(at - U32(data, 4))
            && ReadWord(source, f.file.offset + at, 4) == Ok(size)
            && InfoAt(source, f.file.offset + at, data[at..at + size])
  {
    RecordRead(source, f.file, data, g.segmentIndex, at, size);
    var starts := f.file.offset + U32(data, 4);
    assert starts + 4 + 4 * g.segmentIndex == starts + 4 + g.segmentIndex * 4;
    ReadIs(source, f.file.offset + 4, 4);
    ReadIs(source, starts + 4 + 4 * g.segmentIndex, 4);
    ReadIs(source, f.file.offset + at, 4);
    hide Read, ReadWord, U32, InfoAt;
  }

  lemma SegmentFollows(env: Env, outer: seq<Segment>, st: State, n: nat, i: Image, f: Fixups, k: nat)
    requires EnvOk(env, outer) && Within(env, st) && k < |f.segments| && FixupsOk(env.source, i.segments, i.headerAddress, f)
    requires forall j :: 0 <= j < |i.segments| ==> SegmentOk(env.source, i.segments[j]) && Shared(outer, i.segments[j])
    ensures Follows(env, st, SegmentFixups(env, st, n, i, StartsOf(env.source, f), f.segments[k]), SegmentEvents(env.source, n, i, StartsOf(env.source, f), f.segments[k]))
  {
    hide *;
    Small(env, outer);
    var g := f.segments[k];
    FixupsPlace(env.source, i, f);
    if g.pointerFormat != 11 {
      OneRemark(env, st, n, UnsupportedPointerFormat);
      OtherFormat(env, st, n, i, StartsOf(env.source, f), g);
    } else {
      var at, size := FixupRecord(env.source, i, f, k);
      var data := env.source[f.file.offset..f.file.End()];
      RecordIsRead(env.source, f, data, g, at, size);
      FormatOk(env.source, i, f, k);
      SegmentParts(env, st, n, i, f, g, at, size);
      assert SegmentOk(env.source, i.segments[g.segmentIndex]) && Shared(outer, i.segments[g.segmentIndex]);
      PagesFollow(env, outer, st, n, i.segments[g.segmentIndex], g, f.file.offset + at, data[at..at + size], 0);
    }
  }

  lemma OtherFormat(env: Env, st: State, n: nat, i: Image, starts: nat, g: FixupSegment)
    requires g.pointerFormat != 11
    ensures SegmentFixups(env, st, n, i, starts, g) == AddIssue(env, st, Issue(UnsupportedPointerFormat, n, None, None))
    ensures SegmentEvents(env.source, n, i, starts, g) == [Remark(n, UnsupportedPointerFormat)]
  {
  }

  lemma FormatOk(source: seq<byte>, i: Image, f: Fixups, k: nat)
    requires k < |f.segments| && FixupsOk(source, i.segments, i.headerAddress, f)
    ensures var g := f.segments[k];
            && g.segmentIndex < |i.segments| && (g.pageSize == 4096 || g.pageSize == 16384)
            && g.segmentOffset == WrapSub(i.segments[g.segmentIndex].address, i.headerAddress)
  {
    hide RecordAt, PagesOk, WrapSub;
    assert FixupOk(source[f.file.offset..f.file.End()], i.segments, i.headerAddress, f.segments[k]);
  }

  lemma FixupRecord(source: seq<byte>, i: Image, f: Fixups, k: nat) returns (at: nat, size: nat)
    requires k < |f.segments| && FixupsOk(source, i.segments, i.headerAddress, f)
    ensures f.file.offset <= f.file.End() <= |source| && f.segments[k].segmentIndex < |i.segments|
    ensures var data := source[f.file.offset..f.file.End()];
            && RecordAt(data, f.segments[k].segmentIndex, at, size) && at + size <= |data|
            && PagesOk(data[at..at + size], i.segments[f.segments[k].segmentIndex], f.segments[k])
  {
    hide PagesOk, WrapSub, U32;
    var data, g := source[f.file.offset..f.file.End()], f.segments[k];
    assert FixupOk(data, i.segments, i.headerAddress, g);
    at, size :| RecordAt(data, g.segmentIndex, at, size) && PagesOk(data[at..at + size], i.segments[g.segmentIndex], g);
  }

  lemma SegmentParts(env: Env, st: State, n: nat, i: Image, f: Fixups, g: FixupSegment, at: nat, size: nat)
    requires f.file.End() <= |env.source| && 28 <= f.file.size && g.pointerFormat == 11 && g.segmentIndex < |i.segments|
    requires g.segmentOffset == WrapSub(i.segments[g.segmentIndex].address, i.headerAddress)
    requires var data := env.source[f.file.offset..f.file.End()];
             && U32(data, 4) <= at
             && ReadWord(env.source, f.file.offset + U32(data, 4) + 4 + g.segmentIndex * 4, 4) == Ok(at - U32(data, 4))
             && ReadWord(env.source, f.file.offset + at, 4) == Ok(size)
             && InfoOf(env.source, f.file.offset + U32(data, 4), g) == f.file.offset + at && Read(env.source, f.file.offset + at, 4) == size
    ensures SegmentFixups(env, st, n, i, StartsOf(env.source, f), g)
         == PagesFrom(env, st, n, i.segments[g.segmentIndex], g, f.file.offset + at, f.file.offset + at + size, 0)
    ensures SegmentEvents(env.source, n, i, StartsOf(env.source, f), g)
         == PagesEvents(env.source, n, i.segments[g.segmentIndex], g, f.file.offset + at, f.file.offset + at + size, 0)
  {
    hide ReadWord, Read, U32, WrapSub, PagesFrom, PagesEvents, InfoOf;
  }

  lemma {:induction false} FixupsFollow(env: Env, outer: seq<Segment>, st: State, n: nat, i: Image, f: Fixups, k: nat)
    requires EnvOk(env, outer) && Within(env, st) && k <= |f.segments| && FixupsOk(env.source, i.segments, i.headerAddress, f)
    requires forall j :: 0 <= j < |i.segments| ==> SegmentOk(env.source, i.segments[j]) && Shared(outer, i.segments[j])
    ensures Follows(env, st, FixupsFrom(env, st, n, i, StartsOf(env.source, f), f.segments, k), FixupEvents(env.source, n, i, StartsOf(env.source, f), f.segments[k..]))
    decreases |f.segments| - k
  {
    hide EnvOk, Within, Shared, SegmentOk, StartsOf, SegmentFixups, SegmentEvents, FixupsOk, Follows, Run;
    var starts := StartsOf(env.source, f);
    if k < |f.segments| {
      SegmentFollows(env, outer, st, n, i, f, k);
      var next := SegmentFixups(env, st, n, i, starts, f.segments[k]);
      FollowsWithin(env, st, next, SegmentEvents(env.source, n, i, starts, f.segments[k]));
      if next.Ok? {
        FixupsFollow(env, outer, next.value, n, i, f, k + 1);
      }
      Then(env, st, next, SegmentEvents(env.source, n, i, starts, f.segments[k]),
           FixupsFrom(env, st, n, i, starts, f.segments, k), FixupEvents(env.source, n, i, starts, f.segments[k + 1..]));
      assert f.segments[k..][1..] == f.segments[k + 1..];
    } else {
      Nothing(env, st);
    }
  }

  lemma OptionalRemark(env: Env, st: State, condition: bool, n: nat, code: IssueCode)
    requires Within(env, st)
    ensures Follows(env, st, if condition then AddIssue(env, st, Issue(code, n, None, None)) else Ok(st), Remarks(condition, n, code))
  {
    hide AddIssue, Follows, Within;
    OneRemark(env, st, n, code);
    Nothing(env, st);
  }

  lemma StartsAreRead(source: seq<byte>, f: Fixups)
    requires f.file.End() <= |source| <= MAX_INPUT_SIZE && 28 <= f.file.size
    ensures ReadWord(source, f.file.offset + 4, 4).Ok? && StartsOf(source, f) == f.file.offset + ReadWord(source, f.file.offset + 4, 4).value
    ensures StartsOf(source, f) == f.file.offset + Read(source, f.file.offset + 4, 4)
  {
    HeadRead(source, f.file);
    ReadIs(source, f.file.offset + 4, 4);
    hide Read, ReadWord, U32;
  }

  lemma ImageFixupsFollow(env: Env, outer: seq<Segment>, st: State, n: nat, i: Image)
    requires EnvOk(env, outer) && Within(env, st) && Auditable(env.source, outer, i)
    ensures Follows(env, st, ImageFixups(env, st, n, i), ImageFixupEvents(env.source, n, i))
  {
    hide EnvOk, Within, Shared, SegmentOk, FixupsFrom, FixupsOk, Searchable, RelocationsOk, AddIssue, Read, ReadWord, StartsOf, Follows, Run, Remarks, FixupEvents;
    if i.fixups.Some? {
      var f := i.fixups.value;
      FixupsPlace(env.source, i, f);
      Small(env, outer);
      StartsAreRead(env.source, f);
      OptionalRemark(env, st, f.importsCount != 0, n, UnsupportedImports);
      var imports := if f.importsCount != 0 then AddIssue(env, st, Issue(UnsupportedImports, n, None, None)) else Ok(st);
      var first := Remarks(f.importsCount != 0, n, UnsupportedImports);
      var second := Remarks(f.symbolsFormat != 0, n, UnsupportedCompressedSymbols);
      var rest := FixupEvents(env.source, n, i, StartsOf(env.source, f), f.segments);
      FollowsWithin(env, st, imports, first);
      var whole := ImageFixups(env, st, n, i);
      if imports.Ok? {
        OptionalRemark(env, imports.value, f.symbolsFormat != 0, n, UnsupportedCompressedSymbols);
        var symbols := if f.symbolsFormat != 0 then AddIssue(env, imports.value, Issue(UnsupportedCompressedSymbols, n, None, None)) else Ok(imports.value);
        FollowsWithin(env, imports.value, symbols, second);
        if symbols.Ok? {
          FixupsFollow(env, outer, symbols.value, n, i, f, 0);
          assert f.segments[0..] == f.segments;
        }
        Then(env, imports.value, symbols, second, whole, rest);
      }
      Then(env, st, imports, first, whole, second + rest);
    } else {
      Nothing(env, st);
    }
  }

  lemma {:induction false} SectionListFollows(env: Env, outer: seq<Segment>, st: State, n: nat, i: Image, sections: seq<Section>)
    requires EnvOk(env, outer) && Within(env, st)
    requires forall k :: 0 <= k < |sections| ==> SectionOk(env.source, sections[k])
    ensures Follows(env, st, SectionsFrom(env, st, n, MapsOf(i.segments), sections), SectionEvents(n, i, sections))
    decreases |sections|
  {
    hide EnvOk, Within, ClassicFrom, TableEvents, Follows, Run, MapsOf;
    if sections != [] {
      var s := sections[0];
      assert SectionOk(env.source, s);
      var c := TableOfSection(n, i, s);
      TableFollows(env, outer, st, c);
      var next := ClassicFrom(env, st, c, 0);
      FollowsWithin(env, st, next, TableEvents(c));
      if next.Ok? {
        SectionListFollows(env, outer, next.value, n, i, sections[1..]);
      }
      Then(env, st, next, TableEvents(c), SectionsFrom(env, st, n, MapsOf(i.segments), sections), SectionEvents(n, i, sections[1..]));
    } else {
      Nothing(env, st);
    }
  }

  lemma {:induction false} SectionEventsJoin(n: nat, i: Image, a: seq<Section>, b: seq<Section>)
    ensures SectionEvents(n, i, a + b) == SectionEvents(n, i, a) + SectionEvents(n, i, b)
    decreases |a|
  {
    hide TableEvents, TableOfSection;
    if a == [] {
      assert a + b == b;
    } else {
      assert (a + b)[0] == a[0] && (a + b)[1..] == a[1..] + b;
      SectionEventsJoin(n, i, a[1..], b);
    }
  }

  /** The sections of all segments, one segment after the other. */
  lemma {:induction false} TablesOfSegments(n: nat, i: Image, segments: seq<Segment>)
    ensures SegmentTables(n, i, segments) == SectionEvents(n, i, AllSections(segments))
    decreases |segments|
  {
    hide SectionEvents;
    if segments != [] {
      TablesOfSegments(n, i, segments[1..]);
      SectionEventsJoin(n, i, segments[0].sections, AllSections(segments[1..]));
    } else {
      NoSections(n, i);
    }
  }

  lemma NoSections(n: nat, i: Image)
    ensures SectionEvents(n, i, []) == []
  {
  }

  lemma DynamicFollows(env: Env, outer: seq<Segment>, st: State, n: nat, i: Image)
    requires EnvOk(env, outer) && Within(env, st) && RelocationsOk(env.source, i)
    ensures Follows(env, st, DynamicTables(env, st, n, i, MapsOf(i.segments)), DynamicEvents(n, i))
  {
    hide EnvOk, Within, ClassicFrom, ClassicBase, TableEvents, Follows, Run, MapsOf;
    if i.relocations.Some? {
      var local, external := LocalTable(n, i, i.relocations.value.local, ClassicBase(i)), ExternalTable(n, i, i.relocations.value.external, ClassicBase(i));
      TableFollows(env, outer, st, local);
      var next := ClassicFrom(env, st, local, 0);
      FollowsWithin(env, st, next, TableEvents(local));
      if next.Ok? {
        TableFollows(env, outer, next.value, external);
      }
      Then(env, st, next, TableEvents(local), DynamicTables(env, st, n, i, MapsOf(i.segments)), TableEvents(external));
    } else {
      Nothing(env, st);
    }
  }

  lemma ImageFollows(env: Env, outer: seq<Segment>, st: State, n: nat, i: Image)
    requires EnvOk(env, outer) && Within(env, st) && Auditable(env.source, outer, i)
    ensures Follows(env, st, AuditImage(env, st, n, i), ImageEvents(env.source, n, i))
  {
    AuditableParts(env.source, outer, i);
    MappingsHold(env.source, i.segments);
    SectionsOk(env.source, i.segments);
    TablesOfSegments(n, i, i.segments);
    hide EnvOk, Within, Auditable, DynamicTables, SectionsFrom, ImageFixups, Mappings, AllSections, Searched, Searchable, Follows, Run, DynamicEvents, SegmentTables, ImageFixupEvents, SectionOk;
    var dynamic := DynamicTables(env, st, n, i, MapsOf(i.segments));
    DynamicFollows(env, outer, st, n, i);
    FollowsWithin(env, st, dynamic, DynamicEvents(n, i));
    var whole := AuditImage(env, st, n, i);
    if dynamic.Ok? {
      var sections := SectionsFrom(env, dynamic.value, n, MapsOf(i.segments), AllSections(i.segments));
      SectionListFollows(env, outer, dynamic.value, n, i, AllSections(i.segments));
      FollowsWithin(env, dynamic.value, sections, SegmentTables(n, i, i.segments));
      if sections.Ok? {
        ImageFixupsFollow(env, outer, sections.value, n, i);
      }
      Then(env, dynamic.value, sections, SegmentTables(n, i, i.segments), whole, ImageFixupEvents(env.source, n, i));
    }
    Then(env, st, dynamic, DynamicEvents(n, i), whole, SegmentTables(n, i, i.segments) + ImageFixupEvents(env.source, n, i));
  }

  lemma {:induction false} MembersFollow(env: Env, outer: seq<Segment>, st: State, members: seq<Image>, k: nat)
    requires EnvOk(env, outer) && Within(env, st) && k <= |members|
    requires forall j :: 0 <= j < |members| ==> Auditable(env.source, outer, members[j])
    ensures Follows(env, st, AuditMembers(env, st, members, k), MemberEvents(env.source, members, k))
    decreases |members| - k
  {
    hide EnvOk, Within, Auditable, AuditImage, ImageEvents, Follows, Run;
    if k < |members| {
      ImageFollows(env, outer, st, k + 1, members[k]);
      var next := AuditImage(env, st, k + 1, members[k]);
      FollowsWithin(env, st, next, ImageEvents(env.source, k + 1, members[k]));
      if next.Ok? {
        MembersFollow(env, outer, next.value, members, k + 1);
      }
      Then(env, st, next, ImageEvents(env.source, k + 1, members[k]), AuditMembers(env, st, members, k), MemberEvents(env.source, members, k + 1));
    } else {
      Nothing(env, st);
    }
  }

  //////////////////////////////////////////////////////////////////////////////
  // The whole audit runs the events of the collection
  //////////////////////////////////////////////////////////////////////////////

  lemma {:induction false} AddConflictsLimit(env: Env, st: State, conflicts: seq<O.Conflict>)
    requires |st.issues| <= env.limits.issues
    ensures AddConflicts(env, st, conflicts)
         == if |st.issues| + |conflicts| <= env.limits.issues then Ok(st.(issues := st.issues + ConflictList(st.records, conflicts))) else Err(AuditLimit)
    decreases |conflicts|
  {
    AddConflictsExact(env, st, conflicts);
    hide ConflictList, ConflictIssue;
    if conflicts != [] {
      var next := AddIssue(env, st, ConflictIssue(st.records, conflicts[0]));
      if next.Ok? {
        AddConflictsLimit(env, next.value, conflicts[1..]);
      }
    }
  }

  /** The reports of the writes that conflict, and the state after them. */
  function Conflicts(st: State): seq<O.Conflict> {
    O.Sweep(OrderedWrites(st.records))
  }

  function WithConflicts(st: State): State {
    st.(issues := st.issues + ConflictList(st.records, Conflicts(st)))
  }

  lemma OverlapsFollow(env: Env, st: State)
    requires StateOk(env, st) && Within(env, st)
    ensures AuditOverlaps(env, st) == if Within(env, WithConflicts(st)) then Ok(WithConflicts(st)) else Err(AuditLimit)
  {
    StateRecords(env, st);
    hide StateOk, OrderedWrites, O.InOrder, O.Sweep, EndsFit;
    OrderedWritesExact(env, st.records);
    AddConflictsLimit(env, st, Conflicts(st));
  }

  /** The state of the audit when all images have been walked. */
  function Walked(env: Env, i: Inspection): State {
    Run(env, NO_RECORDS, Events(env.source, i))
  }

  /** The two walks of an audit, one after the other. */
  function Walk(env: Env, i: Inspection): Result<State, AuditError> {
    var outer :- AuditImage(env, NO_RECORDS, 0, i.collection);
    AuditMembers(env, outer, i.members, 0)
  }

  lemma WalkFollows(source: seq<byte>, limits: Limits, i: Inspection)
    requires Accepted(source, i) && LimitsOk(limits)
    ensures EnvOf(source, limits, i).Ok?
    ensures var env := EnvOf(source, limits, i).value; env.source == source && Follows(env, NO_RECORDS, Walk(env, i), Events(source, i))
  {
    hide *;
    EnvHolds(source, limits, i);
    OuterAuditable(source, i);
    forall m: nat | m < |i.members| ensures Auditable(source, i.collection.segments, i.members[m]) {
      MemberAuditable(source, i, m);
    }
    var env := EnvOf(source, limits, i).value;
    NothingWithin(env);
    WalkOf(env, i.collection.segments, i);
  }

  lemma NothingWithin(env: Env)
    ensures Within(env, NO_RECORDS)
  {
  }

  lemma WalkOf(env: Env, outer: seq<Segment>, i: Inspection)
    requires EnvOk(env, outer) && Within(env, NO_RECORDS) && Auditable(env.source, outer, i.collection)
    requires forall m: nat :: m < |i.members| ==> Auditable(env.source, outer, i.members[m])
    ensures Follows(env, NO_RECORDS, Walk(env, i), Events(env.source, i))
  {
    hide EnvOk, AuditImage, AuditMembers, Auditable, ImageEvents, MemberEvents, Follows, Run, Within;
    ImageFollows(env, outer, NO_RECORDS, 0, i.collection);
    var first := AuditImage(env, NO_RECORDS, 0, i.collection);
    FollowsWithin(env, NO_RECORDS, first, ImageEvents(env.source, 0, i.collection));
    if first.Ok? {
      MembersFollow(env, outer, first.value, i.members, 0);
    }
    Then(env, NO_RECORDS, first, ImageEvents(env.source, 0, i.collection), Walk(env, i), MemberEvents(env.source, i.members, 0));
  }

  lemma WalkSafe(source: seq<byte>, limits: Limits, i: Inspection)
    requires Accepted(source, i) && EnvOf(source, limits, i).Ok?
    ensures Safe(EnvOf(source, limits, i).value, Walk(EnvOf(source, limits, i).value, i))
  {
    EnvHolds(source, limits, i);
    OuterAuditable(source, i);
    forall m: nat | m < |i.members| ensures Auditable(source, i.collection.segments, i.members[m]) {
      MemberAuditable(source, i, m);
    }
    NothingRecorded(EnvOf(source, limits, i).value);
    hide Accepted, EnvOf, EnvOk, StateOk, Balanced, AuditImage, AuditMembers, Auditable;
    var env := EnvOf(source, limits, i).value;
    ImageSafe(env, i.collection.segments, NO_RECORDS, 0, i.collection);
    var outer := AuditImage(env, NO_RECORDS, 0, i.collection);
    if outer.Ok? {
      MembersSafe(env, i.collection.segments, outer.value, i.members, 0);
    }
  }

  /**
   The audit of an accepted collection runs the events of the collection and then reports the conflicts
   of the writes; it fails exactly when that takes more records, issues or page starts than the limits allow.
   */
  lemma AuditRuns(source: seq<byte>, limits: Limits, i: Inspection)
    requires Accepted(source, i) && LimitsOk(limits)
    ensures EnvOf(source, limits, i).Ok?
    ensures var env := EnvOf(source, limits, i).value;
            && env.source == source
            && Audit(source, limits, i) == if Within(env, WithConflicts(Walked(env, i))) then Ok(WithConflicts(Walked(env, i))) else Err(AuditLimit)
  {
    WalkFollows(source, limits, i);
    WalkSafe(source, limits, i);
    hide Accepted, EnvOf, StateOk, Balanced, Walk, AuditImage, AuditMembers, AuditOverlaps, LimitsOk, Events, Run, WithConflicts, Within;
    var env := EnvOf(source, limits, i).value;
    AuditIsWalk(source, limits, i);
    if Within(env, Walked(env, i)) {
      OverlapsFollow(env, Walked(env, i));
    } else {
      NotWithin(env, Walked(env, i));
    }
  }

  lemma AuditIsWalk(source: seq<byte>, limits: Limits, i: Inspection)
    requires LimitsOk(limits) && EnvOf(source, limits, i).Ok?
    ensures var env := EnvOf(source, limits, i).value;
            Audit(source, limits, i) == if Walk(env, i).Err? then Err(Walk(env, i).error) else AuditOverlaps(env, Walk(env, i).value)
  {
    hide EnvOf, AuditImage, AuditMembers, AuditOverlaps;
  }

  lemma NotWithin(env: Env, st: State)
    requires !Within(env, st)
    ensures !Within(env, WithConflicts(st))
  {
    hide Conflicts;
  }

  //////////////////////////////////////////////////////////////////////////////
  // The records of a run, one for one
  //////////////////////////////////////////////////////////////////////////////

  predicate IsPlace(e: Event) {
    e.TableEntry? || e.ChainWord?
  }

  /** The entries and words among the events, in order. */
  function Places(es: seq<Event>): (r: seq<Event>)
    ensures forall n :: 0 <= n < |r| ==> IsPlace(r[n]) && r[n] in es
    decreases |es|
  {
    if es == [] then []
    else (if IsPlace(es[0]) then [es[0]] else []) + Places(es[1..])
  }

  function RecordOf(env: Env, e: Event): Record
    requires IsPlace(e)
  {
    match e
    case TableEntry(c, k) => EntryRecord(env, c, k)
    case ChainWord(c, position) => WordRecord(env, c, position)
  }

  function CodesOf(env: Env, e: Event): seq<IssueCode>
    requires IsPlace(e)
  {
    var r := RecordOf(env, e);
    match e
    case TableEntry(c, k) => if r.detail.Classic? then ClassicCodes(c, r) else []
    case ChainWord(c, position) => ChainCodes(env, r)
  }

  lemma AfterPlace(env: Env, st: State, e: Event)
    ensures IsPlace(e) ==>
              && After(env, st, e).records == st.records + [RecordOf(env, e)]
              && After(env, st, e).issues == st.issues + IssueList(RecordOf(env, e).image, Some(|st.records|), CodesOf(env, e))
    ensures !IsPlace(e) ==> After(env, st, e).records == st.records
    ensures !IsPlace(e) ==> After(env, st, e).issues == st.issues + (if e.Remark? then [Issue(e.code, e.image, None, None)] else [])
  {
    hide EntryRecord, WordRecord, ClassicCodes, ChainCodes, IssueList;
  }

  lemma PlacesStep(es: seq<Event>)
    requires es != []
    ensures IsPlace(es[0]) ==> Places(es) == [es[0]] + Places(es[1..])
    ensures !IsPlace(es[0]) ==> Places(es) == Places(es[1..])
  {
  }

  function RecordsOf(env: Env, places: seq<Event>): (r: seq<Record>)
    requires forall n :: 0 <= n < |places| ==> IsPlace(places[n])
    ensures |r| == |places| && forall n :: 0 <= n < |r| ==> r[n] == RecordOf(env, places[n])
  {
    seq(|places|, n requires 0 <= n < |places| => RecordOf(env, places[n]))
  }

  lemma RecordsStep(env: Env, es: seq<Event>)
    requires es != []
    ensures RecordsOf(env, Places(es)) == (if IsPlace(es[0]) then [RecordOf(env, es[0])] else []) + RecordsOf(env, Places(es[1..]))
  {
    hide RecordOf;
  }

  /** A run leaves one record for every entry and every word, in order. */
  lemma {:induction false} RunRecords(env: Env, st: State, es: seq<Event>)
    ensures Run(env, st, es).records == st.records + RecordsOf(env, Places(es))
    decreases |es|
  {
    hide *;
    if es != [] {
      AfterPlace(env, st, es[0]);
      RecordsStep(env, es);
      RunUnfold(env, st, es);
      RunRecords(env, After(env, st, es[0]), es[1..]);
      var rest := RecordsOf(env, Places(es[1..]));
      if IsPlace(es[0]) {
        Regroup(st.records, [RecordOf(env, es[0])], rest);
      } else {
        assert [] + rest == rest;
      }
    } else {
      RunNone(env, st);
      NothingPlaced(env, st.records);
    }
  }

  lemma Regroup<T>(a: seq<T>, b: seq<T>, c: seq<T>)
    ensures a + b + c == a + (b + c)
  {
  }

  lemma NothingPlaced(env: Env, before: seq<Record>)
    ensures Places([]) == [] && before + RecordsOf(env, Places([])) == before
  {
  }

  lemma RunUnfold(env: Env, st: State, es: seq<Event>)
    requires es != []
    ensures Run(env, st, es) == Run(env, After(env, st, es[0]), es[1..])
  {
    hide After;
  }

  /** The issue is one of the record of an entry or a word. */
  predicate Named(env: Env, e: Event, issue: Issue) {
    IsPlace(e) && issue.image == RecordOf(env, e).image && issue.code in CodesOf(env, e)
  }

  /** Where an issue of a run comes from: a remark, or a code of the record it names. */
  ghost predicate Raised(env: Env, first: nat, es: seq<Event>, issue: Issue) {
    && issue.related.None?
    && if issue.record.None? then Remark(issue.image, issue.code) in es else RaisedAmong(env, first, Places(es), issue)
  }

  predicate RaisedAmong(env: Env, first: nat, places: seq<Event>, issue: Issue)
    requires issue.record.Some?
  {
    first <= issue.record.value < first + |places| && Named(env, places[issue.record.value - first], issue)
  }

  /** The issues of one event. */
  predicate RaisedBy(env: Env, first: nat, e: Event, issue: Issue) {
    && issue.related.None?
    && if IsPlace(e) then issue.record == Some(first) && Named(env, e, issue) else issue.record.None? && e == Remark(issue.image, issue.code)
  }

  lemma AmongCons(env: Env, first: nat, e: Event, places: seq<Event>, issue: Issue)
    requires issue.record.Some?
    ensures RaisedAmong(env, first, [e] + places, issue) <==>
              (issue.record.value == first && Named(env, e, issue)) || RaisedAmong(env, first + 1, places, issue)
  {
    hide Named;
  }

  lemma RaisedStep(env: Env, first: nat, es: seq<Event>, issue: Issue)
    requires es != []
    ensures Raised(env, first, es, issue) <==>
              RaisedBy(env, first, es[0], issue) || Raised(env, first + (if IsPlace(es[0]) then 1 else 0), es[1..], issue)
  {
    PlacesStep(es);
    RemarkStep(es, issue);
    if issue.record.Some? {
      AmongCons(env, first, es[0], Places(es[1..]), issue);
    }
    hide Named, Places, RaisedAmong;
  }

  lemma RaisedNever(env: Env, first: nat, issue: Issue)
    ensures !Raised(env, first, [], issue)
  {
    hide Named;
  }

  lemma AfterIssues(env: Env, st: State, e: Event, issue: Issue)
    ensures issue in After(env, st, e).issues <==> issue in st.issues || RaisedBy(env, |st.records|, e, issue)
    ensures |After(env, st, e).records| == |st.records| + (if IsPlace(e) then 1 else 0)
  {
    AfterPlace(env, st, e);
    hide After, RecordOf, CodesOf, IssueList;
    if IsPlace(e) {
      ListedIssue(RecordOf(env, e).image, |st.records|, CodesOf(env, e), issue);
    }
  }

  /** The issues of a run are exactly the remarks and the codes of its records. */
  lemma {:induction false} RunIssues(env: Env, st: State, es: seq<Event>, issue: Issue)
    ensures issue in Run(env, st, es).issues <==> issue in st.issues || Raised(env, |st.records|, es, issue)
    decreases |es|
  {
    hide *;
    if es != [] {
      AfterIssues(env, st, es[0], issue);
      RaisedStep(env, |st.records|, es, issue);
      RunUnfold(env, st, es);
      RunIssues(env, After(env, st, es[0]), es[1..], issue);
    } else {
      RunNone(env, st);
      RaisedNever(env, |st.records|, issue);
    }
  }

  lemma RemarkStep(es: seq<Event>, issue: Issue)
    requires es != []
    ensures Remark(issue.image, issue.code) in es <==> es[0] == Remark(issue.image, issue.code) || Remark(issue.image, issue.code) in es[1..]
    ensures IsPlace(es[0]) ==> es[0] != Remark(issue.image, issue.code)
  {
    assert es == [es[0]] + es[1..];
  }

  lemma ListedIssue(image: nat, record: nat, codes: seq<IssueCode>, issue: Issue)
    ensures issue in IssueList(image, Some(record), codes) <==>
              issue.record == Some(record) && issue.related.None? && issue.image == image && issue.code in codes
  {
    var list := IssueList(image, Some(record), codes);
    if issue.record == Some(record) && issue.related.None? && issue.image == image && issue.code in codes {
      var k :| 0 <= k < |codes| && codes[k] == issue.code;
      assert list[k] == issue;
    }
  }

  //////////////////////////////////////////////////////////////////////////////
  // The shape of a chain
  //////////////////////////////////////////////////////////////////////////////

  /** Each position is the one before it plus the distance stored there, and a word fits at every one. */
  ghost predicate Walks(source: seq<byte>, c: ChainContext, ps: seq<nat>) {
    && (forall n :: 0 <= n < |ps| ==> WordFits(c, ps[n]))
    && (forall n :: 0 <= n < |ps| - 1 ==> Stride(source, c, ps[n]) != 0 && ps[n + 1] == ps[n] + Stride(source, c, ps[n]))
  }

  /** The positions of the chain from a start: the first is the start, and the walk goes on until a word has no next or the next one does not fit. */
  ghost predicate IsChain(source: seq<byte>, c: ChainContext, start: nat, ps: seq<nat>) {
    && Walks(source, c, ps)
    && (if ps == [] then !WordFits(c, start)
        else ps[0] == start && (Stride(source, c, Last(ps)) == 0 || !WordFits(c, Last(ps) + Stride(source, c, Last(ps)))))
  }

  function Last(ps: seq<nat>): nat
    requires ps != []
  {
    ps[|ps| - 1]
  }

  /** How a chain ends: at a word without a next one, or at the bound that its next word would cross. */
  function EndOf(source: seq<byte>, c: ChainContext, start: nat, ps: seq<nat>): Event {
    if ps == [] then Beyond(c, start)
    else if Stride(source, c, Last(ps)) == 0 then ChainEnded
    else Beyond(c, Last(ps) + Stride(source, c, Last(ps)))
  }

  function WordEvents(c: ChainContext, ps: seq<nat>): (r: seq<Event>)
    ensures |r| == |ps| && forall n :: 0 <= n < |r| ==> r[n] == ChainWord(c, ps[n])
  {
    seq(|ps|, n requires 0 <= n < |ps| => ChainWord(c, ps[n]))
  }

  /** From any start there is exactly one list of positions, and the events of the chain are its words and its end. */
  lemma {:induction false} ChainShape(source: seq<byte>, c: ChainContext, start: nat) returns (ps: seq<nat>)
    ensures IsChain(source, c, start, ps)
    ensures ChainEvents(source, c, start) == WordEvents(c, ps) + [EndOf(source, c, start, ps)]
    decreases if start < c.pageSize then c.pageSize - start else 0
  {
    hide Stride;
    if !WordFits(c, start) {
      ps := [];
    } else if Stride(source, c, start) == 0 {
      ps := [start];
      assert WordEvents(c, ps) == [ChainWord(c, start)];
    } else {
      var rest := ChainShape(source, c, start + Stride(source, c, start));
      ps := [start] + rest;
      assert WordEvents(c, ps) == [ChainWord(c, start)] + WordEvents(c, rest);
      LongerChain(source, c, start, rest);
    }
  }

  lemma LongerChain(source: seq<byte>, c: ChainContext, start: nat, rest: seq<nat>)
    requires WordFits(c, start) && Stride(source, c, start) != 0 && IsChain(source, c, start + Stride(source, c, start), rest)
    ensures IsChain(source, c, start, [start] + rest)
    ensures EndOf(source, c, start, [start] + rest) == EndOf(source, c, start + Stride(source, c, start), rest)
  {
    hide Stride, WordFits;
    var ps := [start] + rest;
    forall n | 0 <= n < |ps| - 1 ensures Stride(source, c, ps[n]) != 0 && ps[n + 1] == ps[n] + Stride(source, c, ps[n]) {
      assert n > 0 ==> ps[n] == rest[n - 1] && ps[n + 1] == rest[n - 1 + 1];
    }
  }

  /** There is no other list of positions. */
  lemma {:induction false} OneChain(source: seq<byte>, c: ChainContext, start: nat, ps: seq<nat>, qs: seq<nat>)
    requires IsChain(source, c, start, ps) && IsChain(source, c, start, qs)
    ensures ps == qs
    decreases |ps|
  {
    EmptyChain(source, c, start, ps);
    EmptyChain(source, c, start, qs);
    hide Stride, WordFits;
    if ps != [] && qs != [] {
      if |ps| > 1 || |qs| > 1 {
        var next := start + Stride(source, c, start);
        TailChain(source, c, start, ps);
        TailChain(source, c, start, qs);
        if Stride(source, c, start) != 0 {
          OneChain(source, c, next, ps[1..], qs[1..]);
        }
        assert ps == [start] + ps[1..] && qs == [start] + qs[1..];
      }
    }
  }

  lemma EmptyChain(source: seq<byte>, c: ChainContext, start: nat, ps: seq<nat>)
    requires IsChain(source, c, start, ps)
    ensures ps == [] <==> !WordFits(c, start)
  {
    hide Stride, WordFits;
  }

  lemma TailChain(source: seq<byte>, c: ChainContext, start: nat, ps: seq<nat>)
    requires IsChain(source, c, start, ps) && ps != []
    ensures Stride(source, c, start) != 0 ==> IsChain(source, c, start + Stride(source, c, start), ps[1..])
    ensures Stride(source, c, start) == 0 ==> |ps| == 1
  {
    hide Stride, WordFits;
    if |ps| > 1 {
      assert Stride(source, c, ps[0]) != 0 && ps[0 + 1] == ps[0] + Stride(source, c, ps[0]);
      var qs := ps[1..];
      forall n | 0 <= n < |qs| - 1 ensures Stride(source, c, qs[n]) != 0 && qs[n + 1] == qs[n] + Stride(source, c, qs[n]) {
        assert qs[n] == ps[n + 1] && qs[n + 1] == ps[n + 1 + 1];
      }
    }
  }

  /** A position of the chain from a start. */
  ghost predicate OnChain(source: seq<byte>, c: ChainContext, start: nat, position: nat) {
    exists ps: seq<nat> :: IsChain(source, c, start, ps) && position in ps
  }

  lemma ChainWordsExact(source: seq<byte>, c: ChainContext, start: nat, d: ChainContext, position: nat)
    ensures ChainWord(d, position) in ChainEvents(source, c, start) <==> d == c && OnChain(source, c, start, position)
  {
    hide IsChain, ChainEvents, EndOf, WordEvents;
    var ps := ChainShape(source, c, start);
    EndIsNoWord(source, c, start, ps);
    WordIn(c, ps, d, position);
    if OnChain(source, c, start, position) {
      var qs: seq<nat> :| IsChain(source, c, start, qs) && position in qs;
      OneChain(source, c, start, ps, qs);
    }
  }

  lemma EndIsNoWord(source: seq<byte>, c: ChainContext, start: nat, ps: seq<nat>)
    ensures !IsPlace(EndOf(source, c, start, ps))
  {
    hide Stride;
  }

  lemma WordIn(c: ChainContext, ps: seq<nat>, d: ChainContext, position: nat)
    ensures ChainWord(d, position) in WordEvents(c, ps) <==> d == c && position in ps
  {
    if d == c && position in ps {
      var n :| 0 <= n < |ps| && ps[n] == position;
      assert WordEvents(c, ps)[n] == ChainWord(d, position);
    }
  }

  //////////////////////////////////////////////////////////////////////////////
  // Which entries and words there are
  //////////////////////////////////////////////////////////////////////////////

  /** The m-th slot of a list of starts, if none before it has the high bit. */
  ghost predicate ListedStart(source: seq<byte>, infoEnd: nat, at: nat, m: nat, start: nat) {
    && at + 2 * m + 2 <= infoEnd && start == Read(source, at + 2 * m, 2) % 0x8000
    && forall j: nat :: j < m ==> SlotBefore(source, at, j)
  }

  predicate SlotBefore(source: seq<byte>, at: nat, j: nat) {
    Read(source, at + 2 * j, 2) < 0x8000
  }

  /** A start on the list at an offset. */
  ghost predicate Listed(source: seq<byte>, infoEnd: nat, at: nat, start: nat) {
    exists m: nat :: ListedStart(source, infoEnd, at, m, start)
  }

  /** A chain of the page starts there: the slot of the page says so itself, or names a list that does. */
  ghost predicate StartsAt(source: seq<byte>, c: ChainContext, info: nat, infoEnd: nat, start: nat) {
    var first := Read(source, info + 22 + 2 * c.page, 2);
    || (first < 0x8000 && start == first)
    || (first >= 0x8000 && first != 0xffff && Listed(source, infoEnd, info + 22 + 2 * (first % 0x8000), start))
  }

  ghost predicate ListHas(source: seq<byte>, c: ChainContext, infoEnd: nat, at: nat, position: nat) {
    exists start: nat :: Listed(source, infoEnd, at, start) && OnChain(source, c, start, position)
  }

  lemma ListedStep(source: seq<byte>, infoEnd: nat, at: nat, start: nat)
    ensures Listed(source, infoEnd, at, start) <==>
              at + 2 <= infoEnd && (start == Read(source, at, 2) % 0x8000 || (Read(source, at, 2) < 0x8000 && Listed(source, infoEnd, at + 2, start)))
  {
    hide Read;
    if at + 2 <= infoEnd {
      if start == Read(source, at, 2) % 0x8000 {
        assert ListedStart(source, infoEnd, at, 0, start);
      }
      if Read(source, at, 2) < 0x8000 && Listed(source, infoEnd, at + 2, start) {
        var m: nat :| ListedStart(source, infoEnd, at + 2, m, start);
        LaterListed(source, infoEnd, at, m, start);
      }
      if Listed(source, infoEnd, at, start) {
        var m: nat :| ListedStart(source, infoEnd, at, m, start);
        if m > 0 {
          EarlierListed(source, infoEnd, at, m - 1, start);
        }
      }
    }
  }

  lemma LaterListed(source: seq<byte>, infoEnd: nat, at: nat, m: nat, start: nat)
    requires Read(source, at, 2) < 0x8000 && ListedStart(source, infoEnd, at + 2, m, start)
    ensures ListedStart(source, infoEnd, at, m + 1, start)
  {
    hide Read;
    assert at + 2 * (m + 1) == at + 2 + 2 * m;
    forall j: nat | j < m + 1 ensures SlotBefore(source, at, j) {
      if j > 0 {
        assert SlotBefore(source, at + 2, j - 1) && at + 2 + 2 * (j - 1) == at + 2 * j;
      }
    }
  }

  lemma EarlierListed(source: seq<byte>, infoEnd: nat, at: nat, m: nat, start: nat)
    requires ListedStart(source, infoEnd, at, m + 1, start)
    ensures Read(source, at, 2) < 0x8000 && ListedStart(source, infoEnd, at + 2, m, start)
  {
    hide Read;
    assert at + 2 * (m + 1) == at + 2 + 2 * m;
    assert SlotBefore(source, at, 0);
    var next := at + 2;
    forall j: nat | j < m ensures SlotBefore(source, next, j) {
      assert SlotBefore(source, at, j + 1) && at + 2 * (j + 1) == next + 2 * j;
    }
  }

  lemma {:induction false} StartWordsExact(source: seq<byte>, c: ChainContext, infoEnd: nat, at: nat, d: ChainContext, position: nat)
    ensures ChainWord(d, position) in StartEvents(source, c, infoEnd, at) <==> d == c && ListHas(source, c, infoEnd, at, position)
    decreases if at < infoEnd then infoEnd - at else 0
  {
    hide OnChain, ChainEvents, Read, Listed;
    forall start: nat ensures Listed(source, infoEnd, at, start) <==>
        at + 2 <= infoEnd && (start == Read(source, at, 2) % 0x8000 || (Read(source, at, 2) < 0x8000 && Listed(source, infoEnd, at + 2, start))) {
      ListedStep(source, infoEnd, at, start);
    }
    if at + 2 <= infoEnd {
      var w := Read(source, at, 2);
      ChainWordsExact(source, c, w % 0x8000, d, position);
      assert Listed(source, infoEnd, at, w % 0x8000);
      if w < 0x8000 {
        StartWordsExact(source, c, infoEnd, at + 2, d, position);
      }
    }
  }

  ghost predicate PageHas(source: seq<byte>, c: ChainContext, info: nat, infoEnd: nat, position: nat) {
    exists start: nat :: StartsAt(source, c, info, infoEnd, start) && OnChain(source, c, start, position)
  }

  lemma PageWordsExact(source: seq<byte>, c: ChainContext, info: nat, infoEnd: nat, d: ChainContext, position: nat)
    ensures ChainWord(d, position) in PageEvents(source, c, info, infoEnd) <==> d == c && PageHas(source, c, info, infoEnd, position)
  {
    hide OnChain, ChainEvents, StartEvents, Read, Listed;
    var first := Read(source, info + 22 + 2 * c.page, 2);
    ChainWordsExact(source, c, first, d, position);
    StartWordsExact(source, c, infoEnd, info + 22 + 2 * (first % 0x8000), d, position);
    if first < 0x8000 {
      assert StartsAt(source, c, info, infoEnd, first);
    } else if first != 0xffff {
      PageOfList(source, c, info, infoEnd, position);
    }
  }

  lemma PageOfList(source: seq<byte>, c: ChainContext, info: nat, infoEnd: nat, position: nat)
    requires 0x8000 <= Read(source, info + 22 + 2 * c.page, 2) && Read(source, info + 22 + 2 * c.page, 2) != 0xffff
    ensures PageHas(source, c, info, infoEnd, position) <==>
              ListHas(source, c, infoEnd, info + 22 + 2 * (Read(source, info + 22 + 2 * c.page, 2) % 0x8000), position)
  {
    hide OnChain, Read, Listed;
    var at := info + 22 + 2 * (Read(source, info + 22 + 2 * c.page, 2) % 0x8000);
    if ListHas(source, c, infoEnd, at, position) {
      var start: nat :| Listed(source, infoEnd, at, start) && OnChain(source, c, start, position);
      assert StartsAt(source, c, info, infoEnd, start);
    }
    if PageHas(source, c, info, infoEnd, position) {
      var start: nat :| StartsAt(source, c, info, infoEnd, start) && OnChain(source, c, start, position);
      assert Listed(source, infoEnd, at, start);
    }
  }

  /** A word of a chain of one of the pages of a fixed-up segment. */
  ghost predicate PagesHave(source: seq<byte>, n: nat, s: Segment, f: FixupSegment, info: nat, infoEnd: nat, c: ChainContext, position: nat) {
    c.page < f.pageCount && c == PageContextOf(n, s, f, c.page) && PageHas(source, c, info, infoEnd, position)
  }

  lemma {:induction false} PagesWordsExact(source: seq<byte>, n: nat, s: Segment, f: FixupSegment, info: nat, infoEnd: nat, page: nat, d: ChainContext, position: nat)
    requires page <= f.pageCount
    ensures ChainWord(d, position) in PagesEvents(source, n, s, f, info, infoEnd, page) <==> page <= d.page && PagesHave(source, n, s, f, info, infoEnd, d, position)
    decreases f.pageCount - page
  {
    hide PageEvents, PageHas;
    if page < f.pageCount {
      PageWordsExact(source, PageContextOf(n, s, f, page), info, infoEnd, d, position);
      PagesWordsExact(source, n, s, f, info, infoEnd, page + 1, d, position);
    }
  }

  /** A word of a chain that a record of fixups describes; the record of the segment starts where its slot says and is as long as its first word says. */
  ghost predicate SegmentHas(source: seq<byte>, n: nat, i: Image, starts: nat, f: FixupSegment, c: ChainContext, position: nat) {
    && f.pointerFormat == 11 && f.segmentIndex < |i.segments|
    && PagesHave(source, n, i.segments[f.segmentIndex], f, InfoOf(source, starts, f), InfoOf(source, starts, f) + Read(source, InfoOf(source, starts, f), 4), c, position)
  }

  lemma SegmentWordsExact(source: seq<byte>, n: nat, i: Image, starts: nat, f: FixupSegment, d: ChainContext, position: nat)
    ensures ChainWord(d, position) in SegmentEvents(source, n, i, starts, f) <==> SegmentHas(source, n, i, starts, f, d, position)
  {
    hide PagesEvents, PagesHave, InfoOf, Read;
    if f.pointerFormat == 11 && f.segmentIndex < |i.segments| {
      var info := InfoOf(source, starts, f);
      PagesWordsExact(source, n, i.segments[f.segmentIndex], f, info, info + Read(source, info, 4), 0, d, position);
    }
  }

  ghost predicate FixupsHave(source: seq<byte>, n: nat, i: Image, starts: nat, fixups: seq<FixupSegment>, c: ChainContext, position: nat) {
    exists q :: 0 <= q < |fixups| && SegmentHas(source, n, i, starts, fixups[q], c, position)
  }

  lemma {:induction false} FixupWordsExact(source: seq<byte>, n: nat, i: Image, starts: nat, fixups: seq<FixupSegment>, d: ChainContext, position: nat)
    ensures ChainWord(d, position) in FixupEvents(source, n, i, starts, fixups) <==> FixupsHave(source, n, i, starts, fixups, d, position)
    decreases |fixups|
  {
    hide SegmentEvents, SegmentHas;
    if fixups != [] {
      SegmentWordsExact(source, n, i, starts, fixups[0], d, position);
      FixupWordsExact(source, n, i, starts, fixups[1..], d, position);
      var rest := fixups[1..];
      if q :| 0 <= q < |rest| && SegmentHas(source, n, i, starts, rest[q], d, position) {
        assert SegmentHas(source, n, i, starts, fixups[q + 1], d, position);
      }
      if q :| 0 <= q < |fixups| && SegmentHas(source, n, i, starts, fixups[q], d, position) {
        assert q > 0 ==> SegmentHas(source, n, i, starts, rest[q - 1], d, position);
      }
    }
  }

  /** A word of a chain of an image: its starts table stands at the offset stored in the second word of its fixups. */
  ghost predicate ImageHasWord(source: seq<byte>, n: nat, i: Image, c: ChainContext, position: nat) {
    && i.fixups.Some?
    && var f := i.fixups.value;
       FixupsHave(source, n, i, f.file.offset + Read(source, f.file.offset + 4, 4), f.segments, c, position)
  }

  predicate NoWord(es: seq<Event>) {
    forall e :: e in es ==> !e.ChainWord?
  }

  predicate NoEntry(es: seq<Event>) {
    forall e :: e in es ==> !e.TableEntry?
  }

  lemma {:induction false} SectionsHaveNoWord(n: nat, i: Image, sections: seq<Section>)
    ensures NoWord(SectionEvents(n, i, sections))
    decreases |sections|
  {
    hide TableOfSection;
    if sections != [] {
      SectionsHaveNoWord(n, i, sections[1..]);
    }
  }

  lemma {:induction false} TablesHaveNoWord(n: nat, i: Image, segments: seq<Segment>)
    ensures NoWord(SegmentTables(n, i, segments))
    decreases |segments|
  {
    hide SectionEvents;
    if segments != [] {
      SectionsHaveNoWord(n, i, segments[0].sections);
      TablesHaveNoWord(n, i, segments[1..]);
    }
  }

  lemma DynamicHasNoWord(n: nat, i: Image)
    ensures NoWord(DynamicEvents(n, i))
  {
    hide ClassicBase, MapsOf;
  }

  lemma ImageWordsExact(source: seq<byte>, n: nat, i: Image, d: ChainContext, position: nat)
    ensures ChainWord(d, position) in ImageEvents(source, n, i) <==> ImageHasWord(source, n, i, d, position)
  {
    DynamicHasNoWord(n, i);
    TablesHaveNoWord(n, i, i.segments);
    hide DynamicEvents, SegmentTables, FixupEvents, FixupsHave, Read;
    if i.fixups.Some? {
      var f := i.fixups.value;
      FixupWordsExact(source, n, i, f.file.offset + Read(source, f.file.offset + 4, 4), f.segments, d, position);
    }
  }

  /** The n-th image of a collection: the collection itself, then its members. */
  function ImageAt(i: Inspection, n: nat): Image
    requires n <= |i.members|
  {
    if n == 0 then i.collection else i.members[n - 1]
  }

  ghost predicate HasWord(source: seq<byte>, i: Inspection, c: ChainContext, position: nat) {
    exists n: nat :: n <= |i.members| && ImageHasWord(source, n, ImageAt(i, n), c, position)
  }

  ghost predicate MembersHaveWord(source: seq<byte>, members: seq<Image>, k: nat, c: ChainContext, position: nat) {
    exists n: nat :: k <= n < |members| && MemberHasWord(source, members, n, c, position)
  }

  ghost predicate MemberHasWord(source: seq<byte>, members: seq<Image>, n: nat, c: ChainContext, position: nat)
    requires n < |members|
  {
    ImageHasWord(source, n + 1, members[n], c, position)
  }

  lemma {:induction false} MemberWordsExact(source: seq<byte>, members: seq<Image>, k: nat, d: ChainContext, position: nat)
    requires k <= |members|
    ensures ChainWord(d, position) in MemberEvents(source, members, k) <==> MembersHaveWord(source, members, k, d, position)
    decreases |members| - k
  {
    hide ImageEvents, ImageHasWord;
    if k < |members| {
      ImageWordsExact(source, k + 1, members[k], d, position);
      MemberWordsExact(source, members, k + 1, d, position);
      assert MemberHasWord(source, members, k, d, position) <==> ImageHasWord(source, k + 1, members[k], d, position);
    }
  }

  /**
   The words an audit meets are exactly the positions of the chains that start at a start of a page of a
   fixed-up segment of pointer format 11 of some image.
   */
  lemma WordsExact(source: seq<byte>, i: Inspection, d: ChainContext, position: nat)
    ensures ChainWord(d, position) in Events(source, i) <==> HasWord(source, i, d, position)
  {
    hide ImageEvents, ImageHasWord, MemberEvents;
    ImageWordsExact(source, 0, i.collection, d, position);
    MemberWordsExact(source, i.members, 0, d, position);
    if MembersHaveWord(source, i.members, 0, d, position) {
      var n: nat :| 0 <= n < |i.members| && MemberHasWord(source, i.members, n, d, position);
      assert ImageHasWord(source, n + 1, ImageAt(i, n + 1), d, position);
    }
    if HasWord(source, i, d, position) {
      var n: nat :| n <= |i.members| && ImageHasWord(source, n, ImageAt(i, n), d, position);
      assert n > 0 ==> MemberHasWord(source, i.members, n - 1, d, position);
    } else {
      assert !ImageHasWord(source, 0, ImageAt(i, 0), d, position);
    }
  }

  //////////////////////////////////////////////////////////////////////////////
  // Which tables there are
  //////////////////////////////////////////////////////////////////////////////

  predicate SectionIs(x: Section, c: ClassicContext) {
    c.sectionSize == Some(x.size) && c.records == x.relocations && c.base == Some(x.address)
  }

  ghost predicate SectionsHave(sections: seq<Section>, c: ClassicContext) {
    exists t :: 0 <= t < |sections| && SectionIs(sections[t], c)
  }

  ghost predicate SegmentsHave(segments: seq<Segment>, c: ClassicContext) {
    exists s :: 0 <= s < |segments| && SectionsHave(segments[s].sections, c)
  }

  /** A table of the image: the local or the external one, or that of a section. */
  ghost predicate ImageHasTable(n: nat, i: Image, c: ClassicContext) {
    && c.image == n && c.maps == MapsOf(i.segments)
    && match c.table
       case LocalDynamic => c.sectionSize.None? && i.relocations.Some? && c.records == i.relocations.value.local && IsBase(i, c.base)
       case ExternalDynamic => c.sectionSize.None? && i.relocations.Some? && c.records == i.relocations.value.external && IsBase(i, c.base)
       case SectionTable => SegmentsHave(i.segments, c)
  }

  ghost predicate HasTable(i: Inspection, c: ClassicContext) {
    exists n: nat :: n <= |i.members| && ImageHasTable(n, ImageAt(i, n), c)
  }

  lemma OneBase(i: Image, a: Option<nat>)
    requires IsBase(i, a)
    ensures a == ClassicBase(i)
  {
    BaseExact(i);
    hide ClassicBase, Writable;
    var b := ClassicBase(i);
    if i.fileType != 11 && a.Some? && b.Some? {
      var k :| 0 <= k < |i.segments| && Writable(i.segments[k]) && (forall j :: 0 <= j < k ==> !Writable(i.segments[j])) && a == Some(i.segments[k].address);
      var m :| 0 <= m < |i.segments| && Writable(i.segments[m]) && (forall j :: 0 <= j < m ==> !Writable(i.segments[j])) && b == Some(i.segments[m].address);
      assert k == m;
    }
  }

  lemma EntryIn(c: ClassicContext, d: ClassicContext, k: nat)
    ensures TableEntry(d, k) in TableEvents(c) <==> d == c && k < c.records.count
  {
    if d == c && k < c.records.count {
      assert TableEvents(c)[k] == TableEntry(d, k);
    }
  }

  lemma {:induction false} SectionEntriesExact(n: nat, i: Image, sections: seq<Section>, d: ClassicContext, k: nat)
    ensures TableEntry(d, k) in SectionEvents(n, i, sections) <==>
              d.image == n && d.maps == MapsOf(i.segments) && d.table == SectionTable && SectionsHave(sections, d) && k < d.records.count
    decreases |sections|
  {
    hide TableEvents, MapsOf;
    if sections != [] {
      EntryIn(TableOfSection(n, i, sections[0]), d, k);
      SectionEntriesExact(n, i, sections[1..], d, k);
      assert d == TableOfSection(n, i, sections[0]) <==> d.image == n && d.maps == MapsOf(i.segments) && d.table == SectionTable && SectionIs(sections[0], d);
      SectionsHaveCons(sections, d);
      hide SectionIs, SectionsHave;
    }
  }

  lemma SectionsHaveCons(sections: seq<Section>, c: ClassicContext)
    requires sections != []
    ensures SectionsHave(sections, c) <==> SectionIs(sections[0], c) || SectionsHave(sections[1..], c)
  {
    hide SectionIs;
    var rest := sections[1..];
    if t :| 0 <= t < |rest| && SectionIs(rest[t], c) {
      assert SectionIs(sections[t + 1], c);
    }
    if t :| 0 <= t < |sections| && SectionIs(sections[t], c) {
      assert t > 0 ==> SectionIs(rest[t - 1], c);
    }
  }

  lemma SegmentsHaveCons(segments: seq<Segment>, c: ClassicContext)
    requires segments != []
    ensures SegmentsHave(segments, c) <==> SectionsHave(segments[0].sections, c) || SegmentsHave(segments[1..], c)
  {
    hide SectionsHave;
    var rest := segments[1..];
    if t :| 0 <= t < |rest| && SectionsHave(rest[t].sections, c) {
      assert SectionsHave(segments[t + 1].sections, c);
    }
    if t :| 0 <= t < |segments| && SectionsHave(segments[t].sections, c) {
      assert t > 0 ==> SectionsHave(rest[t - 1].sections, c);
    }
  }

  lemma {:induction false} TableEntriesExact(n: nat, i: Image, segments: seq<Segment>, d: ClassicContext, k: nat)
    ensures TableEntry(d, k) in SegmentTables(n, i, segments) <==>
              d.image == n && d.maps == MapsOf(i.segments) && d.table == SectionTable && SegmentsHave(segments, d) && k < d.records.count
    decreases |segments|
  {
    hide SectionEvents, MapsOf, SectionsHave;
    if segments != [] {
      SectionEntriesExact(n, i, segments[0].sections, d, k);
      TableEntriesExact(n, i, segments[1..], d, k);
      SegmentsHaveCons(segments, d);
      hide SegmentsHave;
    }
  }

  lemma DynamicEntriesExact(n: nat, i: Image, d: ClassicContext, k: nat)
    ensures TableEntry(d, k) in DynamicEvents(n, i) <==> d.table != SectionTable && ImageHasTable(n, i, d) && k < d.records.count
  {
    hide TableEvents, MapsOf, ClassicBase, SegmentsHave, IsBase;
    BaseExact(i);
    if IsBase(i, d.base) {
      OneBase(i, d.base);
    }
    if i.relocations.Some? {
      EntryIn(LocalTable(n, i, i.relocations.value.local, ClassicBase(i)), d, k);
      EntryIn(ExternalTable(n, i, i.relocations.value.external, ClassicBase(i)), d, k);
    }
  }

  lemma {:induction false} ChainHasNoEntry(source: seq<byte>, c: ChainContext, position: nat)
    ensures NoEntry(ChainEvents(source, c, position))
    decreases if position < c.pageSize then c.pageSize - position else 0
  {
    hide Stride;
    if WordFits(c, position) && Stride(source, c, position) != 0 {
      ChainHasNoEntry(source, c, position + Stride(source, c, position));
    }
  }

  lemma {:induction false} StartsHaveNoEntry(source: seq<byte>, c: ChainContext, infoEnd: nat, at: nat)
    ensures NoEntry(StartEvents(source, c, infoEnd, at))
    decreases if at < infoEnd then infoEnd - at else 0
  {
    hide ChainEvents, Read;
    if at + 2 <= infoEnd {
      ChainHasNoEntry(source, c, Read(source, at, 2) % 0x8000);
      if Read(source, at, 2) < 0x8000 {
        StartsHaveNoEntry(source, c, infoEnd, at + 2);
      }
    }
  }

  lemma {:induction false} PagesHaveNoEntry(source: seq<byte>, n: nat, s: Segment, f: FixupSegment, info: nat, infoEnd: nat, page: nat)
    requires page <= f.pageCount
    ensures NoEntry(PagesEvents(source, n, s, f, info, infoEnd, page))
    decreases f.pageCount - page
  {
    hide PageEvents;
    if page < f.pageCount {
      PageHasNoEntry(source, PageContextOf(n, s, f, page), info, infoEnd);
      PagesHaveNoEntry(source, n, s, f, info, infoEnd, page + 1);
    }
  }

  lemma PageHasNoEntry(source: seq<byte>, c: ChainContext, info: nat, infoEnd: nat)
    ensures NoEntry(PageEvents(source, c, info, infoEnd))
  {
    hide ChainEvents, StartEvents, Read;
    var first := Read(source, info + 22 + 2 * c.page, 2);
    ChainHasNoEntry(source, c, first);
    StartsHaveNoEntry(source, c, infoEnd, info + 22 + 2 * (first % 0x8000));
  }

  lemma {:induction false} FixupsHaveNoEntry(source: seq<byte>, n: nat, i: Image, starts: nat, fixups: seq<FixupSegment>)
    ensures NoEntry(FixupEvents(source, n, i, starts, fixups))
    decreases |fixups|
  {
    hide PagesEvents, InfoOf, Read;
    if fixups != [] {
      var f := fixups[0];
      if f.segmentIndex < |i.segments| {
        var info := InfoOf(source, starts, f);
        PagesHaveNoEntry(source, n, i.segments[f.segmentIndex], f, info, info + Read(source, info, 4), 0);
      }
      FixupsHaveNoEntry(source, n, i, starts, fixups[1..]);
    }
  }

  lemma ImageFixupsHaveNoEntry(source: seq<byte>, n: nat, i: Image)
    ensures NoEntry(ImageFixupEvents(source, n, i))
  {
    hide FixupEvents, Read;
    if i.fixups.Some? {
      var f := i.fixups.value;
      FixupsHaveNoEntry(source, n, i, f.file.offset + Read(source, f.file.offset + 4, 4), f.segments);
    }
  }

  lemma ImageEntriesExact(source: seq<byte>, n: nat, i: Image, d: ClassicContext, k: nat)
    ensures TableEntry(d, k) in ImageEvents(source, n, i) <==> ImageHasTable(n, i, d) && k < d.records.count
  {
    DynamicEntriesExact(n, i, d, k);
    TableEntriesExact(n, i, i.segments, d, k);
    ImageFixupsHaveNoEntry(source, n, i);
    hide DynamicEvents, SegmentTables, ImageFixupEvents, MapsOf, SegmentsHave, IsBase;
  }

  ghost predicate MemberHasTable(members: seq<Image>, n: nat, c: ClassicContext)
    requires n < |members|
  {
    ImageHasTable(n + 1, members[n], c)
  }

  lemma {:induction false} MemberEntriesExact(source: seq<byte>, members: seq<Image>, m: nat, d: ClassicContext, k: nat)
    requires m <= |members|
    ensures TableEntry(d, k) in MemberEvents(source, members, m) <==> (exists n: nat :: m <= n < |members| && MemberHasTable(members, n, d)) && k < d.records.count
    decreases |members| - m
  {
    hide ImageEvents, ImageHasTable;
    if m < |members| {
      ImageEntriesExact(source, m + 1, members[m], d, k);
      MemberEntriesExact(source, members, m + 1, d, k);
      assert MemberHasTable(members, m, d) <==> ImageHasTable(m + 1, members[m], d);
    }
  }

  /** The entries an audit meets are exactly those of the tables of the images: one for every eight bytes of each. */
  lemma EntriesExact(source: seq<byte>, i: Inspection, d: ClassicContext, k: nat)
    ensures TableEntry(d, k) in Events(source, i) <==> HasTable(i, d) && k < d.records.count
  {
    hide ImageEvents, ImageHasTable, MemberEvents;
    ImageEntriesExact(source, 0, i.collection, d, k);
    MemberEntriesExact(source, i.members, 0, d, k);
    if n: nat :| 0 <= n < |i.members| && MemberHasTable(i.members, n, d) {
      assert ImageHasTable(n + 1, ImageAt(i, n + 1), d);
    }
    if HasTable(i, d) {
      var n: nat :| n <= |i.members| && ImageHasTable(n, ImageAt(i, n), d);
      assert n > 0 ==> MemberHasTable(i.members, n - 1, d);
    } else {
      assert !ImageHasTable(0, ImageAt(i, 0), d);
    }
  }

  //////////////////////////////////////////////////////////////////////////////
  // What a record says
  //////////////////////////////////////////////////////////////////////////////

  predicate ShowsBytes(s: Segment, address: nat, width: nat, file: nat) {
    s.memorySize != 0 && s.address <= address && address + width <= s.address + s.file.size && file == s.file.offset + (address - s.address)
  }

  /** A segment of the list has the bytes at the address in the file, at that offset. */
  ghost predicate FileBytesAt(segments: seq<Segment>, address: nat, width: nat, file: nat) {
    exists k :: 0 <= k < |segments| && ShowsBytes(segments[k], address, width, file)
  }

  predicate HoldsByte(s: Segment, address: nat) {
    s.memorySize != 0 && s.address <= address < s.address + s.memorySize
  }

  ghost predicate InMemory(segments: seq<Segment>, address: nat) {
    exists k :: 0 <= k < |segments| && HoldsByte(segments[k], address)
  }

  predicate MeetsSegment(s: Segment, from: nat, to: nat) {
    s.memorySize != 0 && s.address < to && from < s.address + s.memorySize
  }

  ghost predicate MeetsImage(i: Image, from: nat, to: nat) {
    exists j :: 0 <= j < |i.segments| && MeetsSegment(i.segments[j], from, to)
  }

  /** A member of the kind has memory in the range. */
  ghost predicate MeetsKind(members: seq<Image>, fileType: u32, from: nat, to: nat) {
    exists m :: 0 <= m < |members| && members[m].fileType == fileType && MeetsImage(members[m], from, to)
  }

  /** The kinds of member whose memory a write meets: executables are of file type 2, kexts of type 11. */
  ghost predicate OverlapIs(members: seq<Image>, address: Option<nat>, width: nat, overlap: MemberOverlap) {
    var ends := address.Some? && address.value + width < U64_LIMIT;
    var executable := ends && MeetsKind(members, 2, address.value, address.value + width);
    var kext := ends && MeetsKind(members, 11, address.value, address.value + width);
    match overlap
    case BothMembers => executable && kext
    case ExecutableMember => executable && !kext
    case KextMember => !executable && kext
    case OuterOnly => !executable && !kext
  }

  ghost predicate IsLowest(segments: seq<Segment>, base: nat) {
    && (exists k :: 0 <= k < |segments| && segments[k].address == base)
    && (forall k :: 0 <= k < |segments| ==> base <= segments[k].address)
  }

  /** The fields of the record of an entry: its two words, cut into bits. */
  ghost predicate EntryBits(source: seq<byte>, c: ClassicContext, k: nat, r: Record) {
    var low, info := Read(source, c.records.offset + 8 * k, 4), Read(source, c.records.offset + 8 * k + 4, 4);
    && r.image == c.image && r.sourceOffset == c.records.offset + 8 * k && r.detail.Classic? && r.detail.table == c.table
    && r.detail.displacement == (if low < 0x8000_0000 then low else low - 0x1_0000_0000)
    && r.detail.symbolOrdinal == info % 0x100_0000
    && (r.detail.pcRelative <==> (info / 0x100_0000) % 2 == 1)
    && r.detail.lengthExponent == (info / 0x200_0000) % 4
    && (r.detail.external <==> (info / 0x800_0000) % 2 == 1)
    && r.detail.relocationType == info / 0x1000_0000
    && r.width == Pow2(r.detail.lengthExponent)
  }

  /** The n-th image and the collection have the bytes at the address at the same place of the file. */
  ghost predicate AgreedAt(i: Inspection, n: nat, address: nat, width: nat, file: nat)
    requires n <= |i.members|
  {
    FileBytesAt(ImageAt(i, n).segments, address, width, file) && FileBytesAt(i.collection.segments, address, width, file)
  }

  /** Where the entry writes: the base plus the displacement, if that is an address, and its file bytes, if the image and the collection agree on them. */
  ghost predicate EntryPlace(source: seq<byte>, i: Inspection, c: ClassicContext, r: Record)
    requires r.detail.Classic? && c.image <= |i.members|
  {
    && (forall a: nat :: r.address == Some(a) <==> c.base.Some? && a == c.base.value + r.detail.displacement && a < U64_LIMIT)
    && (forall f: nat :: r.file == Some(f) <==> r.address.Some? && AgreedAt(i, c.image, r.address.value, r.width, f))
    && r.detail.stored == (if r.file.Some? then Some(Read(source, r.file.value, r.width)) else None)
    && OverlapIs(i.members, r.address, r.width, r.overlap)
  }

  /** The fields of the record of a word: its bits, and its place in memory and in the file. */
  ghost predicate WordBits(source: seq<byte>, c: ChainContext, position: nat, r: Record) {
    var word := WordAt(source, c, position);
    && r.image == c.image && r.detail.Chain11? && r.detail.segmentIndex == c.segmentIndex && r.detail.page == c.page && r.width == 8
    && r.sourceOffset == c.segment.file.offset + c.offset + position
    && r.file == Some(c.segment.file.offset + c.offset + position)
    && r.address == Some(c.segment.address + c.offset + position)
    && r.detail.target == word % 0x4000_0000
    && r.detail.cacheLevel == (word / 0x4000_0000) % 4
    && r.detail.diversity == (word / 0x1_0000_0000) % 0x1_0000
    && (r.detail.addressDiversity <==> (word / 0x1_0000_0000_0000) % 2 == 1)
    && r.detail.key == (word / 0x2_0000_0000_0000) % 4
    && r.detail.next == (word / 0x8_0000_0000_0000) % 0x1000
    && (r.detail.authenticated <==> word / 0x8000_0000_0000_0000 == 1)
  }

  /** Where the word points: the lowest address of the collection plus the target, if that is an address of cache level 0. */
  ghost predicate WordTarget(i: Inspection, base: nat, r: Record)
    requires r.detail.Chain11?
  {
    && r.detail.resolved == (if r.detail.cacheLevel == 0 && base != 0 && base + r.detail.target < U64_LIMIT then Some(base + r.detail.target) else None)
    && (r.detail.covered <==> r.detail.resolved.Some? && InMemory(i.collection.segments, r.detail.resolved.value))
    && OverlapIs(i.members, r.address, r.width, r.overlap)
  }

  /** A record is that of an entry of a table of the collection, or of a word of a chain of it. */
  ghost predicate Describes(source: seq<byte>, i: Inspection, base: nat, e: Event, r: Record) {
    match e
    case TableEntry(c, k) =>
      c.image <= |i.members| && HasTable(i, c) && k < c.records.count && EntryBits(source, c, k, r) && EntryPlace(source, i, c, r)
    case ChainWord(c, position) => HasWord(source, i, c, position) && WordBits(source, c, position, r) && WordTarget(i, base, r)
    case _ => false
  }

  //////////////////////////////////////////////////////////////////////////////
  // Every record says it
  //////////////////////////////////////////////////////////////////////////////

  lemma FileLocationExact(source: seq<byte>, segments: seq<Segment>, maps: seq<Mapping>, address: nat, width: nat, file: nat)
    requires Searched(segments, maps) && width > 0 && forall k :: 0 <= k < |segments| ==> SegmentOk(source, segments[k])
    ensures FileLocation(maps, address, width) == Some(file) <==> FileBytesAt(segments, address, width, file)
  {
    hide Searched, FileLocation;
    if FileLocation(maps, address, width).Some? {
      var k := FileLocationMeans(segments, maps, address, width);
      assert ShowsBytes(segments[k], address, width, FileLocation(maps, address, width).value);
    }
    if FileBytesAt(segments, address, width, file) {
      var k :| 0 <= k < |segments| && ShowsBytes(segments[k], address, width, file);
      assert SegmentOk(source, segments[k]);
      FileLocationFinds(segments, maps, k, address, width);
    }
  }

  lemma ContainingExact(source: seq<byte>, segments: seq<Segment>, maps: seq<Mapping>, address: nat)
    requires Searched(segments, maps) && forall k :: 0 <= k < |segments| ==> SegmentOk(source, segments[k])
    ensures Containing(maps, address, 1).Some? <==> InMemory(segments, address)
  {
    hide Searched, Containing;
    if Containing(maps, address, 1).Some? {
      var k := ContainingMeans(segments, maps, address, 1);
      assert HoldsByte(segments[k], address);
    }
    if InMemory(segments, address) {
      var k :| 0 <= k < |segments| && HoldsByte(segments[k], address);
      assert SegmentOk(source, segments[k]);
      ContainingFinds(segments, maps, k, address, 1);
    }
  }

  lemma {:induction false} SpansMeet(segments: seq<Segment>, q: Span)
    ensures AnyMeets(AddressSpans(segments), q) <==> exists j :: 0 <= j < |segments| && MeetsSegment(segments[j], q.start, q.end)
    decreases |segments|
  {
    if segments != [] {
      SpansMeet(segments[1..], q);
      var rest := segments[1..];
      MeetsCons(segments, q);
      if segments[0].memorySize != 0 {
        AnyMeetsCons(AddressSpan(segments[0]), AddressSpans(rest), q);
      }
      hide AnyMeets, MeetsSegment;
    } else {
      NoSpans(q);
    }
  }

  lemma NoSpans(q: Span)
    ensures !AnyMeets([], q)
  {
  }

  lemma MeetsCons(segments: seq<Segment>, q: Span)
    requires segments != []
    ensures (exists j :: 0 <= j < |segments| && MeetsSegment(segments[j], q.start, q.end)) <==>
              MeetsSegment(segments[0], q.start, q.end) || exists j :: 0 <= j < |segments[1..]| && MeetsSegment(segments[1..][j], q.start, q.end)
  {
    hide MeetsSegment;
    var rest := segments[1..];
    if j :| 0 <= j < |rest| && MeetsSegment(rest[j], q.start, q.end) {
      assert MeetsSegment(segments[j + 1], q.start, q.end);
    }
    if j :| 0 <= j < |segments| && MeetsSegment(segments[j], q.start, q.end) {
      assert j > 0 ==> MeetsSegment(rest[j - 1], q.start, q.end);
    }
  }

  lemma AnyMeetsCons(a: Span, rest: seq<Span>, q: Span)
    ensures AnyMeets([a] + rest, q) <==> Meet(a, q) || AnyMeets(rest, q)
  {
    var s := [a] + rest;
    if AnyMeets(rest, q) {
      var k :| 0 <= k < |rest| && Meet(rest[k], q);
      assert Meet(s[k + 1], q);
    }
    if AnyMeets(s, q) {
      var k :| 0 <= k < |s| && Meet(s[k], q);
      assert k > 0 ==> Meet(rest[k - 1], q);
    }
    assert s[0] == a;
  }

  lemma AnyMeetsJoin(a: seq<Span>, b: seq<Span>, q: Span)
    ensures AnyMeets(a + b, q) <==> AnyMeets(a, q) || AnyMeets(b, q)
  {
    hide Meet;
    var s := a + b;
    if AnyMeets(a, q) {
      var k :| 0 <= k < |a| && Meet(a[k], q);
      assert Meet(s[k], q);
    }
    if AnyMeets(b, q) {
      var k :| 0 <= k < |b| && Meet(b[k], q);
      assert Meet(s[|a| + k], q);
    }
    if AnyMeets(s, q) {
      var k :| 0 <= k < |s| && Meet(s[k], q);
      assert if k < |a| then Meet(a[k], q) else Meet(b[k - |a|], q);
    }
  }

  lemma KindCons(members: seq<Image>, fileType: u32, from: nat, to: nat)
    requires members != []
    ensures MeetsKind(members, fileType, from, to) <==>
              (members[0].fileType == fileType && MeetsImage(members[0], from, to)) || MeetsKind(members[1..], fileType, from, to)
  {
    hide MeetsImage;
    var rest := members[1..];
    if m :| 0 <= m < |rest| && rest[m].fileType == fileType && MeetsImage(rest[m], from, to) {
      assert members[m + 1].fileType == fileType && MeetsImage(members[m + 1], from, to);
    }
    if m :| 0 <= m < |members| && members[m].fileType == fileType && MeetsImage(members[m], from, to) {
      assert m > 0 ==> rest[m - 1].fileType == fileType && MeetsImage(rest[m - 1], from, to);
    }
  }

  lemma {:induction false} KindMeets(members: seq<Image>, fileType: u32, from: nat, to: nat)
    ensures AnyMeets(KindSpans(members, fileType), Span(from, to)) <==> MeetsKind(members, fileType, from, to)
    decreases |members|
  {
    if members != [] {
      KindMeets(members[1..], fileType, from, to);
      SpansMeet(members[0].segments, Span(from, to));
      KindCons(members, fileType, from, to);
      AnyMeetsJoin(AddressSpans(members[0].segments), KindSpans(members[1..], fileType), Span(from, to));
      AnyMeetsJoin([], KindSpans(members[1..], fileType), Span(from, to));
      NoSpans(Span(from, to));
      hide AnyMeets, MeetsKind, MeetsSegment;
    } else {
      NoSpans(Span(from, to));
    }
  }

  lemma OverlapExact(source: seq<byte>, limits: Limits, i: Inspection, address: Option<nat>, width: nat)
    requires Accepted(source, i) && EnvOf(source, limits, i).Ok? && width > 0
    ensures OverlapIs(i.members, address, width, OverlapOf(EnvOf(source, limits, i).value, address, width))
  {
    hide Accepted, EnvOf, MeetsKind, KindSpans, AnyMeets, Reaches;
    if address.Some? && Fits64(address.value + width) {
      MemberOverlapExact(source, limits, i, address.value, width);
      KindMeets(i.members, 2, address.value, address.value + width);
      KindMeets(i.members, 11, address.value, address.value + width);
    }
  }

  lemma WidthIs(length: nat)
    requires length < 4
    ensures WidthOf(length) == Pow2(length)
  {
    assert Pow2(0) == 1 && Pow2(1) == 2 && Pow2(2) == 4 && Pow2(3) == 8;
  }

  lemma EntryBitsExact(env: Env, outer: seq<Segment>, c: ClassicContext, k: nat)
    requires EnvOk(env, outer)
    ensures var r := EntryRecord(env, c, k);
            && EntryBits(env.source, c, k, r)
            && r.address == ClassicAddress(c.base, r.detail.displacement)
            && r.file == ClassicFile(env, c.maps, r.address, r.width)
            && r.overlap == OverlapOf(env, r.address, r.width) && RecordOk(env, r)
  {
    var at := c.records.offset + 8 * k;
    ReadBound(env.source, at, 4);
    ReadBound(env.source, at + 4, 4);
    var low, info := Read(env.source, at, 4), Read(env.source, at + 4, 4);
    ClassicRecordOk(env, outer, c, at, low, info);
    var length := (info / 0x200_0000) % 4;
    WidthIs(length);
    hide EnvOk, Read, ReadWord, OverlapOf, ClassicAddress, ClassicFile, Pow2;
  }

  lemma ImageParts(source: seq<byte>, i: Inspection, n: nat)
    requires Accepted(source, i) && n <= |i.members|
    ensures Auditable(source, i.collection.segments, ImageAt(i, n))
    ensures forall j :: 0 <= j < |ImageAt(i, n).segments| ==> SegmentOk(source, ImageAt(i, n).segments[j]) && Shared(i.collection.segments, ImageAt(i, n).segments[j])
    ensures Searched(ImageAt(i, n).segments, MapsOf(ImageAt(i, n).segments))
  {
    hide Accepted, SegmentOk, FixupsOk, RelocationsOk, Searchable, Searched, Mappings, Shared;
    OuterAuditable(source, i);
    if n > 0 {
      MemberAuditable(source, i, n - 1);
    }
    MappingsHold(source, ImageAt(i, n).segments);
  }

  lemma EntryPlaceExact(source: seq<byte>, limits: Limits, i: Inspection, c: ClassicContext, k: nat)
    requires Accepted(source, i) && EnvOf(source, limits, i).Ok? && c.image <= |i.members| && c.maps == MapsOf(ImageAt(i, c.image).segments)
    ensures var r := EntryRecord(EnvOf(source, limits, i).value, c, k);
            EntryBits(source, c, k, r) && EntryPlace(source, i, c, r)
  {
    hide *;
    EnvHolds(source, limits, i);
    var env, outer := EnvOf(source, limits, i).value, i.collection.segments;
    EntryBitsExact(env, outer, c, k);
    var r := EntryRecord(env, c, k);
    BitsWidth(source, c, k, r);
    OverlapExact(source, limits, i, r.address, r.width);
    ImageParts(source, i, c.image);
    ImageParts(source, i, 0);
    OuterImage(i);
    EnvMaps(env, outer);
    PlaceHolds(env, i, c, r);
  }

  lemma BitsWidth(source: seq<byte>, c: ClassicContext, k: nat, r: Record)
    requires EntryBits(source, c, k, r)
    ensures r.detail.Classic? && r.width > 0
  {
    hide Read;
  }

  lemma OuterImage(i: Inspection)
    ensures ImageAt(i, 0) == i.collection
  {
  }

  lemma EnvMaps(env: Env, outer: seq<Segment>)
    requires EnvOk(env, outer)
    ensures Searched(outer, env.outer) && |env.source| <= MAX_INPUT_SIZE
  {
    hide Searched;
  }

  lemma PlaceHolds(env: Env, i: Inspection, c: ClassicContext, r: Record)
    requires |env.source| <= MAX_INPUT_SIZE && c.image <= |i.members| && c.maps == MapsOf(ImageAt(i, c.image).segments) && r.detail.Classic? && r.width > 0
    requires forall j :: 0 <= j < |ImageAt(i, c.image).segments| ==> SegmentOk(env.source, ImageAt(i, c.image).segments[j])
    requires forall j :: 0 <= j < |i.collection.segments| ==> SegmentOk(env.source, i.collection.segments[j])
    requires Searched(ImageAt(i, c.image).segments, c.maps) && Searched(i.collection.segments, env.outer)
    requires r.address == ClassicAddress(c.base, r.detail.displacement) && r.file == ClassicFile(env, c.maps, r.address, r.width)
    requires RecordOk(env, r) && OverlapIs(i.members, r.address, r.width, r.overlap)
    ensures EntryPlace(env.source, i, c, r)
  {
    hide Searched, SegmentOk, OverlapIs, FileBytesAt, MapsOf, ImageAt;
    var mine, outer := ImageAt(i, c.image).segments, i.collection.segments;
    if r.address.Some? {
      forall f: nat ensures FileLocation(c.maps, r.address.value, r.width) == Some(f) <==> FileBytesAt(mine, r.address.value, r.width, f) {
        FileLocationExact(env.source, mine, c.maps, r.address.value, r.width, f);
      }
      forall f: nat ensures FileLocation(env.outer, r.address.value, r.width) == Some(f) <==> FileBytesAt(outer, r.address.value, r.width, f) {
        FileLocationExact(env.source, outer, env.outer, r.address.value, r.width, f);
      }
    }
    StoredIsRead(env, r);
    hide FileLocation, RecordOk, Read, OverlapOf;
  }

  lemma StoredIsRead(env: Env, r: Record)
    requires RecordOk(env, r) && r.detail.Classic? && |env.source| <= MAX_INPUT_SIZE
    ensures r.detail.stored == (if r.file.Some? then Some(Read(env.source, r.file.value, r.width)) else None)
  {
    hide FileLocation, OverlapOf, Le;
  }

  lemma LowestIs(source: seq<byte>, limits: Limits, i: Inspection, base: nat)
    requires Accepted(source, i) && EnvOf(source, limits, i).Ok? && IsLowest(i.collection.segments, base)
    ensures EnvOf(source, limits, i).value.primaryBase == base
  {
    hide *;
    EnvBase(source, limits, i);
    OuterAuditable(source, i);
    LowestExists(i.collection.segments);
    LowestUnique(i.collection.segments, base, EnvOf(source, limits, i).value.primaryBase);
  }

  lemma EnvBase(source: seq<byte>, limits: Limits, i: Inspection)
    requires EnvOf(source, limits, i).Ok?
    ensures LowestAddress(i.collection.segments) == Ok(EnvOf(source, limits, i).value.primaryBase)
  {
    hide LowestAddress, Mappings, MemberRanges;
  }

  lemma LowestUnique(segments: seq<Segment>, a: nat, b: nat)
    requires IsLowest(segments, a)
    requires (forall k :: 0 <= k < |segments| ==> b <= segments[k].address) && exists k :: 0 <= k < |segments| && b == segments[k].address
    ensures a == b
  {
  }

  lemma WordExact(source: seq<byte>, limits: Limits, i: Inspection, base: nat, c: ChainContext, position: nat)
    requires Accepted(source, i) && EnvOf(source, limits, i).Ok? && IsLowest(i.collection.segments, base)
    ensures var r := WordRecord(EnvOf(source, limits, i).value, c, position); WordBits(source, c, position, r) && WordTarget(i, base, r)
  {
    hide *;
    EnvHolds(source, limits, i);
    LowestIs(source, limits, i, base);
    var env, outer := EnvOf(source, limits, i).value, i.collection.segments;
    ImageParts(source, i, 0);
    OuterImage(i);
    EnvMaps(env, outer);
    WordBitsExact(env, c, position);
    OverlapExact(source, limits, i, Some(c.segment.address + c.offset + position), 8);
    TargetIs(env, c, position);
    WordTargetExact(env, i, base, WordRecord(env, c, position));
  }

  lemma WordBitsExact(env: Env, c: ChainContext, position: nat)
    ensures WordBits(env.source, c, position, WordRecord(env, c, position))
  {
    ReadBound(env.source, c.segment.file.offset + c.offset + position, 8);
    hide OverlapOf, Resolved, TargetCovered, Read;
  }

  /** The target of a word as the audit computes it. */
  predicate TargetFacts(env: Env, r: Record) {
    && r.detail.Chain11? && r.width == 8
    && r.detail.resolved == (if r.detail.cacheLevel == 0 && env.primaryBase != 0 && env.primaryBase + r.detail.target < U64_LIMIT
                             then Some(env.primaryBase + r.detail.target) else None)
    && (r.detail.covered <==> r.detail.resolved.Some? && Containing(env.outer, r.detail.resolved.value, 1).Some?)
  }

  lemma TargetIs(env: Env, c: ChainContext, position: nat)
    ensures TargetFacts(env, WordRecord(env, c, position))
    ensures var r := WordRecord(env, c, position);
            r.address == Some(c.segment.address + c.offset + position) && r.overlap == OverlapOf(env, r.address, 8)
  {
    ReadBound(env.source, c.segment.file.offset + c.offset + position, 8);
    hide OverlapOf, Read, Containing;
  }

  lemma WordTargetExact(env: Env, i: Inspection, base: nat, r: Record)
    requires Searched(i.collection.segments, env.outer) && env.primaryBase == base && TargetFacts(env, r)
    requires forall j :: 0 <= j < |i.collection.segments| ==> SegmentOk(env.source, i.collection.segments[j])
    requires OverlapIs(i.members, r.address, 8, r.overlap)
    ensures WordTarget(i, base, r)
  {
    hide Searched, SegmentOk, OverlapIs, Containing, InMemory;
    if r.detail.resolved.Some? {
      ContainingExact(env.source, i.collection.segments, env.outer, r.detail.resolved.value);
    }
  }

  //////////////////////////////////////////////////////////////////////////////
  // Which issues a record deserves
  //////////////////////////////////////////////////////////////////////////////

  predicate EntryWarrants(c: ClassicContext, r: Record, code: IssueCode) {
    && r.detail.Classic?
    && match code
       case UnsupportedClassicType => r.detail.relocationType != 0
       case UnsupportedClassicWidth => r.detail.lengthExponent < 2
       case UnsupportedPcRelative => r.detail.pcRelative
       case UnsupportedExternal => r.detail.external || c.table == ExternalDynamic
       case MissingClassicBase => c.base.None?
       case WriteAddressOverflow => c.base.Some? && r.address.None?
       case NegativeSectionDisplacement => c.table == SectionTable && r.detail.displacement < 0
       case WriteOutsideSection => c.sectionSize.Some? && (r.detail.displacement < 0 || r.detail.displacement + r.width > c.sectionSize.value)
       case WriteOutsideFileMapping => r.file.None?
       case _ => false
  }

  predicate WordWarrants(base: nat, r: Record, code: IssueCode) {
    && r.detail.Chain11?
    && match code
       case MissingCacheBase => r.detail.cacheLevel != 0 || base == 0
       case PointerTargetOverflow => r.detail.cacheLevel == 0 && base != 0 && r.detail.resolved.None?
       case PointerTargetOutsideMappings => r.detail.cacheLevel == 0 && base != 0 && r.detail.resolved.Some? && !r.detail.covered
       case UnsupportedAuthentication => r.detail.authenticated
       case _ => false
  }

  predicate Warrants(base: nat, e: Event, r: Record, code: IssueCode) {
    match e
    case TableEntry(c, k) => EntryWarrants(c, r, code)
    case ChainWord(c, position) => WordWarrants(base, r, code)
    case _ => false
  }

  lemma InWhen(condition: bool, code: IssueCode, x: IssueCode)
    ensures x in When(condition, code) <==> condition && x == code
  {
  }

  lemma KindCodesExact(c: ClassicContext, r: Record, x: IssueCode)
    requires r.detail.Classic?
    ensures x in KindCodes(c, r) <==>
              (r.detail.relocationType != 0 && x == UnsupportedClassicType) || (r.detail.lengthExponent < 2 && x == UnsupportedClassicWidth) ||
              (r.detail.pcRelative && x == UnsupportedPcRelative) || ((r.detail.external || c.table == ExternalDynamic) && x == UnsupportedExternal)
  {
    hide When;
    InWhen(r.detail.relocationType != 0, UnsupportedClassicType, x);
    InWhen(r.detail.lengthExponent < 2, UnsupportedClassicWidth, x);
    InWhen(r.detail.pcRelative, UnsupportedPcRelative, x);
    InWhen(r.detail.external || c.table == ExternalDynamic, UnsupportedExternal, x);
  }

  lemma PlaceCodesExact(c: ClassicContext, r: Record, x: IssueCode)
    requires r.detail.Classic?
    ensures var outside := c.sectionSize.Some? && (r.detail.displacement < 0 || r.detail.displacement + r.width > c.sectionSize.value);
            x in PlaceCodes(c, r) <==>
              (c.base.None? && x == MissingClassicBase) || (c.base.Some? && r.address.None? && x == WriteAddressOverflow) ||
              (c.table == SectionTable && r.detail.displacement < 0 && x == NegativeSectionDisplacement) ||
              (outside && x == WriteOutsideSection) || (r.file.None? && x == WriteOutsideFileMapping)
  {
    hide When;
    var outside := c.sectionSize.Some? && (r.detail.displacement < 0 || r.detail.displacement + r.width > c.sectionSize.value);
    InWhen(r.address.None?, WriteAddressOverflow, x);
    InWhen(c.table == SectionTable && r.detail.displacement < 0, NegativeSectionDisplacement, x);
    InWhen(outside, WriteOutsideSection, x);
    InWhen(r.file.None?, WriteOutsideFileMapping, x);
  }

  /** The codes of an entry are exactly the ones its record deserves. */
  lemma EntryCodesExact(c: ClassicContext, r: Record, x: IssueCode)
    requires r.detail.Classic?
    ensures x in ClassicCodes(c, r) <==> EntryWarrants(c, r, x)
  {
    hide KindCodes, PlaceCodes;
    KindCodesExact(c, r, x);
    PlaceCodesExact(c, r, x);
  }

  lemma WordCodesExact(env: Env, r: Record, x: IssueCode)
    requires r.detail.Chain11?
    ensures x in ChainCodes(env, r) <==> WordWarrants(env.primaryBase, r, x)
  {
    hide When;
    InWhen(!r.detail.covered, PointerTargetOutsideMappings, x);
    InWhen(r.detail.authenticated, UnsupportedAuthentication, x);
  }

  //////////////////////////////////////////////////////////////////////////////
  // A finished audit
  //////////////////////////////////////////////////////////////////////////////

  lemma HasTableParts(i: Inspection, c: ClassicContext)
    requires HasTable(i, c)
    ensures c.image <= |i.members| && c.maps == MapsOf(ImageAt(i, c.image).segments)
  {
    hide MapsOf, IsBase, SegmentsHave;
  }

  lemma PlaceDescribed(source: seq<byte>, limits: Limits, i: Inspection, base: nat, e: Event)
    requires Accepted(source, i) && EnvOf(source, limits, i).Ok? && IsLowest(i.collection.segments, base)
    requires e in Events(source, i) && IsPlace(e)
    ensures Describes(source, i, base, e, RecordOf(EnvOf(source, limits, i).value, e))
  {
    hide Accepted, EnvOf, IsLowest, Events, HasTable, HasWord, EntryBits, EntryPlace, WordBits, WordTarget, EntryRecord, WordRecord, ImageAt;
    match e
    case TableEntry(c, k) =>
      EntriesExact(source, i, c, k);
      HasTableParts(i, c);
      EntryPlaceExact(source, limits, i, c, k);
    case ChainWord(c, position) =>
      WordsExact(source, i, c, position);
      WordExact(source, limits, i, base, c, position);
  }

  lemma AuditRecords(source: seq<byte>, limits: Limits, i: Inspection)
    requires Accepted(source, i) && LimitsOk(limits) && Audit(source, limits, i).Ok?
    ensures EnvOf(source, limits, i).Ok?
    ensures Audit(source, limits, i).value.records == RecordsOf(EnvOf(source, limits, i).value, Places(Events(source, i)))
    ensures Audit(source, limits, i).value == WithConflicts(Walked(EnvOf(source, limits, i).value, i))
  {
    AuditRuns(source, limits, i);
    var env := EnvOf(source, limits, i).value;
    RunRecords(env, NO_RECORDS, Events(source, i));
    hide Accepted, EnvOf, Events, Run, Places, RecordsOf, Conflicts, LimitsOk, Audit;
  }

  /**
   A finished audit of an accepted collection has one record for every entry of every table and one for every
   word of every chain, in the order of the collection, and each holds what the source has at its place.
   */
  lemma RecordsExact(source: seq<byte>, limits: Limits, i: Inspection, base: nat, n: nat)
    requires Accepted(source, i) && LimitsOk(limits) && Audit(source, limits, i).Ok? && IsLowest(i.collection.segments, base)
    ensures var (records, places) := (Audit(source, limits, i).value.records, Places(Events(source, i)));
            |records| == |places| && (n < |places| ==> Describes(source, i, base, places[n], records[n]))
  {
    hide *;
    AuditRecords(source, limits, i);
    var places := Places(Events(source, i));
    if n < |places| {
      assert IsPlace(places[n]) && places[n] in Events(source, i);
      PlaceDescribed(source, limits, i, base, places[n]);
    }
  }

  /** The issues of a finished audit, apart from the conflicts: the remarks of the walk, and those its records deserve. */
  lemma IssuesExact(source: seq<byte>, limits: Limits, i: Inspection, base: nat, issue: Issue)
    requires Accepted(source, i) && LimitsOk(limits) && Audit(source, limits, i).Ok? && IsLowest(i.collection.segments, base)
    requires !ConflictCode(issue.code)
    ensures var (st, places) := (Audit(source, limits, i).value, Places(Events(source, i)));
            && |st.records| == |places|
            && (issue in st.issues <==>
                  issue.related.None? &&
                  if issue.record.None? then Remark(issue.image, issue.code) in Events(source, i)
                  else issue.record.value < |places| && issue.image == st.records[issue.record.value].image &&
                       Warrants(base, places[issue.record.value], st.records[issue.record.value], issue.code))
  {
    hide *;
    AuditRecords(source, limits, i);
    var env := EnvOf(source, limits, i).value;
    var es := Events(source, i);
    var places, st := Places(es), Walked(env, i);
    EnvHolds(source, limits, i);
    LowestIs(source, limits, i, base);
    WalkedIs(env, i);
    RunIssues(env, NO_RECORDS, es, issue);
    NothingBefore(issue);
    NotAConflict(st, issue);
    RaisedMeans(env, es, issue);
    if issue.record.Some? && issue.record.value < |places| {
      var e := places[issue.record.value];
      assert IsPlace(e) && e in es;
      PlaceDescribed(source, limits, i, base, e);
      CodesMean(source, i, base, env, e, issue.code);
    }
  }

  lemma WalkedIs(env: Env, i: Inspection)
    ensures Walked(env, i) == Run(env, NO_RECORDS, Events(env.source, i))
  {
    hide Run, Events;
  }

  lemma NothingBefore(issue: Issue)
    ensures issue !in NO_RECORDS.issues && |NO_RECORDS.records| == 0
  {
  }

  lemma NotAConflict(st: State, issue: Issue)
    requires !ConflictCode(issue.code)
    ensures issue in WithConflicts(st).issues <==> issue in st.issues
  {
    hide Conflicts;
    var list := ConflictList(st.records, Conflicts(st));
    forall k | 0 <= k < |list| ensures list[k] != issue {
      assert list[k] == ConflictIssue(st.records, Conflicts(st)[k]);
    }
  }

  lemma RaisedMeans(env: Env, es: seq<Event>, issue: Issue)
    ensures Raised(env, 0, es, issue) <==>
              issue.related.None? &&
              if issue.record.None? then Remark(issue.image, issue.code) in es
              else issue.record.value < |Places(es)| && issue.image == RecordOf(env, Places(es)[issue.record.value]).image &&
                   issue.code in CodesOf(env, Places(es)[issue.record.value])
  {
    hide RecordOf, CodesOf;
  }

  lemma CodesMean(source: seq<byte>, i: Inspection, base: nat, env: Env, e: Event, code: IssueCode)
    requires IsPlace(e) && Describes(source, i, base, e, RecordOf(env, e)) && env.primaryBase == base
    ensures code in CodesOf(env, e) <==> Warrants(base, e, RecordOf(env, e), code)
  {
    hide HasTable, HasWord, EntryPlace, WordTarget, EntryRecord, WordRecord, ClassicCodes, ChainCodes, EntryWarrants, WordWarrants, Read;
    var r := RecordOf(env, e);
    match e
    case TableEntry(c, k) => EntryCodesExact(c, r, code);
    case ChainWord(c, position) => WordCodesExact(env, r, code);
  }

  //////////////////////////////////////////////////////////////////////////////
  // The counters
  //////////////////////////////////////////////////////////////////////////////

  function Tally(st: State, e: Event): nat {
    match e
    case PageVisited => st.pageStarts
    case ChainStarted => st.chainStarts
    case ChainEnded => st.chainsTerminated
    case PageWithMany => st.multiStartPages
    case _ => 0
  }

  predicate Counted(e: Event) {
    e.PageVisited? || e.ChainStarted? || e.ChainEnded? || e.PageWithMany?
  }

  lemma {:induction false} RunCounts(env: Env, st: State, es: seq<Event>, e: Event)
    requires Counted(e)
    ensures Tally(Run(env, st, es), e) == Tally(st, e) + multiset(es)[e]
    decreases |es|
  {
    if es != [] {
      AfterCounts(env, st, es[0], e);
      RunUnfold(env, st, es);
      hide After, Run, Tally;
      RunCounts(env, After(env, st, es[0]), es[1..], e);
      assert es == [es[0]] + es[1..];
    }
  }

  lemma AfterCounts(env: Env, st: State, x: Event, e: Event)
    requires Counted(e)
    ensures Tally(After(env, st, x), e) == Tally(st, e) + (if x == e then 1 else 0)
  {
    hide EntryRecord, WordRecord, ClassicCodes, ChainCodes;
  }

  /** The counters of a finished audit count its page starts, chains, finished chains and pages with several chains. */
  lemma CountersExact(source: seq<byte>, limits: Limits, i: Inspection, e: Event)
    requires Accepted(source, i) && LimitsOk(limits) && Audit(source, limits, i).Ok? && Counted(e)
    ensures Tally(Audit(source, limits, i).value, e) == multiset(Events(source, i))[e]
  {
    AuditRecords(source, limits, i);
    var env := EnvOf(source, limits, i).value;
    AuditRuns(source, limits, i);
    RunCounts(env, NO_RECORDS, Events(source, i), e);
    hide Accepted, EnvOf, Events, Run, Places, RecordsOf, Conflicts, LimitsOk, Audit;
  }

  //////////////////////////////////////////////////////////////////////////////
  // What one table and one chain leave behind
  //////////////////////////////////////////////////////////////////////////////

  /** Everything an audit is said to record of a collection. */
  ghost predicate RecordsAre(source: seq<byte>, i: Inspection, records: seq<Record>) {
    && |records| == |Places(Events(source, i))|
    && forall base: nat, n: nat :: IsLowest(i.collection.segments, base) && n < |records| ==> Describes(source, i, base, Places(Events(source, i))[n], records[n])
  }

  lemma AllRecordsExact(source: seq<byte>, limits: Limits, i: Inspection)
    requires Accepted(source, i) && LimitsOk(limits) && Audit(source, limits, i).Ok?
    ensures RecordsAre(source, i, Audit(source, limits, i).value.records)
  {
    hide Accepted, LimitsOk, Audit, IsLowest, Places, Events, Describes;
    AuditRecords(source, limits, i);
    forall base: nat, n: nat | IsLowest(i.collection.segments, base) && n < |Audit(source, limits, i).value.records|
      ensures |Audit(source, limits, i).value.records| == |Places(Events(source, i))|
      ensures Describes(source, i, base, Places(Events(source, i))[n], Audit(source, limits, i).value.records[n])
    {
      RecordsExact(source, limits, i, base, n);
    }
  }

  ghost predicate Searches(env: Env) {
    exists outer :: EnvOk(env, outer)
  }

  ghost predicate Placed(env: Env, c: ChainContext) {
    exists outer :: PlaceOk(env, outer, c)
  }

  /** The words of the chain from a start, recorded in order after what was there. */
  ghost predicate ChainLeft(env: Env, before: seq<Record>, after: seq<Record>, c: ChainContext, start: nat) {
    exists ps: seq<nat> :: IsChain(env.source, c, start, ps) && WordsLeft(env, before, after, c, ps)
  }

  ghost predicate WordsLeft(env: Env, before: seq<Record>, after: seq<Record>, c: ChainContext, ps: seq<nat>) {
    && |after| == |before| + |ps| && after[..|before|] == before
    && forall n :: 0 <= n < |ps| ==> WordBits(env.source, c, ps[n], after[|before| + n])
  }

  /** The entries of a table, recorded in order after what was there. */
  ghost predicate TableLeft(env: Env, before: seq<Record>, after: seq<Record>, c: ClassicContext) {
    && |after| == |before| + c.records.count && after[..|before|] == before
    && forall k: nat :: k < c.records.count ==> EntryLeft(env, |before|, after, c, k)
  }

  ghost predicate EntryLeft(env: Env, first: nat, after: seq<Record>, c: ClassicContext, k: nat) {
    first + k < |after| && EntryBits(env.source, c, k, after[first + k])
  }

  lemma {:induction false} PlacesJoin(a: seq<Event>, b: seq<Event>)
    ensures Places(a + b) == Places(a) + Places(b)
    decreases |a|
  {
    if a == [] {
      assert a + b == b;
    } else {
      assert (a + b)[0] == a[0] && (a + b)[1..] == a[1..] + b;
      PlacesJoin(a[1..], b);
    }
  }

  lemma {:induction false} AllPlaces(es: seq<Event>)
    requires forall n :: 0 <= n < |es| ==> IsPlace(es[n])
    ensures Places(es) == es
    decreases |es|
  {
    if es != [] {
      AllPlaces(es[1..]);
    }
  }

  lemma NoPlace(e: Event)
    requires !IsPlace(e)
    ensures Places([e]) == []
  {
    PlacesStep([e]);
    assert [e][1..] == [];
  }

  /** A chain that is walked to its end leaves exactly its words. */
  lemma ChainRecords(env: Env, st: State, c: ChainContext, start: nat)
    requires Placed(env, c) && Within(env, st) && start <= 0x1_0000 && StartChain(env, st, c, start).Ok?
    ensures ChainLeft(env, st.records, StartChain(env, st, c, start).value.records, c, start)
  {
    var outer :| PlaceOk(env, outer, c);
    hide *;
    StartFollows(env, outer, st, c, start);
    var es := [ChainStarted] + ChainEvents(env.source, c, start);
    FollowsRun(env, st, StartChain(env, st, c, start), es);
    RunRecords(env, st, es);
    var ps := ChainShape(env.source, c, start);
    EndIsNoWord(env.source, c, start, ps);
    PlacesJoin([ChainStarted], ChainEvents(env.source, c, start));
    PlacesJoin(WordEvents(c, ps), [EndOf(env.source, c, start, ps)]);
    NoPlace(EndOf(env.source, c, start, ps));
    NoPlaceAtStart();
    WordsArePlaces(c, ps);
    AllPlaces(WordEvents(c, ps));
    assert Places(es) == WordEvents(c, ps);
    WordsRecorded(env, st.records, c, ps);
    ChainLeftBy(env, st.records, StartChain(env, st, c, start).value.records, c, start, ps);
  }

  lemma FollowsRun(env: Env, st: State, r: Result<State, AuditError>, es: seq<Event>)
    requires Follows(env, st, r, es) && r.Ok?
    ensures r.value == Run(env, st, es)
  {
    hide Run;
  }

  lemma NoPlaceAtStart()
    ensures Places([ChainStarted]) == []
  {
    NoPlace(ChainStarted);
  }

  lemma WordsArePlaces(c: ChainContext, ps: seq<nat>)
    ensures forall n :: 0 <= n < |WordEvents(c, ps)| ==> IsPlace(WordEvents(c, ps)[n])
  {
  }

  lemma ChainLeftBy(env: Env, before: seq<Record>, after: seq<Record>, c: ChainContext, start: nat, ps: seq<nat>)
    requires IsChain(env.source, c, start, ps) && WordsLeft(env, before, after, c, ps)
    ensures ChainLeft(env, before, after, c, start)
  {
    hide IsChain, WordsLeft;
  }

  lemma WordsRecorded(env: Env, before: seq<Record>, c: ChainContext, ps: seq<nat>)
    requires forall n :: 0 <= n < |WordEvents(c, ps)| ==> IsPlace(WordEvents(c, ps)[n])
    ensures WordsLeft(env, before, before + RecordsOf(env, WordEvents(c, ps)), c, ps)
  {
    hide WordBits, WordRecord, EntryRecord;
    forall n | 0 <= n < |ps| ensures WordBits(env.source, c, ps[n], (before + RecordsOf(env, WordEvents(c, ps)))[|before| + n]) {
      WordBitsExact(env, c, ps[n]);
      assert WordEvents(c, ps)[n] == ChainWord(c, ps[n]);
    }
  }

  /** A table that is read to its end leaves exactly its entries. */
  lemma TableRecords(env: Env, st: State, c: ClassicContext)
    requires Searches(env) && Within(env, st) && c.records.Range().End() <= |env.source| && ClassicFrom(env, st, c, 0).Ok?
    ensures TableLeft(env, st.records, ClassicFrom(env, st, c, 0).value.records, c)
  {
    var outer :| EnvOk(env, outer);
    hide *;
    TableFollows(env, outer, st, c);
    FollowsRun(env, st, ClassicFrom(env, st, c, 0), TableEvents(c));
    RunRecords(env, st, TableEvents(c));
    EntriesArePlaces(c);
    AllPlaces(TableEvents(c));
    EntriesRecorded(env, outer, st.records, c);
  }

  lemma EntriesArePlaces(c: ClassicContext)
    ensures forall n :: 0 <= n < |TableEvents(c)| ==> IsPlace(TableEvents(c)[n])
  {
  }

  lemma EntriesRecorded(env: Env, outer: seq<Segment>, before: seq<Record>, c: ClassicContext)
    requires EnvOk(env, outer) && forall n :: 0 <= n < |TableEvents(c)| ==> IsPlace(TableEvents(c)[n])
    ensures TableLeft(env, before, before + RecordsOf(env, TableEvents(c)), c)
  {
    hide EnvOk, EntryBits, WordRecord, EntryRecord, RecordOk;
    var after := before + RecordsOf(env, TableEvents(c));
    forall k: nat | k < c.records.count ensures EntryLeft(env, |before|, after, c, k) {
      EntryBitsExact(env, outer, c, k);
      assert TableEvents(c)[k] == TableEntry(c, k);
    }
  }
}
