/**
 On a collection the inspector accepted, the audit can stop only at a limit: every read is inside the
 source, no sum wraps, every list of page starts ends inside its table, every chain ends, and every
 chain start yields a record.
 */
module AuditSafety {
  import opened Wrappers
  import opened Words
  import opened Sorting
  import opened Spans
  import opened C = Collection
  import opened FixupAudit
  import O = OverlapSweep

  //////////////////////////////////////////////////////////////////////////////
  // What a state of the audit promises
  //////////////////////////////////////////////////////////////////////////////

  /** The environment of an audit over the segments of an accepted collection. */
  ghost predicate EnvOk(env: Env, outer: seq<Segment>) {
    |env.source| <= MAX_INPUT_SIZE && Searchable(env.source, outer) && Searched(outer, env.outer)
  }

  /** A record names bytes the collection maps, and quotes what is stored there. */
  predicate RecordOk(env: Env, r: Record) {
    && 1 <= r.width <= 8 && r.overlap == OverlapOf(env, r.address, r.width)
    && (r.file.Some? ==>
          && r.address.Some? && Fits64(r.address.value + r.width)
          && FileLocation(env.outer, r.address.value, r.width) == r.file && r.file.value + r.width <= |env.source|)
    && match r.detail
       case Classic(_, _, _, _, length, _, _, stored) =>
         r.width == WidthOf(length) && stored == if r.file.Some? then Some(Word(env.source, r.file.value, r.width)) else None
       case Chain11(_, _, _, _, _, _, _, _, _, _, _) => r.width == 8 && r.file.Some?
  }

  /** What a classic record must be to raise no issue of its own. */
  predicate RecordClean(r: Record) {
    r.detail.Classic? ==>
      && r.detail.relocationType == 0 && r.detail.lengthExponent >= 2 && !r.detail.pcRelative && !r.detail.external
      && r.detail.table != ExternalDynamic && r.file.Some?
  }

  predicate ConflictCode(code: IssueCode) {
    code == DuplicateChainVisit || code == SameMechanismWriteOverlap || code == CrossMechanismWriteOverlap
  }

  function ChainCount(records: seq<Record>): nat {
    if records == [] then 0 else ChainCount(records[..|records| - 1]) + (if records[|records| - 1].detail.Chain11? then 1 else 0)
  }

  ghost predicate StateOk(env: Env, st: State) {
    && (forall i :: 0 <= i < |st.records| ==> RecordOk(env, st.records[i]))
    && (st.issues == [] ==> forall i :: 0 <= i < |st.records| ==> RecordClean(st.records[i]))
    && (forall i :: 0 <= i < |st.issues| ==> !ConflictCode(st.issues[i].code))
    && st.chainRecords == ChainCount(st.records) && st.classicRecords + st.chainRecords == |st.records|
  }

  /** Every chain that was started has left a record, and ends at most once. */
  predicate Balanced(st: State) {
    st.chainsTerminated <= st.chainStarts <= st.chainRecords
  }

  ghost predicate Safe(env: Env, r: Result<State, AuditError>) {
    match r
    case Ok(st) => StateOk(env, st) && Balanced(st)
    case Err(e) => e == AuditLimit
  }

  predicate SameChains(st: State, next: State) {
    next.chainStarts == st.chainStarts && next.chainRecords == st.chainRecords && next.chainsTerminated == st.chainsTerminated
  }

  //////////////////////////////////////////////////////////////////////////////
  // Issues and records
  //////////////////////////////////////////////////////////////////////////////

  function IssueList(image: nat, record: Option<nat>, codes: seq<IssueCode>): (r: seq<Issue>)
    ensures |r| == |codes| && forall i :: 0 <= i < |r| ==> r[i] == Issue(codes[i], image, record, None)
  {
    seq(|codes|, i requires 0 <= i < |codes| => Issue(codes[i], image, record, None))
  }

  lemma IssueListCons(issues: seq<Issue>, image: nat, record: Option<nat>, codes: seq<IssueCode>)
    requires codes != []
    ensures issues + [Issue(codes[0], image, record, None)] + IssueList(image, record, codes[1..]) == issues + IssueList(image, record, codes)
  {
    assert [Issue(codes[0], image, record, None)] + IssueList(image, record, codes[1..]) == IssueList(image, record, codes);
  }

  lemma {:induction false} AddIssuesExact(env: Env, st: State, image: nat, record: Option<nat>, codes: seq<IssueCode>)
    ensures match AddIssues(env, st, image, record, codes)
            case Ok(next) => next == st.(issues := st.issues + IssueList(image, record, codes))
            case Err(e) => e == AuditLimit
    decreases |codes|
  {
    hide IssueList;
    if codes != [] {
      var next := AddIssue(env, st, Issue(codes[0], image, record, None));
      if next.Ok? {
        AddIssuesExact(env, next.value, image, record, codes[1..]);
        IssueListCons(st.issues, image, record, codes);
      }
    } else {
      NoIssues(st.issues, image, record);
    }
  }

  lemma NoIssues(issues: seq<Issue>, image: nat, record: Option<nat>)
    ensures issues + IssueList(image, record, []) == issues
  {
  }

  lemma OneIssueSafe(env: Env, st: State, issue: Issue)
    requires StateOk(env, st) && Balanced(st) && !ConflictCode(issue.code)
    ensures Safe(env, AddIssue(env, st, issue))
    ensures AddIssue(env, st, issue).Ok? ==> SameChains(st, AddIssue(env, st, issue).value) && AddIssue(env, st, issue).value.records == st.records
  {
    hide RecordOk, RecordClean, ChainCount;
  }

  /** A record and the issues it raises. */
  lemma RecordAdded(env: Env, st: State, r: Record, codes: seq<IssueCode>, next: State)
    requires StateOk(env, st) && RecordOk(env, r) && (codes == [] ==> RecordClean(r))
    requires Plain(codes)
    requires next.records == st.records + [r] && next.issues == st.issues + IssueList(r.image, Some(|st.records|), codes)
    requires next.chainRecords == st.chainRecords + (if r.detail.Chain11? then 1 else 0)
    requires next.classicRecords == st.classicRecords + (if r.detail.Chain11? then 0 else 1)
    ensures StateOk(env, next)
  {
    hide RecordOk, RecordClean, ConflictCode;
    assert next.records[..|st.records|] == st.records;
  }

  //////////////////////////////////////////////////////////////////////////////
  // Classic relocations
  //////////////////////////////////////////////////////////////////////////////

  /** A file location found in the collection is inside the source. */
  lemma LocationInside(env: Env, outer: seq<Segment>, address: nat, width: nat)
    requires EnvOk(env, outer) && FileLocation(env.outer, address, width).Some?
    ensures FileLocation(env.outer, address, width).value + width <= |env.source| && Fits64(address + width)
  {
    hide Searched, FileLocation, Pairwise;
    var k := FileLocationMeans(outer, env.outer, address, width);
    assert SegmentOk(env.source, outer[k]);
  }

  lemma ClassicRecordOk(env: Env, outer: seq<Segment>, c: ClassicContext, at: nat, low: u32, info: u32)
    requires EnvOk(env, outer)
    ensures ClassicRecord(env, c, at, low, info).Ok?
    ensures var r := ClassicRecord(env, c, at, low, info).value;
            RecordOk(env, r) && r.detail.Classic? && r.image == c.image && r.detail.table == c.table
  {
    hide EnvOk, FileLocation, OverlapOf, Word;
    var width := WidthOf((info / 0x200_0000) % 4);
    var address := ClassicAddress(c.base, Signed32(low));
    if ClassicFile(env, c.maps, address, width).Some? {
      LocationInside(env, outer, address.value, width);
      Small(env, outer);
    }
  }

  lemma Small(env: Env, outer: seq<Segment>)
    requires EnvOk(env, outer)
    ensures |env.source| <= MAX_INPUT_SIZE
  {
  }

  /** A list of codes none of which reports a conflict. */
  ghost predicate Plain(codes: seq<IssueCode>) {
    forall i :: 0 <= i < |codes| ==> !ConflictCode(codes[i])
  }

  lemma PlainSum(a: seq<IssueCode>, b: seq<IssueCode>)
    requires Plain(a) && Plain(b)
    ensures Plain(a + b) && (a + b == [] ==> a == [] && b == [])
  {
    hide ConflictCode;
    assert |a + b| == |a| + |b|;
  }

  lemma PlainWhen(condition: bool, code: IssueCode)
    requires !ConflictCode(code)
    ensures Plain(When(condition, code)) && (When(condition, code) == [] ==> !condition)
  {
  }

  lemma FourParts(a: seq<IssueCode>, b: seq<IssueCode>, c: seq<IssueCode>, d: seq<IssueCode>)
    requires Plain(a) && Plain(b) && Plain(c) && Plain(d)
    ensures Plain(a + b + c + d)
    ensures a + b + c + d == [] ==> a == [] && b == [] && c == [] && d == []
  {
    hide Plain;
    PlainSum(a, b);
    PlainSum(a + b, c);
    PlainSum(a + b + c, d);
  }

  lemma KindClean(c: ClassicContext, r: Record)
    requires r.detail.Classic?
    ensures Plain(KindCodes(c, r))
    ensures KindCodes(c, r) == [] ==>
              r.detail.relocationType == 0 && r.detail.lengthExponent >= 2 && !r.detail.pcRelative && !r.detail.external && c.table != ExternalDynamic
  {
    hide Plain, When;
    PlainWhen(r.detail.relocationType != 0, UnsupportedClassicType);
    PlainWhen(r.detail.lengthExponent < 2, UnsupportedClassicWidth);
    PlainWhen(r.detail.pcRelative, UnsupportedPcRelative);
    PlainWhen(r.detail.external || c.table == ExternalDynamic, UnsupportedExternal);
    FourParts(When(r.detail.relocationType != 0, UnsupportedClassicType), When(r.detail.lengthExponent < 2, UnsupportedClassicWidth),
              When(r.detail.pcRelative, UnsupportedPcRelative), When(r.detail.external || c.table == ExternalDynamic, UnsupportedExternal));
  }

  lemma PlaceClean(c: ClassicContext, r: Record)
    requires r.detail.Classic?
    ensures Plain(PlaceCodes(c, r)) && (PlaceCodes(c, r) == [] ==> r.file.Some?)
  {
    hide Plain, When;
    var base := if c.base.None? then [MissingClassicBase] else When(r.address.None?, WriteAddressOverflow);
    var outside := c.sectionSize.Some? && (r.detail.displacement < 0 || r.detail.displacement + r.width > c.sectionSize.value);
    WhenTrue(MissingClassicBase);
    PlainWhen(true, MissingClassicBase);
    PlainWhen(r.address.None?, WriteAddressOverflow);
    PlainWhen(c.table == SectionTable && r.detail.displacement < 0, NegativeSectionDisplacement);
    PlainWhen(outside, WriteOutsideSection);
    PlainWhen(r.file.None?, WriteOutsideFileMapping);
    FourParts(base, When(c.table == SectionTable && r.detail.displacement < 0, NegativeSectionDisplacement), When(outside, WriteOutsideSection),
              When(r.file.None?, WriteOutsideFileMapping));
  }

  lemma CleanCodes(c: ClassicContext, r: Record)
    requires r.detail.Classic? && r.detail.table == c.table
    ensures Plain(ClassicCodes(c, r)) && (ClassicCodes(c, r) == [] ==> RecordClean(r))
  {
    hide Plain, KindCodes, PlaceCodes;
    KindClean(c, r);
    PlaceClean(c, r);
    PlainSum(KindCodes(c, r), PlaceCodes(c, r));
  }

  lemma WhenTrue(code: IssueCode)
    ensures When(true, code) == [code]
  {
  }

  lemma ClassicStepSafe(env: Env, outer: seq<Segment>, st: State, c: ClassicContext, k: nat)
    requires EnvOk(env, outer) && StateOk(env, st) && Balanced(st)
    requires k < c.records.count && c.records.Range().End() <= |env.source|
    ensures Safe(env, ClassicStep(env, st, c, k))
  {
    hide EnvOk, StateOk, RecordOk, RecordClean, ClassicRecord, ClassicCodes, Word, AddIssues, Plain, IssueList;
    Small(env, outer);
    var at := c.records.offset + 8 * k;
    WordBounds(env.source, at);
    var low, info := Word(env.source, at, 4), Word(env.source, at + 4, 4);
    ClassicRecordOk(env, outer, c, at, low, info);
    var r := ClassicRecord(env, c, at, low, info).value;
    CleanCodes(c, r);
    var added := AddRecord(env, st, r);
    if added.Ok? {
      var counted := added.value.(classicRecords := st.classicRecords + 1);
      AddIssuesExact(env, counted, c.image, Some(|st.records|), ClassicCodes(c, r));
      var next := ClassicStep(env, st, c, k);
      if next.Ok? {
        RecordAdded(env, st, r, ClassicCodes(c, r), next.value);
      }
    }
  }

  lemma {:induction false} ClassicSafe(env: Env, outer: seq<Segment>, st: State, c: ClassicContext, k: nat)
    requires EnvOk(env, outer) && StateOk(env, st) && Balanced(st)
    requires k <= c.records.count && c.records.Range().End() <= |env.source|
    ensures Safe(env, ClassicFrom(env, st, c, k))
    decreases c.records.count - k
  {
    hide EnvOk, StateOk, ClassicStep;
    if k < c.records.count {
      ClassicStepSafe(env, outer, st, c, k);
      var next := ClassicStep(env, st, c, k);
      if next.Ok? {
        ClassicSafe(env, outer, next.value, c, k + 1);
      }
    }
  }

  //////////////////////////////////////////////////////////////////////////////
  // Chains
  //////////////////////////////////////////////////////////////////////////////

  lemma ChainClean(env: Env, r: Record)
    requires r.detail.Chain11?
    ensures Plain(ChainCodes(env, r)) && RecordClean(r)
  {
    hide Plain, When;
    WhenTrue(MissingCacheBase);
    WhenTrue(PointerTargetOverflow);
    PlainWhen(true, MissingCacheBase);
    PlainWhen(true, PointerTargetOverflow);
    PlainWhen(!r.detail.covered, PointerTargetOutsideMappings);
    PlainWhen(r.detail.authenticated, UnsupportedAuthentication);
    var head := if r.detail.cacheLevel != 0 || env.primaryBase == 0 then [MissingCacheBase]
                else if r.detail.resolved.None? then [PointerTargetOverflow]
                else When(!r.detail.covered, PointerTargetOutsideMappings);
    PlainSum(head, When(r.detail.authenticated, UnsupportedAuthentication));
  }

  /** A page of a segment whose sums cannot wrap. */
  ghost predicate ChainOk(env: Env, c: ChainContext) {
    SegmentOk(env.source, c.segment) && c.pageSize <= 16384 && c.offset <= 0x4000_0000
  }

  /** The counters after one word of a chain. */
  ghost predicate Stepped(st: State, next: State, terminated: nat) {
    && st.chainRecords <= next.chainRecords && next.chainStarts == st.chainStarts
    && next.chainsTerminated == st.chainsTerminated + terminated
  }

  ghost predicate VisitSafe(env: Env, st: State, r: Result<Visit, AuditError>) {
    match r
    case Ok(Stop(next)) => StateOk(env, next) && (Stepped(st, next, 0) || Stepped(st, next, 1))
    case Ok(Continue(next, inPage)) => StateOk(env, next) && Stepped(st, next, 0) && inPage <= 0x1_0000
    case Err(e) => e == AuditLimit
  }

  /** The word of a chain is read, recorded and reported. */
  lemma VisitWord(env: Env, st: State, c: ChainContext, inPage: nat)
    requires StateOk(env, st) && ChainOk(env, c) && |env.source| <= MAX_INPUT_SIZE && inPage < c.pageSize
    requires var offset := c.offset + inPage;
             && offset + 8 <= c.segment.file.size
             && FileLocation(env.outer, c.segment.address + offset, 8) == Some(c.segment.file.offset + offset)
    ensures VisitSafe(env, st, ChainVisit(env, st, c, inPage))
    ensures ChainVisit(env, st, c, inPage).Ok? ==> ChainVisit(env, st, c, inPage).value.state.chainRecords == st.chainRecords + 1
  {
    hide StateOk, RecordOk, RecordClean, FileLocation, OverlapOf, Word, Resolved, TargetCovered, ChainCodes, AddIssues, Plain, IssueList;
    var offset := c.offset + inPage;
    var address, file := c.segment.address + offset, c.segment.file.offset + offset;
    WordBounds(env.source, file);
    var word := Word(env.source, file, 8);
    var r := ChainRecord(env, c, address, file, word);
    ChainRecordOk(env, c, address, file, word);
    ChainClean(env, r);
    var added := AddRecord(env, st, r);
    if added.Ok? {
      var counted := added.value.(chainRecords := st.chainRecords + 1);
      AddIssuesExact(env, counted, c.image, Some(|st.records|), ChainCodes(env, r));
      var reported := AddIssues(env, counted, c.image, Some(|st.records|), ChainCodes(env, r));
      if reported.Ok? {
        RecordAdded(env, st, r, ChainCodes(env, r), reported.value);
        Terminated(env, reported.value);
      }
    }
  }

  lemma Terminated(env: Env, st: State)
    requires StateOk(env, st)
    ensures StateOk(env, st.(chainsTerminated := st.chainsTerminated + 1))
  {
    hide RecordOk, RecordClean, ChainCount, ConflictCode;
  }

  lemma ChainRecordOk(env: Env, c: ChainContext, address: nat, file: nat, word: u64)
    requires FileLocation(env.outer, address, 8) == Some(file) && file + 8 <= |env.source| && Fits64(address + 8)
    ensures RecordOk(env, ChainRecord(env, c, address, file, word)) && ChainRecord(env, c, address, file, word).image == c.image
    ensures ChainRecord(env, c, address, file, word).detail.next < 0x1000
  {
    hide FileLocation, OverlapOf, Resolved, TargetCovered;
  }

  lemma StopSafe(env: Env, st: State, c: ChainContext, code: IssueCode)
    requires StateOk(env, st) && !ConflictCode(code)
    ensures VisitSafe(env, st, StopWith(env, st, c, code))
  {
    hide RecordOk, RecordClean, ChainCount;
  }

  /** Whatever a chain word holds, the visit can fail only at a limit. */
  lemma ChainVisitSafe(env: Env, st: State, c: ChainContext, inPage: nat)
    requires StateOk(env, st) && ChainOk(env, c) && |env.source| <= MAX_INPUT_SIZE && inPage <= 0x1_0000
    ensures VisitSafe(env, st, ChainVisit(env, st, c, inPage))
  {
    hide StateOk, FileLocation, VisitSafe, RecordWord, StopWith;
    StopSafe(env, st, c, ChainOutsidePage);
    StopSafe(env, st, c, ChainOutsideFileMapping);
    var offset := c.offset + inPage;
    if inPage < c.pageSize && offset + 8 <= c.segment.file.size && FileLocation(env.outer, c.segment.address + offset, 8) == Some(c.segment.file.offset + offset) {
      VisitWord(env, st, c, inPage);
    }
  }

  lemma {:induction false} ChainSafe(env: Env, st: State, c: ChainContext, inPage: nat)
    requires StateOk(env, st) && ChainOk(env, c) && |env.source| <= MAX_INPUT_SIZE && inPage <= 0x1_0000
    ensures match ChainFrom(env, st, c, inPage)
            case Ok(next) => StateOk(env, next) && (Stepped(st, next, 0) || Stepped(st, next, 1))
            case Err(e) => e == AuditLimit
    decreases if inPage < c.pageSize then c.pageSize - inPage else 0
  {
    hide StateOk, ChainVisit, ChainOk;
    ChainVisitSafe(env, st, c, inPage);
    var v := ChainVisit(env, st, c, inPage);
    if v.Ok? && v.value.Continue? {
      ChainSafe(env, v.value.state, c, v.value.inPage);
    }
  }

  /** The file bytes of a segment are file bytes of the collection at the same displacement. */
  predicate Shared(outer: seq<Segment>, s: Segment) {
    s.file.size != 0 ==> IsCollectionView(outer, s.file, s.address)
  }

  lemma SharedLocation(env: Env, outer: seq<Segment>, s: Segment, offset: nat)
    requires EnvOk(env, outer) && Shared(outer, s) && SegmentOk(env.source, s) && offset + 8 <= s.file.size
    ensures FileLocation(env.outer, s.address + offset, 8) == Some(s.file.offset + offset)
  {
    hide Searched, FileLocation, Pairwise;
    var k :| 0 <= k < |outer| && Shows(outer[k], s.file, s.address);
    assert SegmentOk(env.source, outer[k]);
    FileLocationFinds(outer, env.outer, k, s.address + offset, 8);
  }

  predicate Started(st: State, r: Result<State, AuditError>) {
    r.Ok? ==> r.value.chainStarts == st.chainStarts + 1 && r.value.chainRecords >= st.chainRecords + 1
  }

  predicate StartOk(c: ChainContext, start: nat) {
    PageStartOk(start, c.pageSize, Backed(c.segment, c.offset), 11)
  }

  /** A chain that starts where the inspector allows it leaves at least one record. */
  lemma StartSafe(env: Env, outer: seq<Segment>, st: State, c: ChainContext, start: nat)
    requires EnvOk(env, outer) && StateOk(env, st) && Balanced(st) && ChainOk(env, c) && Shared(outer, c.segment)
    requires StartOk(c, start)
    ensures Safe(env, StartChain(env, st, c, start))
    ensures Started(st, StartChain(env, st, c, start))
  {
    hide StateOk, ChainVisit, SegmentOk, FileLocation, EnvOk, Shared;
    Small(env, outer);
    ChainOkSegment(env, c);
    var offset := c.offset + start;
    assert offset + 8 <= c.segment.file.size;
    SharedLocation(env, outer, c.segment, offset);
    var begun := st.(chainStarts := st.chainStarts + 1);
    Begun(env, st);
    VisitWord(env, begun, c, start);
    var v := ChainVisit(env, begun, c, start);
    if v.Ok? && v.value.Continue? {
      ChainSafe(env, v.value.state, c, v.value.inPage);
    }
  }

  lemma ChainOkSegment(env: Env, c: ChainContext)
    requires ChainOk(env, c)
    ensures SegmentOk(env.source, c.segment) && c.pageSize <= 16384 && c.offset <= 0x4000_0000
  {
  }

  lemma Begun(env: Env, st: State)
    requires StateOk(env, st)
    ensures StateOk(env, st.(chainStarts := st.chainStarts + 1))
  {
    hide RecordOk, RecordClean, ChainCount, ConflictCode;
  }

  //////////////////////////////////////////////////////////////////////////////
  // The second walk over the page starts stays in its table
  //////////////////////////////////////////////////////////////////////////////

  /** The fixup record of a segment, at its place in the source. */
  predicate InfoAt(source: seq<byte>, info: nat, slice: seq<byte>) {
    info + |slice| <= |source| && slice == source[info..info + |slice|]
  }

  lemma SlotRead(source: seq<byte>, info: nat, slice: seq<byte>, k: nat)
    requires InfoAt(source, info, slice) && k < Slots(slice) && |source| <= MAX_INPUT_SIZE
    ensures info + 22 + k * 2 + 2 <= info + |slice|
    ensures ReadWord(source, info + 22 + k * 2, 2) == Ok(Slot(slice, k))
  {
    WordInSlice(source, info, |slice|, 22 + k * 2, 2);
  }

  lemma CountedSafe(env: Env, st: State)
    requires StateOk(env, st) && Balanced(st)
    ensures Safe(env, VisitPageStart(env, st))
  {
    hide RecordOk, RecordClean, ChainCount, ConflictCode;
  }

  /** The place of a page's chains. */
  ghost predicate PlaceOk(env: Env, outer: seq<Segment>, c: ChainContext) {
    EnvOk(env, outer) && ChainOk(env, c) && Shared(outer, c.segment)
  }

  lemma {:induction false} StartsSafe(env: Env, outer: seq<Segment>, st: State, c: ChainContext, info: nat, slice: seq<byte>, k: nat)
    requires PlaceOk(env, outer, c) && StateOk(env, st) && Balanced(st) && InfoAt(env.source, info, slice)
    requires StartsEnd(slice, k, c.pageSize, Backed(c.segment, c.offset), 11)
    ensures Safe(env, StartsFrom(env, st, c, info + |slice|, info + 22 + k * 2))
    decreases if k < Slots(slice) then Slots(slice) - k else 0
  {
    hide StateOk, StartChain, Slot, Slots, EnvOk, ChainOk, Shared, InfoAt, PageStartOk;
    Small(env, outer);
    CountedSafe(env, st);
    SlotRead(env.source, info, slice, k);
    var counted := VisitPageStart(env, st);
    if counted.Ok? {
      var start := Slot(slice, k);
      StartSafe(env, outer, counted.value, c, start % 0x8000);
      var next := StartChain(env, counted.value, c, start % 0x8000);
      if next.Ok? && start < 0x8000 {
        StartsSafe(env, outer, next.value, c, info, slice, k + 1);
        assert info + 22 + k * 2 + 2 == info + 22 + (k + 1) * 2;
      }
    }
  }

  lemma MultiCounted(env: Env, st: State, c: ChainContext)
    requires StateOk(env, st) && Balanced(st)
    ensures Safe(env, AddIssue(env, st.(multiStartPages := st.multiStartPages + 1), Issue(UnsupportedMultiStartConsumer, c.image, None, None)))
  {
    hide RecordOk, RecordClean, ChainCount;
  }

  lemma PageSafe(env: Env, outer: seq<Segment>, st: State, c: ChainContext, info: nat, slice: seq<byte>)
    requires PlaceOk(env, outer, c) && StateOk(env, st) && Balanced(st) && InfoAt(env.source, info, slice)
    requires c.page < Slots(slice)
    requires var first, backed := Slot(slice, c.page), Backed(c.segment, c.offset);
             || first == 0xffff
             || (first < 0x8000 && PageStartOk(first, c.pageSize, backed, 11))
             || (first >= 0x8000 && StartsEnd(slice, first - 0x8000, c.pageSize, backed, 11))
    ensures Safe(env, PageAt(env, st, c, info, info + |slice|))
  {
    hide StateOk, StartChain, Slot, Slots, EnvOk, ChainOk, Shared, InfoAt, PageStartOk, StartsFrom, StartsEnd, AddIssue, Backed;
    Small(env, outer);
    CountedSafe(env, st);
    SlotRead(env.source, info, slice, c.page);
    var counted := VisitPageStart(env, st);
    var first := Slot(slice, c.page);
    if counted.Ok? && first != 0xffff {
      if first < 0x8000 {
        StartSafe(env, outer, counted.value, c, first);
      } else {
        MultiCounted(env, counted.value, c);
        var reported := AddIssue(env, counted.value.(multiStartPages := counted.value.multiStartPages + 1), Issue(UnsupportedMultiStartConsumer, c.image, None, None));
        if reported.Ok? {
          StartsSafe(env, outer, reported.value, c, info, slice, first - 0x8000);
        }
      }
    }
  }

  lemma {:induction false} PagesSafe(env: Env, outer: seq<Segment>, st: State, image: nat, s: Segment, f: FixupSegment, info: nat, slice: seq<byte>, page: nat)
    requires EnvOk(env, outer) && StateOk(env, st) && Balanced(st) && InfoAt(env.source, info, slice)
    requires SegmentOk(env.source, s) && Shared(outer, s) && f.pointerFormat == 11 && (f.pageSize == 4096 || f.pageSize == 16384)
    requires page <= f.pageCount && PagesOk(slice, s, f)
    ensures Safe(env, PagesFrom(env, st, image, s, f, info, info + |slice|, page))
    decreases f.pageCount - page
  {
    hide StateOk, PageAt, EnvOk, Shared, InfoAt, SegmentOk, PageOk;
    if page < f.pageCount {
      var c := ChainContext(image, f.segmentIndex, page, s, f.pageSize, page * f.pageSize);
      PageContext(env, s, f, page, c);
      PageFacts(slice, s, f, page);
      PageSafe(env, outer, st, c, info, slice);
      var next := PageAt(env, st, c, info, info + |slice|);
      if next.Ok? {
        PagesSafe(env, outer, next.value, image, s, f, info, slice, page + 1);
      }
    }
  }

  lemma PageContext(env: Env, s: Segment, f: FixupSegment, page: nat, c: ChainContext)
    requires SegmentOk(env.source, s) && (f.pageSize == 4096 || f.pageSize == 16384) && page < f.pageCount
    requires c.segment == s && c.pageSize == f.pageSize && c.offset == page * f.pageSize
    ensures ChainOk(env, c)
  {
    hide SegmentOk;
  }

  lemma PageFacts(slice: seq<byte>, s: Segment, f: FixupSegment, page: nat)
    requires PagesOk(slice, s, f) && page < f.pageCount && f.pointerFormat == 11
    ensures page < Slots(slice)
    ensures var first, backed := Slot(slice, page), Backed(s, page * f.pageSize);
            || first == 0xffff
            || (first < 0x8000 && PageStartOk(first, f.pageSize, backed, 11))
            || (first >= 0x8000 && StartsEnd(slice, first - 0x8000, f.pageSize, backed, 11))
  {
    hide Slot, Slots, StartsEnd, PageStartOk, Backed;
    assert PageOk(slice, s, f.pageSize, f.pointerFormat, page);
  }

  /** The record of a segment, read again from the source, is the one the inspector checked. */
  lemma RecordRead(source: seq<byte>, file: FileRange, data: seq<byte>, index: nat, at: nat, size: nat)
    requires |source| <= MAX_INPUT_SIZE && file.End() <= |source| && data == source[file.offset..file.End()]
    requires RecordAt(data, index, at, size)
    ensures ReadWord(source, file.offset + 4, 4) == Ok(U32(data, 4))
    ensures ReadWord(source, file.offset + U32(data, 4) + 4 + index * 4, 4) == Ok(at - U32(data, 4))
    ensures ReadWord(source, file.offset + at, 4) == Ok(size)
    ensures InfoAt(source, file.offset + at, data[at..at + size])
  {
    hide Word;
    WordOfU32(data, 4);
    WordOfU32(data, U32(data, 4) + 4 + index * 4);
    WordOfU32(data, at);
    hide U32;
    WordInSlice(source, file.offset, file.size, 4, 4);
    WordInSlice(source, file.offset, file.size, U32(data, 4) + 4 + index * 4, 4);
    WordInSlice(source, file.offset, file.size, at, 4);
    SliceAgain(source, file.offset, file.End(), at, at + size);
  }

  lemma WordOfU32(data: seq<byte>, at: nat)
    requires Readable(data, at, 4)
    ensures U32(data, at) == Word(data, at, 4)
  {
  }

  lemma SliceAgain(s: seq<byte>, from: nat, to: nat, a: nat, b: nat)
    requires from <= to <= |s| && a <= b <= to - from
    ensures s[from..to][a..b] == s[from + a..from + b]
  {
    var x, y := s[from..to][a..b], s[from + a..from + b];
    assert forall k :: 0 <= k < |x| ==> x[k] == y[k];
  }

  /** Where the starts table of a fixup table is in the source. */
  function StartsOf(source: seq<byte>, f: Fixups): nat {
    if f.file.End() <= |source| && 8 <= f.file.size then f.file.offset + U32(source[f.file.offset..f.file.End()], 4) else 0
  }

  lemma SegmentFixupsSafe(env: Env, outer: seq<Segment>, st: State, image: nat, i: Image, f: Fixups, k: nat)
    requires EnvOk(env, outer) && StateOk(env, st) && Balanced(st) && k < |f.segments| && FixupsOk(env.source, i.segments, i.headerAddress, f)
    requires forall j :: 0 <= j < |i.segments| ==> SegmentOk(env.source, i.segments[j]) && Shared(outer, i.segments[j])
    ensures Safe(env, SegmentFixups(env, st, image, i, StartsOf(env.source, f), f.segments[k]))
  {
    hide EnvOk, StateOk, Shared, SegmentOk, U32, ReadWord, PagesOk, PagesFrom, WrapSub, InfoAt;
    var data, g := env.source[f.file.offset..f.file.End()], f.segments[k];
    assert FixupOk(data, i.segments, i.headerAddress, g);
    Small(env, outer);
    if g.pointerFormat != 11 {
      OneIssueSafe(env, st, Issue(UnsupportedPointerFormat, image, None, None));
    } else {
      var at: nat, size: nat :| RecordAt(data, g.segmentIndex, at, size) && PagesOk(data[at..at + size], i.segments[g.segmentIndex], g);
      RecordRead(env.source, f.file, data, g.segmentIndex, at, size);
      PagesSafe(env, outer, st, image, i.segments[g.segmentIndex], g, f.file.offset + at, data[at..at + size], 0);
    }
  }

  lemma {:induction false} FixupsSafe(env: Env, outer: seq<Segment>, st: State, image: nat, i: Image, f: Fixups, k: nat)
    requires EnvOk(env, outer) && StateOk(env, st) && Balanced(st) && k <= |f.segments| && FixupsOk(env.source, i.segments, i.headerAddress, f)
    requires forall j :: 0 <= j < |i.segments| ==> SegmentOk(env.source, i.segments[j]) && Shared(outer, i.segments[j])
    ensures Safe(env, FixupsFrom(env, st, image, i, StartsOf(env.source, f), f.segments, k))
    decreases |f.segments| - k
  {
    hide EnvOk, StateOk, Shared, SegmentOk, StartsOf, SegmentFixups, FixupsOk;
    if k < |f.segments| {
      SegmentFixupsSafe(env, outer, st, image, i, f, k);
      var next := SegmentFixups(env, st, image, i, StartsOf(env.source, f), f.segments[k]);
      if next.Ok? {
        FixupsSafe(env, outer, next.value, image, i, f, k + 1);
      }
    }
  }

  lemma FixupsPlace(source: seq<byte>, i: Image, f: Fixups)
    requires FixupsOk(source, i.segments, i.headerAddress, f)
    ensures f.file.End() <= |source| && 28 <= f.file.size
  {
  }

  //////////////////////////////////////////////////////////////////////////////
  // Images
  //////////////////////////////////////////////////////////////////////////////

  /** An image of an accepted collection, as far as the audit reads it. */
  ghost predicate Auditable(source: seq<byte>, outer: seq<Segment>, i: Image) {
    && Searchable(source, i.segments) && RelocationsOk(source, i)
    && (forall j :: 0 <= j < |i.segments| ==> SegmentOk(source, i.segments[j]) && Shared(outer, i.segments[j]))
    && (i.fixups.Some? ==> FixupsOk(source, i.segments, i.headerAddress, i.fixups.value))
  }

  lemma OptionalIssueSafe(env: Env, st: State, condition: bool, issue: Issue)
    requires StateOk(env, st) && Balanced(st) && !ConflictCode(issue.code)
    ensures Safe(env, if condition then AddIssue(env, st, issue) else Ok(st))
  {
    OneIssueSafe(env, st, issue);
  }

  lemma ImageFixupsSafe(env: Env, outer: seq<Segment>, st: State, image: nat, i: Image)
    requires EnvOk(env, outer) && StateOk(env, st) && Balanced(st) && Auditable(env.source, outer, i)
    ensures Safe(env, ImageFixups(env, st, image, i))
  {
    hide EnvOk, StateOk, Shared, SegmentOk, FixupsFrom, FixupsOk, Searchable, RelocationsOk, AddIssue, U32, Word;
    if i.fixups.Some? {
      var f := i.fixups.value;
      FixupsPlace(env.source, i, f);
      Small(env, outer);
      OptionalIssueSafe(env, st, f.importsCount != 0, Issue(UnsupportedImports, image, None, None));
      var imports := if f.importsCount != 0 then AddIssue(env, st, Issue(UnsupportedImports, image, None, None)) else Ok(st);
      if imports.Ok? {
        OptionalIssueSafe(env, imports.value, f.symbolsFormat != 0, Issue(UnsupportedCompressedSymbols, image, None, None));
        var symbols := if f.symbolsFormat != 0 then AddIssue(env, imports.value, Issue(UnsupportedCompressedSymbols, image, None, None)) else Ok(imports.value);
        if symbols.Ok? {
          HeadRead(env.source, f.file);
          FixupsSafe(env, outer, symbols.value, image, i, f, 0);
        }
      }
    }
  }

  lemma HeadRead(source: seq<byte>, file: FileRange)
    requires file.End() <= |source| <= MAX_INPUT_SIZE && 28 <= file.size
    ensures ReadWord(source, file.offset + 4, 4) == Ok(U32(source[file.offset..file.End()], 4))
  {
    hide Le;
    WordInSlice(source, file.offset, file.size, 4, 4);
  }

  predicate SectionOk(source: seq<byte>, s: Section) {
    s.relocations.Range().End() <= |source|
  }

  lemma {:induction false} SectionsOk(source: seq<byte>, segments: seq<Segment>)
    requires forall j :: 0 <= j < |segments| ==> SegmentOk(source, segments[j])
    ensures forall k :: 0 <= k < |AllSections(segments)| ==> SectionOk(source, AllSections(segments)[k])
    decreases |segments|
  {
    if segments != [] {
      SectionsOk(source, segments[1..]);
      assert SegmentOk(source, segments[0]);
    }
  }

  lemma {:induction false} SectionsSafe(env: Env, outer: seq<Segment>, st: State, image: nat, maps: seq<Mapping>, sections: seq<Section>)
    requires EnvOk(env, outer) && StateOk(env, st) && Balanced(st)
    requires forall k :: 0 <= k < |sections| ==> SectionOk(env.source, sections[k])
    ensures Safe(env, SectionsFrom(env, st, image, maps, sections))
    decreases |sections|
  {
    hide EnvOk, StateOk, ClassicFrom;
    if sections != [] {
      var s := sections[0];
      assert SectionOk(env.source, s);
      var c := ClassicContext(image, Some(s.size), maps, SectionTable, s.relocations, Some(s.address));
      ClassicSafe(env, outer, st, c, 0);
      var next := ClassicFrom(env, st, c, 0);
      if next.Ok? {
        SectionsSafe(env, outer, next.value, image, maps, sections[1..]);
      }
    }
  }

  lemma DynamicSafe(env: Env, outer: seq<Segment>, st: State, image: nat, i: Image, maps: seq<Mapping>)
    requires EnvOk(env, outer) && StateOk(env, st) && Balanced(st) && RelocationsOk(env.source, i)
    ensures Safe(env, DynamicTables(env, st, image, i, maps))
  {
    hide EnvOk, StateOk, ClassicFrom, ClassicBase;
    if i.relocations.Some? {
      var r := i.relocations.value;
      var local := ClassicContext(image, None, maps, LocalDynamic, r.local, ClassicBase(i));
      ClassicSafe(env, outer, st, local, 0);
      var next := ClassicFrom(env, st, local, 0);
      if next.Ok? {
        ClassicSafe(env, outer, next.value, ClassicContext(image, None, maps, ExternalDynamic, r.external, ClassicBase(i)), 0);
      }
    }
  }

  lemma ImageSafe(env: Env, outer: seq<Segment>, st: State, image: nat, i: Image)
    requires EnvOk(env, outer) && StateOk(env, st) && Balanced(st) && Auditable(env.source, outer, i)
    ensures Safe(env, AuditImage(env, st, image, i))
  {
    AuditableParts(env.source, outer, i);
    hide EnvOk, StateOk, Auditable, DynamicTables, SectionsFrom, ImageFixups, Mappings, Balanced, AllSections, Searched, Searchable;
    MappingsHold(env.source, i.segments);
    SectionsOk(env.source, i.segments);
    var maps := Mappings(i.segments).value;
    DynamicSafe(env, outer, st, image, i, maps);
    var dynamic := DynamicTables(env, st, image, i, maps);
    if dynamic.Ok? {
      SectionsSafe(env, outer, dynamic.value, image, maps, AllSections(i.segments));
      var sections := SectionsFrom(env, dynamic.value, image, maps, AllSections(i.segments));
      if sections.Ok? {
        ImageFixupsSafe(env, outer, sections.value, image, i);
      }
    }
  }

  lemma AuditableParts(source: seq<byte>, outer: seq<Segment>, i: Image)
    requires Auditable(source, outer, i)
    ensures Searchable(source, i.segments) && RelocationsOk(source, i)
    ensures forall j :: 0 <= j < |i.segments| ==> SegmentOk(source, i.segments[j])
  {
    hide SegmentOk, FixupsOk, Shared;
  }

  lemma {:induction false} MembersSafe(env: Env, outer: seq<Segment>, st: State, members: seq<Image>, k: nat)
    requires EnvOk(env, outer) && StateOk(env, st) && Balanced(st) && k <= |members|
    requires forall j :: 0 <= j < |members| ==> Auditable(env.source, outer, members[j])
    ensures Safe(env, AuditMembers(env, st, members, k))
    decreases |members| - k
  {
    hide EnvOk, StateOk, Auditable, AuditImage;
    if k < |members| {
      ImageSafe(env, outer, st, k + 1, members[k]);
      var next := AuditImage(env, st, k + 1, members[k]);
      if next.Ok? {
        MembersSafe(env, outer, next.value, members, k + 1);
      }
    }
  }

  //////////////////////////////////////////////////////////////////////////////
  // The environment of an accepted collection
  //////////////////////////////////////////////////////////////////////////////

  lemma {:induction false} LowestExists(segments: seq<Segment>)
    requires segments != []
    ensures LowestAddress(segments).Ok?
    ensures forall k :: 0 <= k < |segments| ==> LowestAddress(segments).value <= segments[k].address
    ensures exists k :: 0 <= k < |segments| && LowestAddress(segments).value == segments[k].address
    decreases |segments|
  {
    if |segments| > 1 {
      LowestExists(segments[1..]);
      var low := LowestAddress(segments[1..]).value;
      var k :| 0 <= k < |segments[1..]| && low == segments[1..][k].address;
      assert segments[k + 1] == segments[1..][k];
      forall j | 0 <= j < |segments| ensures LowestAddress(segments).value <= segments[j].address {
        assert j > 0 ==> segments[j] == segments[1..][j - 1];
      }
    } else {
      assert segments[1..] == [];
    }
  }

  lemma {:induction false} AddressSpansFit(source: seq<byte>, segments: seq<Segment>)
    requires forall k :: 0 <= k < |segments| ==> SegmentOk(source, segments[k])
    ensures SpansFit(AddressSpans(segments)) && |AddressSpans(segments)| <= |segments|
    decreases |segments|
  {
    if segments != [] {
      assert SegmentOk(source, segments[0]);
      AddressSpansFit(source, segments[1..]);
    }
  }

  lemma {:induction false} KindSpansFit(source: seq<byte>, outer: seq<Segment>, members: seq<Image>, fileType: u32)
    requires forall k :: 0 <= k < |members| ==> Auditable(source, outer, members[k])
    ensures SpansFit(KindSpans(members, fileType)) && |KindSpans(members, fileType)| <= SegmentCount(members)
    ensures AllNonempty(KindSpans(members, fileType))
    decreases |members|
  {
    hide Auditable, SegmentOk;
    if members != [] {
      KindSpansFit(source, outer, members[1..], fileType);
      AuditableParts(source, outer, members[0]);
      AddressSpansFit(source, members[0].segments);
      AddressSpansPairs(members[0].segments);
    }
  }

  lemma OuterAuditable(source: seq<byte>, i: Inspection)
    requires Accepted(source, i)
    ensures Auditable(source, i.collection.segments, i.collection) && i.collection.segments != []
  {
    hide MemberOk, EntryRuns, FixupsOk, Pairwise, PlacesHeader;
    var segments := i.collection.segments;
    forall k | 0 <= k < |segments| ensures Shared(segments, segments[k]) {
      assert SegmentOk(source, segments[k]);
      assert Shows(segments[k], segments[k].file, segments[k].address);
    }
  }

  lemma MemberAuditable(source: seq<byte>, i: Inspection, m: nat)
    requires Accepted(source, i) && m < |i.members|
    ensures Auditable(source, i.collection.segments, i.members[m])
  {
    hide EntryRuns, FixupsOk, Pairwise, PlacesHeader, SegmentOk, Mapped, IsCollectionView;
    var image := i.members[m];
    assert ImageOk(source, image) && MemberOk(i.collection.segments, image);
    forall k | 0 <= k < |image.segments| ensures Shared(i.collection.segments, image.segments[k]) {
      assert MemberSegmentOk(i.collection.segments, image.segments[k]);
    }
  }

  lemma AcceptedSizes(source: seq<byte>, i: Inspection)
    requires Accepted(source, i)
    ensures |source| <= MAX_INPUT_SIZE && SegmentCount(i.members) <= MAX_SEGMENTS
  {
    hide ImageOk, MemberOk, EntryRuns;
  }

  lemma EnvHolds(source: seq<byte>, limits: Limits, i: Inspection)
    requires Accepted(source, i)
    ensures EnvOf(source, limits, i).Ok?
    ensures var env := EnvOf(source, limits, i).value;
            && env.source == source && env.limits == limits && EnvOk(env, i.collection.segments)
            && env.executable == Merge([], Sort(KindSpans(i.members, 2), Start)) && env.kext == Merge([], Sort(KindSpans(i.members, 11), Start))
  {
    hide *;
    OuterAuditable(source, i);
    AcceptedSizes(source, i);
    AuditableParts(source, i.collection.segments, i.collection);
    LowestExists(i.collection.segments);
    MappingsHold(source, i.collection.segments);
    MemberRangesHold(source, i, 2);
    MemberRangesHold(source, i, 11);
    EnvAssembled(source, limits, i);
  }

  lemma EnvAssembled(source: seq<byte>, limits: Limits, i: Inspection)
    requires |source| <= MAX_INPUT_SIZE && Searchable(source, i.collection.segments) && LowestAddress(i.collection.segments).Ok?
    requires Mappings(i.collection.segments).Ok? && Searched(i.collection.segments, Mappings(i.collection.segments).value)
    requires MemberRanges(i.members, 2) == Ok(Merge([], Sort(KindSpans(i.members, 2), Start)))
    requires MemberRanges(i.members, 11) == Ok(Merge([], Sort(KindSpans(i.members, 11), Start)))
    ensures EnvOf(source, limits, i).Ok?
    ensures var env := EnvOf(source, limits, i).value;
            && env.source == source && env.limits == limits && EnvOk(env, i.collection.segments)
            && env.executable == Merge([], Sort(KindSpans(i.members, 2), Start)) && env.kext == Merge([], Sort(KindSpans(i.members, 11), Start))
  {
    hide Searchable, Searched, LowestAddress, Mappings, MemberRanges, Merge, Sort, KindSpans;
  }

  /** The bound on member ranges is never met: the inspector allows no more segments. */
  lemma MemberRangesHold(source: seq<byte>, i: Inspection, fileType: u32)
    requires Accepted(source, i)
    ensures MemberRanges(i.members, fileType) == Ok(Merge([], Sort(KindSpans(i.members, fileType), Start)))
  {
    forall m: nat | m < |i.members| ensures Auditable(source, i.collection.segments, i.members[m]) {
      MemberAuditable(source, i, m);
    }
    AcceptedSizes(source, i);
    hide Accepted, Auditable, KindSpans, Merge, Sort, SpansFit, SegmentCount;
    KindSpansFit(source, i.collection.segments, i.members, fileType);
  }

  //////////////////////////////////////////////////////////////////////////////
  // The whole audit
  //////////////////////////////////////////////////////////////////////////////

  function ConflictList(records: seq<Record>, conflicts: seq<O.Conflict>): (r: seq<Issue>)
    ensures |r| == |conflicts| && forall k :: 0 <= k < |r| ==> r[k] == ConflictIssue(records, conflicts[k])
  {
    seq(|conflicts|, k requires 0 <= k < |conflicts| => ConflictIssue(records, conflicts[k]))
  }

  lemma {:induction false} AddConflictsExact(env: Env, st: State, conflicts: seq<O.Conflict>)
    ensures match AddConflicts(env, st, conflicts)
            case Ok(next) => next == st.(issues := st.issues + ConflictList(st.records, conflicts))
            case Err(e) => e == AuditLimit
    decreases |conflicts|
  {
    hide ConflictList, ConflictIssue;
    if conflicts != [] {
      var next := AddIssue(env, st, ConflictIssue(st.records, conflicts[0]));
      if next.Ok? {
        AddConflictsExact(env, next.value, conflicts[1..]);
        ConflictListCons(st.issues, st.records, conflicts);
      }
    } else {
      NoConflicts(st.issues, st.records);
    }
  }

  lemma ConflictListCons(issues: seq<Issue>, records: seq<Record>, conflicts: seq<O.Conflict>)
    requires conflicts != []
    ensures issues + [ConflictIssue(records, conflicts[0])] + ConflictList(records, conflicts[1..]) == issues + ConflictList(records, conflicts)
  {
    hide ConflictIssue;
    assert [ConflictIssue(records, conflicts[0])] + ConflictList(records, conflicts[1..]) == ConflictList(records, conflicts);
  }

  lemma NoConflicts(issues: seq<Issue>, records: seq<Record>)
    ensures issues + ConflictList(records, []) == issues
  {
  }

  /** Write w is the file-backed write of a record. */
  predicate WrittenBy(records: seq<Record>, w: O.Write) {
    && w.record < |records| && records[w.record].file.Some? && records[w.record].address.Some?
    && w == WriteOf(records[w.record], w.record)
  }

  predicate AllWritten(records: seq<Record>, ws: seq<O.Write>, k: nat) {
    forall j :: 0 <= j < |ws| ==> k <= ws[j].record && WrittenBy(records, ws[j])
  }

  predicate Increasing(ws: seq<O.Write>) {
    forall i, j :: 0 <= i < j < |ws| ==> ws[i].record < ws[j].record
  }

  lemma {:induction false} WritesAre(records: seq<Record>, k: nat)
    requires k <= |records|
    ensures AllWritten(records, WritesFrom(records, k), k) && Increasing(WritesFrom(records, k))
    decreases |records| - k
  {
    hide WrittenBy, AllWritten, Increasing, WriteOf;
    if k < |records| {
      WritesAre(records, k + 1);
      WritesCons(records, WritesFrom(records, k + 1), k);
    } else {
      NothingWritten(records, k);
    }
  }

  lemma NothingWritten(records: seq<Record>, k: nat)
    ensures AllWritten(records, [], k) && Increasing([])
  {
  }

  lemma WritesCons(records: seq<Record>, rest: seq<O.Write>, k: nat)
    requires k < |records| && AllWritten(records, rest, k + 1) && Increasing(rest)
    ensures AllWritten(records, rest, k)
    ensures records[k].file.Some? && records[k].address.Some? ==>
              AllWritten(records, [WriteOf(records[k], k)] + rest, k) && Increasing([WriteOf(records[k], k)] + rest)
  {
    hide WrittenBy;
    if records[k].file.Some? && records[k].address.Some? {
      HeadWritten(records, k);
    }
  }

  lemma HeadWritten(records: seq<Record>, k: nat)
    requires k < |records| && records[k].file.Some? && records[k].address.Some?
    ensures WrittenBy(records, WriteOf(records[k], k))
  {
  }

  lemma {:induction false} WritesAll(records: seq<Record>, k: nat, m: nat)
    requires k <= m < |records| && records[m].file.Some? && records[m].address.Some?
    ensures WriteOf(records[m], m) in WritesFrom(records, k)
    decreases |records| - k
  {
    if k < m {
      WritesAll(records, k + 1, m);
    }
  }

  ghost predicate RecordsOk(env: Env, records: seq<Record>) {
    forall i :: 0 <= i < |records| ==> RecordOk(env, records[i])
  }

  /** The writes the sweep sees: in order, and exactly the file-backed records. */
  lemma OrderedWritesExact(env: Env, records: seq<Record>)
    requires RecordsOk(env, records)
    ensures O.InOrder(OrderedWrites(records)) && EndsFit(OrderedWrites(records))
    ensures forall w :: w in OrderedWrites(records) <==> WrittenBy(records, w)
  {
    hide Sort, LexSorted, RecordOk;
    var list := WritesFrom(records, 0);
    var ws := OrderedWrites(records);
    WritesAre(records, 0);
    SortLex(list, O.Address, O.RecordOf);
    forall w ensures w in ws <==> WrittenBy(records, w) {
      SortMembers(list, O.Address, w);
      if WrittenBy(records, w) {
        WritesAll(records, 0, w.record);
      }
    }
    forall k | 0 <= k < |ws| ensures ws[k].address < ws[k].end && Fits64(ws[k].end) {
      assert ws[k] in ws;
      WriteFits(env, records[ws[k].record]);
    }
    OwnRecords(ws);
  }

  lemma WriteFits(env: Env, r: Record)
    requires RecordOk(env, r) && r.file.Some? && r.address.Some?
    ensures r.width >= 1 && Fits64(r.address.value + r.width)
  {
    hide OverlapOf, FileLocation;
  }

  lemma OwnRecords(ws: seq<O.Write>)
    requires LexSorted(ws, O.Address, O.RecordOf)
    requires forall a, b :: a in ws && b in ws && a.record == b.record ==> a == b
    ensures forall i, j :: 0 <= i < j < |ws| ==> ws[i].record != ws[j].record
  {
    forall i: nat, j: nat | i < j < |ws| ensures ws[i].record != ws[j].record {
      OwnRecord(ws, i, j);
    }
  }

  lemma OwnRecord(ws: seq<O.Write>, i: nat, j: nat)
    requires LexSorted(ws, O.Address, O.RecordOf) && i < j < |ws|
    requires forall a, b :: a in ws && b in ws && a.record == b.record ==> a == b
    ensures ws[i].record != ws[j].record
  {
    assert ws[i] in ws && ws[j] in ws;
    assert O.Address(ws[i]) < O.Address(ws[j]) || O.RecordOf(ws[i]) < O.RecordOf(ws[j]);
  }

  /** The state of a finished audit: the records and issues of the images, then the reports of the sweep. */
  ghost predicate Finished(env: Env, st: State) {
    exists before: State ::
      && StateOk(env, before) && Balanced(before)
      && st == before.(issues := before.issues + ConflictList(before.records, O.Sweep(OrderedWrites(before.records))))
  }

  lemma OverlapsSafe(env: Env, st: State)
    requires StateOk(env, st) && Balanced(st)
    ensures match AuditOverlaps(env, st)
            case Ok(next) => Finished(env, next)
            case Err(e) => e == AuditLimit
  {
    StateRecords(env, st);
    hide StateOk, OrderedWrites, O.InOrder, O.Sweep, EndsFit;
    OrderedWritesExact(env, st.records);
    AddConflictsExact(env, st, O.Sweep(OrderedWrites(st.records)));
  }

  lemma StateRecords(env: Env, st: State)
    requires StateOk(env, st)
    ensures RecordsOk(env, st.records)
  {
  }

  /**
   For every collection the inspector accepts, the audit fails only at a limit; when it succeeds, every
   chain that was started has left a record.
   */
  lemma AuditOnlyLimits(source: seq<byte>, limits: Limits, i: Inspection)
    requires Accepted(source, i) && LimitsOk(limits)
    ensures EnvOf(source, limits, i).Ok?
    ensures match Audit(source, limits, i)
            case Ok(st) => Finished(EnvOf(source, limits, i).value, st) && Balanced(st) && st.chainRecords == ChainCount(st.records)
            case Err(e) => e == AuditLimit
  {
    EnvHolds(source, limits, i);
    OuterAuditable(source, i);
    forall m: nat | m < |i.members| ensures Auditable(source, i.collection.segments, i.members[m]) {
      MemberAuditable(source, i, m);
    }
    NothingRecorded(EnvOf(source, limits, i).value);
    hide Accepted, EnvOf, EnvOk, StateOk, AuditImage, AuditMembers, AuditOverlaps, Auditable, Finished, ChainCount, LimitsOk;
    var env := EnvOf(source, limits, i).value;
    ImageSafe(env, i.collection.segments, NO_RECORDS, 0, i.collection);
    var outer := AuditImage(env, NO_RECORDS, 0, i.collection);
    if outer.Ok? {
      MembersSafe(env, i.collection.segments, outer.value, i.members, 0);
      var members := AuditMembers(env, outer.value, i.members, 0);
      if members.Ok? {
        OverlapsSafe(env, members.value);
        if AuditOverlaps(env, members.value).Ok? {
          FinishedCounts(env, AuditOverlaps(env, members.value).value);
        }
      }
    }
  }

  lemma NothingRecorded(env: Env)
    ensures StateOk(env, NO_RECORDS) && Balanced(NO_RECORDS)
  {
  }

  lemma FinishedCounts(env: Env, st: State)
    requires Finished(env, st)
    ensures Balanced(st) && st.chainRecords == ChainCount(st.records) && RecordsOk(env, st.records)
  {
    hide RecordOk, RecordClean, ConflictCode;
  }

  //////////////////////////////////////////////////////////////////////////////
  // The conflicts of a finished audit
  //////////////////////////////////////////////////////////////////////////////

  predicate Writes(records: seq<Record>, a: nat) {
    a < |records| && records[a].file.Some? && records[a].address.Some?
  }

  predicate Chains(records: seq<Record>, a: nat) {
    Writes(records, a) && records[a].detail.Chain11?
  }

  /** Two different file-backed records write a byte in common. */
  predicate Colliding(records: seq<Record>, a: nat, b: nat) {
    && a != b && Writes(records, a) && Writes(records, b)
    && O.Intersect(WriteOf(records[a], a), WriteOf(records[b], b))
  }

  /** Two chain records are visits of the same address. */
  predicate SameVisit(records: seq<Record>, a: nat, b: nat) {
    a != b && Chains(records, a) && Chains(records, b) && records[a].address == records[b].address
  }

  predicate SameMechanism(records: seq<Record>, a: nat, b: nat) {
    a < |records| && b < |records| && (records[a].detail.Chain11? <==> records[b].detail.Chain11?)
  }

  /** A conflict issue tells the truth about the two records it names. */
  predicate Truthful(records: seq<Record>, issue: Issue) {
    ConflictCode(issue.code) ==>
      && issue.record.Some? && issue.related.Some?
      && issue.record.value < |records| && issue.image == records[issue.record.value].image
      && (issue.code == DuplicateChainVisit ==> SameVisit(records, issue.record.value, issue.related.value))
      && (issue.code == SameMechanismWriteOverlap ==>
            Colliding(records, issue.record.value, issue.related.value) && SameMechanism(records, issue.record.value, issue.related.value))
      && (issue.code == CrossMechanismWriteOverlap ==>
            Colliding(records, issue.record.value, issue.related.value) && !SameMechanism(records, issue.record.value, issue.related.value))
  }

  /** The later write w and the earlier write v conflict as c says. */
  predicate Between(v: O.Write, w: O.Write, c: O.Conflict) {
    && c.record == w.record && c.other == v.record && v.record != w.record
    && match c
       case DuplicateVisit(_, _) => v.mechanism == O.ChainWrite && w.mechanism == O.ChainWrite && v.address == w.address
       case SameOverlap(_, _) => v.mechanism == w.mechanism && O.Intersect(v, w)
       case CrossOverlap(_, _) => v.mechanism != w.mechanism && O.Intersect(v, w)
  }

  lemma BetweenTruthful(records: seq<Record>, v: O.Write, w: O.Write, c: O.Conflict)
    requires WrittenBy(records, v) && WrittenBy(records, w) && Between(v, w, c)
    ensures Truthful(records, ConflictIssue(records, c))
  {
  }

  lemma ClashBetween(ws: seq<O.Write>, c: O.Conflict) returns (v: O.Write, w: O.Write)
    requires O.InOrder(ws) && O.Clashes(ws, c)
    ensures v in ws && w in ws && Between(v, w, c)
  {
    hide O.Intersect;
    var p: nat, q: nat :| O.Clash(ws, p, q, c);
    v, w := ws[p], ws[q];
    DifferentRecords(ws, p, q);
  }

  lemma ConflictTruthful(env: Env, records: seq<Record>, c: O.Conflict)
    requires RecordsOk(env, records) && c in O.Sweep(OrderedWrites(records))
    ensures Truthful(records, ConflictIssue(records, c))
  {
    hide *;
    var ws := OrderedWrites(records);
    OrderedWritesExact(env, records);
    O.SweepSound(ws, c);
    var v, w := ClashBetween(ws, c);
    BetweenTruthful(records, v, w, c);
  }

  lemma DifferentRecords(ws: seq<O.Write>, p: nat, q: nat)
    requires O.InOrder(ws) && p < q < |ws|
    ensures ws[p].record != ws[q].record
  {
  }

  /** An issue of a finished audit is no conflict, or reports a conflict of the sweep. */
  lemma IssueOrigin(env: Env, st: State, k: nat) returns (c: Option<O.Conflict>)
    requires Finished(env, st) && k < |st.issues|
    ensures RecordsOk(env, st.records)
    ensures c.None? ==> !ConflictCode(st.issues[k].code)
    ensures c.Some? ==> c.value in O.Sweep(OrderedWrites(st.records)) && st.issues[k] == ConflictIssue(st.records, c.value)
  {
    hide OrderedWrites, O.Sweep, RecordOk, RecordClean, ConflictIssue, ConflictCode, ChainCount;
    var before: State :| StateOk(env, before) && st == before.(issues := before.issues + ConflictList(before.records, O.Sweep(OrderedWrites(before.records))));
    if k < |before.issues| {
      assert st.issues[k] == before.issues[k];
      c := None;
    } else {
      c := Some(O.Sweep(OrderedWrites(before.records))[k - |before.issues|]);
    }
  }

  /** Every conflict issue of a finished audit is true of the records it names. */
  lemma ConflictsSound(env: Env, st: State, k: nat)
    requires Finished(env, st) && k < |st.issues|
    ensures Truthful(st.records, st.issues[k])
  {
    hide *;
    var c := IssueOrigin(env, st, k);
    if c.Some? {
      ConflictTruthful(env, st.records, c.value);
    } else {
      Innocent(st.records, st.issues[k]);
    }
  }

  lemma Innocent(records: seq<Record>, issue: Issue)
    requires !ConflictCode(issue.code)
    ensures Truthful(records, issue)
  {
  }

  /** What a pair of records has to be reported as. */
  predicate Deserves(records: seq<Record>, a: nat, b: nat, code: IssueCode) {
    || (code == DuplicateChainVisit && SameVisit(records, a, b))
    || (code == SameMechanismWriteOverlap && Colliding(records, a, b) && SameMechanism(records, a, b))
    || (code == CrossMechanismWriteOverlap && Colliding(records, a, b) && !SameMechanism(records, a, b))
  }

  predicate Reports(issue: Issue, code: IssueCode, a: nat, b: nat) {
    issue.code == code && (issue.record == Some(a) || issue.record == Some(b))
  }

  ghost predicate Reported(st: State, code: IssueCode, a: nat, b: nat) {
    exists k :: 0 <= k < |st.issues| && Reports(st.issues[k], code, a, b)
  }

  /** Every pair of records in conflict is reported at one of the two, in its own kind. */
  lemma ConflictsComplete(env: Env, st: State, a: nat, b: nat, code: IssueCode)
    requires Finished(env, st) && Deserves(st.records, a, b, code)
    ensures Reported(st, code, a, b)
  {
    hide *;
    FinishedCounts(env, st);
    var c := ConflictFound(env, st.records, a, b, code);
    var k := ConflictReported(env, st, c);
    IssueOfConflict(st.records, c, code, a, b);
    ReportedAt(st, k, code, a, b);
  }

  lemma ReportedAt(st: State, k: nat, code: IssueCode, a: nat, b: nat)
    requires k < |st.issues| && Reports(st.issues[k], code, a, b)
    ensures Reported(st, code, a, b)
  {
    hide Reports;
  }

  /** Every conflict of the sweep is among the issues. */
  lemma ConflictReported(env: Env, st: State, c: O.Conflict) returns (k: nat)
    requires Finished(env, st) && c in O.Sweep(OrderedWrites(st.records))
    ensures k < |st.issues| && st.issues[k] == ConflictIssue(st.records, c)
  {
    hide OrderedWrites, O.Sweep, RecordOk, RecordClean, ConflictIssue, ConflictCode, ChainCount;
    var before: State :| StateOk(env, before) && st == before.(issues := before.issues + ConflictList(before.records, O.Sweep(OrderedWrites(before.records))));
    var conflicts := O.Sweep(OrderedWrites(before.records));
    var j :| 0 <= j < |conflicts| && conflicts[j] == c;
    k := |before.issues| + j;
  }

  predicate CodeOf(c: O.Conflict, code: IssueCode) {
    match c
    case DuplicateVisit(_, _) => code == DuplicateChainVisit
    case SameOverlap(_, _) => code == SameMechanismWriteOverlap
    case CrossOverlap(_, _) => code == CrossMechanismWriteOverlap
  }

  lemma IssueOfConflict(records: seq<Record>, c: O.Conflict, code: IssueCode, a: nat, b: nat)
    requires CodeOf(c, code) && (c.record == a || c.record == b)
    ensures Reports(ConflictIssue(records, c), code, a, b)
  {
  }

  function Guess(code: IssueCode, record: nat, other: nat): O.Conflict {
    if code == DuplicateChainVisit then O.DuplicateVisit(record, other)
    else if code == SameMechanismWriteOverlap then O.SameOverlap(record, other)
    else O.CrossOverlap(record, other)
  }

  lemma DeservedClash(records: seq<Record>, ws: seq<O.Write>, p: nat, q: nat, code: IssueCode)
    requires p < q < |ws| && WrittenBy(records, ws[p]) && WrittenBy(records, ws[q])
    requires Deserves(records, ws[p].record, ws[q].record, code) || Deserves(records, ws[q].record, ws[p].record, code)
    ensures O.Clash(ws, p, q, Guess(code, ws[q].record, ws[p].record))
    ensures CodeOf(Guess(code, ws[q].record, ws[p].record), code)
  {
  }

  lemma DeservesWrites(records: seq<Record>, a: nat, b: nat, code: IssueCode)
    requires Deserves(records, a, b, code)
    ensures a != b && Writes(records, a) && Writes(records, b)
    ensures WrittenBy(records, WriteOf(records[a], a)) && WrittenBy(records, WriteOf(records[b], b))
  {
  }

  lemma WritePosition(env: Env, records: seq<Record>, a: nat) returns (i: nat)
    requires RecordsOk(env, records) && Writes(records, a) && WrittenBy(records, WriteOf(records[a], a))
    ensures i < |OrderedWrites(records)| && OrderedWrites(records)[i] == WriteOf(records[a], a)
  {
    OrderedWritesExact(env, records);
    hide OrderedWrites, WrittenBy, RecordsOk, O.InOrder, EndsFit;
    var ws := OrderedWrites(records);
    i :| 0 <= i < |ws| && ws[i] == WriteOf(records[a], a);
  }

  lemma ConflictFound(env: Env, records: seq<Record>, a: nat, b: nat, code: IssueCode) returns (c: O.Conflict)
    requires RecordsOk(env, records) && Deserves(records, a, b, code)
    ensures c in O.Sweep(OrderedWrites(records)) && CodeOf(c, code) && (c.record == a || c.record == b)
  {
    DeservesWrites(records, a, b, code);
    hide OrderedWrites, O.Sweep, O.InOrder, EndsFit, RecordsOk, Deserves, WrittenBy, O.Clash, Guess, CodeOf;
    OrderedWritesExact(env, records);
    var ws := OrderedWrites(records);
    var i := WritePosition(env, records, a);
    var j := WritePosition(env, records, b);
    var p, q := if i < j then i else j, if i < j then j else i;
    DeservedClash(records, ws, p, q, code);
    GuessRecord(code, ws[q].record, ws[p].record);
    c := O.SweepComplete(ws, p, q, Guess(code, ws[q].record, ws[p].record));
    SameKind(code, c, Guess(code, ws[q].record, ws[p].record));
  }

  lemma GuessRecord(code: IssueCode, record: nat, other: nat)
    ensures Guess(code, record, other).record == record
  {
  }

  lemma SameKind(code: IssueCode, c: O.Conflict, d: O.Conflict)
    requires CodeOf(d, code) && c.DuplicateVisit? == d.DuplicateVisit? && c.SameOverlap? == d.SameOverlap?
    ensures CodeOf(c, code)
  {
  }

  /** An audit without issues: every record is clean, and no two file-backed records write a byte in common. */
  lemma CleanAudit(env: Env, st: State)
    requires Finished(env, st) && st.issues == []
    ensures RecordsOk(env, st.records)
    ensures forall a: nat :: a < |st.records| ==> RecordClean(st.records[a])
    ensures forall a: nat, b: nat :: a < |st.records| && b < |st.records| ==> !Colliding(st.records, a, b)
  {
    forall a: nat, b: nat | a < |st.records| && b < |st.records| ensures !Colliding(st.records, a, b) {
      if Colliding(st.records, a, b) {
        var code := if SameMechanism(st.records, a, b) then SameMechanismWriteOverlap else CrossMechanismWriteOverlap;
        ConflictsComplete(env, st, a, b, code);
      }
    }
    FinishedCounts(env, st);
    hide RecordOk, RecordClean, ConflictCode, O.Sweep, OrderedWrites;
    var before: State :| StateOk(env, before) && st == before.(issues := before.issues + ConflictList(before.records, O.Sweep(OrderedWrites(before.records))));
    assert |before.issues| == 0;
  }

  /** The members a record is said to overlap are exactly those with memory in its write. */
  lemma MemberOverlapExact(source: seq<byte>, limits: Limits, i: Inspection, address: nat, width: nat)
    requires Accepted(source, i) && EnvOf(source, limits, i).Ok? && width > 0 && Fits64(address + width)
    ensures var (executable, kext) := (AnyMeets(KindSpans(i.members, 2), Span(address, address + width)), AnyMeets(KindSpans(i.members, 11), Span(address, address + width)));
            OverlapOf(EnvOf(source, limits, i).value, Some(address), width)
            == if executable && kext then BothMembers else if executable then ExecutableMember else if kext then KextMember else OuterOnly
  {
    hide *;
    EnvHolds(source, limits, i);
    KindSpansNonempty(source, i, 2);
    KindSpansNonempty(source, i, 11);
    QueryNonempty(address, width);
    MergedLookupExact(KindSpans(i.members, 2), Span(address, address + width));
    MergedLookupExact(KindSpans(i.members, 11), Span(address, address + width));
    OverlapByReach(EnvOf(source, limits, i).value, address, width);
  }

  lemma QueryNonempty(address: nat, width: nat)
    requires width > 0
    ensures Nonempty(Span(address, address + width))
  {
  }

  lemma KindSpansNonempty(source: seq<byte>, i: Inspection, fileType: u32)
    requires Accepted(source, i)
    ensures AllNonempty(KindSpans(i.members, fileType))
  {
    hide *;
    forall m: nat | m < |i.members| ensures Auditable(source, i.collection.segments, i.members[m]) {
      MemberAuditable(source, i, m);
    }
    KindSpansFit(source, i.collection.segments, i.members, fileType);
  }

  lemma OverlapByReach(env: Env, address: nat, width: nat)
    requires Fits64(address + width)
    ensures var (executable, kext) := (Reaches(env.executable, Span(address, address + width)), Reaches(env.kext, Span(address, address + width)));
            OverlapOf(env, Some(address), width)
            == if executable && kext then BothMembers else if executable then ExecutableMember else if kext then KextMember else OuterOnly
  {
    hide Reaches;
  }
}
