/**
 The audit as the object the program keeps: methods push records and issues and move the counters.
 Each is proved against the audit as a function of its state.
 */
module FixupAuditor {
  import opened Wrappers
  import opened Words
  import opened C = Collection
  import opened FixupAudit
  import AuditSafety
  import E = AuditExact
  import O = OverlapSweep

  /** A call ended as the function says: in its state, or with its error. */
  ghost predicate Ends(spec: Result<State, AuditError>, r: Result<(), AuditError>, now: State) {
    if spec.Ok? then r.Ok? && now == spec.value else r == Err(spec.error)
  }

  class Auditor {
    const env: Env
    var records: seq<Record>
    var issues: seq<Issue>
    var pageStarts: nat
    var chainStarts: nat
    var chainsTerminated: nat
    var chainRecords: nat
    var classicRecords: nat
    var multiStartPages: nat

    ghost function Now(): State
      reads this
    {
      State(records, issues, pageStarts, chainStarts, chainsTerminated, chainRecords, classicRecords, multiStartPages)
    }

    constructor (env: Env)
      ensures this.env == env && Now() == NO_RECORDS
    {
      this.env := env;
      records, issues := [], [];
      pageStarts, chainStarts, chainsTerminated, chainRecords, classicRecords, multiStartPages := 0, 0, 0, 0, 0, 0;
    }

    method PushIssue(issue: Issue) returns (r: Result<(), AuditError>)
      modifies this
      ensures Ends(AddIssue(env, old(Now()), issue), r, Now())
      ensures r.Err? ==> Now() == old(Now())
    {
      if |issues| >= env.limits.issues {
        return Err(AuditLimit);
      }
      issues := issues + [issue];
      return Ok(());
    }

    method PushIssues(image: nat, record: Option<nat>, codes: seq<IssueCode>) returns (r: Result<(), AuditError>)
      modifies this
      ensures Ends(AddIssues(env, old(Now()), image, record, codes), r, Now())
    {
      var k := 0;
      while k < |codes|
        invariant 0 <= k <= |codes|
        invariant AddIssues(env, old(Now()), image, record, codes) == AddIssues(env, Now(), image, record, codes[k..])
      {
        r := PushIssue(Issue(codes[k], image, record, None));
        if r.Err? {
          return;
        }
        k := k + 1;
      }
      return Ok(());
    }

    method PushRecord(record: Record) returns (r: Result<nat, AuditError>)
      modifies this
      ensures AddRecord(env, old(Now()), record).Ok? ==> r == Ok(|old(records)|) && Now() == AddRecord(env, old(Now()), record).value
      ensures AddRecord(env, old(Now()), record).Err? ==> r == Err(AuditLimit)
    {
      if |records| >= env.limits.records {
        return Err(AuditLimit);
      }
      records := records + [record];
      return Ok(|records| - 1);
    }

    method PageStart() returns (r: Result<(), AuditError>)
      modifies this
      ensures Ends(VisitPageStart(env, old(Now())), r, Now())
    {
      if pageStarts >= env.limits.pageStarts {
        return Err(AuditLimit);
      }
      pageStarts := pageStarts + 1;
      return Ok(());
    }

    /** A table of classic relocations. */
    method ClassicTable(c: ClassicContext) returns (r: Result<(), AuditError>)
      modifies this
      ensures Ends(ClassicFrom(env, old(Now()), c, 0), r, Now())
      ensures E.Searches(env) && E.Within(env, old(Now())) && c.records.Range().End() <= |env.source| && r.Ok? ==>
                E.TableLeft(env, old(records), records, c)
    {
      hide ClassicRecord, ClassicCodes, AddIssues, ReadWord, E.TableLeft, E.Within, E.Searches;
      if E.Searches(env) && E.Within(env, Now()) && c.records.Range().End() <= |env.source| && ClassicFrom(env, Now(), c, 0).Ok? {
        E.TableRecords(env, Now(), c);
      }
      var k: nat := 0;
      while k < c.records.count
        invariant k <= c.records.count
        invariant ClassicFrom(env, old(Now()), c, 0) == ClassicFrom(env, Now(), c, k)
      {
        var at := c.records.offset + 8 * k;
        var low := ReadWord(env.source, at, 4);
        if low.Err? {
          return Err(low.error);
        }
        var info := ReadWord(env.source, at + 4, 4);
        if info.Err? {
          return Err(info.error);
        }
        ReadBounded(env.source, at);
        var record := ClassicRecord(env, c, at, low.value, info.value);
        if record.Err? {
          return Err(record.error);
        }
        ClassicShape(env, c, at, low.value, info.value);
        var index := PushRecord(record.value);
        if index.Err? {
          return Err(index.error);
        }
        classicRecords := classicRecords + 1;
        r := PushIssues(c.image, Some(index.value), ClassicCodes(c, record.value));
        if r.Err? {
          return;
        }
        k := k + 1;
      }
      return Ok(());
    }

    /** One chain, from its start to a word that ends it or leaves its page or file bytes. */
    method WalkChain(c: ChainContext, start: nat) returns (r: Result<(), AuditError>)
      modifies this
      ensures Ends(StartChain(env, old(Now()), c, start), r, Now())
      ensures E.Placed(env, c) && E.Within(env, old(Now())) && start <= 0x1_0000 && r.Ok? ==>
                E.ChainLeft(env, old(records), records, c, start)
    {
      hide RecordWord, FileLocation, E.ChainLeft, E.Within, E.Placed;
      if E.Placed(env, c) && E.Within(env, Now()) && start <= 0x1_0000 && StartChain(env, Now(), c, start).Ok? {
        E.ChainRecords(env, Now(), c, start);
      }
      if !Fits64(c.offset) {
        return Err(AuditOverflow);
      }
      chainStarts := chainStarts + 1;
      ghost var begun := Now();
      var inPage := start;
      while true
        invariant ChainFrom(env, begun, c, start) == ChainFrom(env, Now(), c, inPage)
        decreases if inPage < c.pageSize then c.pageSize - inPage else 0
      {
        if inPage >= c.pageSize {
          r := PushIssue(Issue(ChainOutsidePage, c.image, None, None));
          return;
        }
        var offset := c.offset + inPage;
        if !Fits64(offset) {
          return Err(AuditOverflow);
        }
        if !Fits64(offset + 8) || offset + 8 > c.segment.file.size || offset + 8 > c.segment.memorySize {
          r := PushIssue(Issue(ChainOutsideFileMapping, c.image, None, None));
          return;
        }
        if !Fits64(c.segment.address + offset) || !Fits64(c.segment.file.offset + offset) {
          return Err(AuditOverflow);
        }
        var address, file := c.segment.address + offset, c.segment.file.offset + offset;
        if FileLocation(env.outer, address, 8) != Some(file) {
          r := PushIssue(Issue(ChainOutsideFileMapping, c.image, None, None));
          return;
        }
        var next := PushWord(c, address, file);
        if next.Err? {
          return Err(next.error);
        }
        if next.value == 0 {
          chainsTerminated := chainsTerminated + 1;
          return Ok(());
        }
        if !Fits64(inPage + next.value) {
          return Err(AuditOverflow);
        }
        inPage := inPage + next.value;
      }
    }

    method PushWord(c: ChainContext, address: nat, file: nat) returns (next: Result<nat, AuditError>)
      modifies this
      ensures var spec := RecordWord(env, old(Now()), c, address, file);
              if spec.Ok? then next == Ok(spec.value.next) && Now() == spec.value.state else next == Err(spec.error)
    {
      hide ChainRecord, ChainCodes, AddIssues, ReadWord;
      var word := ReadWord(env.source, file, 8);
      if word.Err? {
        return Err(word.error);
      }
      ReadBounded(env.source, file);
      var record := ChainRecord(env, c, address, file, word.value);
      ChainShape(env, c, address, file, word.value);
      var index := PushRecord(record);
      if index.Err? {
        return Err(index.error);
      }
      chainRecords := chainRecords + 1;
      var r := PushIssues(c.image, Some(index.value), ChainCodes(env, record));
      if r.Err? {
        return Err(r.error);
      }
      return Ok(record.detail.next);
    }

    /** The list of starts of one page. */
    method WalkStarts(c: ChainContext, infoEnd: nat, from: nat) returns (r: Result<(), AuditError>)
      modifies this
      ensures Ends(StartsFrom(env, old(Now()), c, infoEnd, from), r, Now())
    {
      hide StartChain, ReadWord;
      var at := from;
      while true
        invariant StartsFrom(env, old(Now()), c, infoEnd, from) == StartsFrom(env, Now(), c, infoEnd, at)
        decreases if at < infoEnd then infoEnd - at else 0
      {
        r := PageStart();
        if r.Err? {
          return;
        }
        if !Fits64(at + 2) {
          return Err(AuditOverflow);
        }
        if at + 2 > infoEnd {
          return Err(InvalidMetadata);
        }
        var start := ReadWord(env.source, at, 2);
        if start.Err? {
          return Err(start.error);
        }
        r := WalkChain(c, start.value % 0x8000);
        if r.Err? {
          return;
        }
        if start.value >= 0x8000 {
          return;
        }
        at := at + 2;
      }
    }

    method WalkPage(c: ChainContext, info: nat, infoEnd: nat) returns (r: Result<(), AuditError>)
      modifies this
      ensures Ends(PageAt(env, old(Now()), c, info, infoEnd), r, Now())
    {
      hide StartChain, StartsFrom, ReadWord;
      r := PageStart();
      if r.Err? {
        return;
      }
      var first := ReadWord(env.source, info + 22 + c.page * 2, 2);
      if first.Err? {
        return Err(first.error);
      }
      if first.value == 0xffff {
        return;
      }
      if first.value < 0x8000 {
        r := WalkChain(c, first.value);
        return;
      }
      multiStartPages := multiStartPages + 1;
      r := PushIssue(Issue(UnsupportedMultiStartConsumer, c.image, None, None));
      if r.Err? {
        return;
      }
      r := WalkStarts(c, infoEnd, info + 22 + (first.value % 0x8000) * 2);
    }

    method WalkSegment(image: nat, i: Image, starts: nat, f: FixupSegment) returns (r: Result<(), AuditError>)
      modifies this
      ensures Ends(SegmentFixups(env, old(Now()), image, i, starts, f), r, Now())
    {
      hide PageAt, ReadWord, WrapSub;
      if f.pointerFormat != 11 {
        r := PushIssue(Issue(UnsupportedPointerFormat, image, None, None));
        return;
      }
      if f.segmentIndex >= |i.segments| || f.segmentOffset != WrapSub(i.segments[f.segmentIndex].address, i.headerAddress) {
        return Err(InvalidMetadata);
      }
      var segment := i.segments[f.segmentIndex];
      var offset := ReadWord(env.source, starts + 4 + f.segmentIndex * 4, 4);
      if offset.Err? {
        return Err(offset.error);
      }
      var size := ReadWord(env.source, starts + offset.value, 4);
      if size.Err? {
        return Err(size.error);
      }
      var info := starts + offset.value;
      var page: nat := 0;
      while page < f.pageCount
        invariant page <= f.pageCount
        invariant PagesFrom(env, old(Now()), image, segment, f, info, info + size.value, 0)
               == PagesFrom(env, Now(), image, segment, f, info, info + size.value, page)
      {
        r := WalkPage(ChainContext(image, f.segmentIndex, page, segment, f.pageSize, page * f.pageSize), info, info + size.value);
        if r.Err? {
          return;
        }
        page := page + 1;
      }
      return Ok(());
    }

    method WalkFixups(image: nat, i: Image) returns (r: Result<(), AuditError>)
      modifies this
      ensures Ends(ImageFixups(env, old(Now()), image, i), r, Now())
    {
      hide SegmentFixups, ReadWord;
      if i.fixups.None? {
        return Ok(());
      }
      var f := i.fixups.value;
      if f.importsCount != 0 {
        r := PushIssue(Issue(UnsupportedImports, image, None, None));
        if r.Err? {
          return;
        }
      }
      if f.symbolsFormat != 0 {
        r := PushIssue(Issue(UnsupportedCompressedSymbols, image, None, None));
        if r.Err? {
          return;
        }
      }
      var relative := ReadWord(env.source, f.file.offset + 4, 4);
      if relative.Err? {
        return Err(relative.error);
      }
      var starts := f.file.offset + relative.value;
      ghost var begun := Now();
      var k: nat := 0;
      while k < |f.segments|
        invariant k <= |f.segments|
        invariant FixupsFrom(env, begun, image, i, starts, f.segments, 0) == FixupsFrom(env, Now(), image, i, starts, f.segments, k)
      {
        r := WalkSegment(image, i, starts, f.segments[k]);
        if r.Err? {
          return;
        }
        k := k + 1;
      }
      return Ok(());
    }

    method WalkSections(image: nat, maps: seq<Mapping>, segments: seq<Segment>) returns (r: Result<(), AuditError>)
      modifies this
      ensures Ends(SectionsFrom(env, old(Now()), image, maps, AllSections(segments)), r, Now())
    {
      hide ClassicFrom, AllSections;
      var sections := AllSections(segments);
      var k := 0;
      while k < |sections|
        invariant 0 <= k <= |sections|
        invariant SectionsFrom(env, old(Now()), image, maps, sections) == SectionsFrom(env, Now(), image, maps, sections[k..])
      {
        var s := sections[k];
        r := ClassicTable(ClassicContext(image, Some(s.size), maps, SectionTable, s.relocations, Some(s.address)));
        if r.Err? {
          return;
        }
        assert sections[k..][1..] == sections[k + 1..];
        k := k + 1;
      }
      return Ok(());
    }

    method WalkImage(image: nat, i: Image) returns (r: Result<(), AuditError>)
      modifies this
      ensures Ends(AuditImage(env, old(Now()), image, i), r, Now())
    {
      hide ClassicFrom, SectionsFrom, ImageFixups, Mappings, ClassicBase, AllSections;
      var maps := Mappings(i.segments);
      if maps.Err? {
        return Err(maps.error);
      }
      if i.relocations.Some? {
        r := ClassicTable(ClassicContext(image, None, maps.value, LocalDynamic, i.relocations.value.local, ClassicBase(i)));
        if r.Err? {
          return;
        }
        r := ClassicTable(ClassicContext(image, None, maps.value, ExternalDynamic, i.relocations.value.external, ClassicBase(i)));
        if r.Err? {
          return;
        }
      }
      r := WalkSections(image, maps.value, i.segments);
      if r.Err? {
        return;
      }
      r := WalkFixups(image, i);
    }

    /** The sweep: the furthest write of each mechanism, the last chain write, and an issue for every conflict. */
    method WalkOverlaps() returns (r: Result<(), AuditError>)
      modifies this
      ensures Ends(AuditOverlaps(env, old(Now())), r, Now())
    {
      hide OrderedWrites, EndsFit, ConflictIssue, O.Report, O.Furthest, O.LastChain;
      var ordered := OrderedWrites(records);
      if !EndsFit(ordered) {
        return Err(AuditOverflow);
      }
      ghost var begun := Now();
      var classic, chain: Option<O.Reach> := None, None;
      var last: Option<O.Write> := None;
      var k: nat := 0;
      NothingSwept(ordered);
      while k < |ordered|
        invariant k <= |ordered|
        invariant classic == O.Furthest(ordered[..k], O.ClassicWrite) && chain == O.Furthest(ordered[..k], O.ChainWrite)
        invariant last == O.LastChain(ordered[..k])
        invariant Now().records == begun.records
        invariant AddConflicts(env, begun, O.Sweep(ordered[..k])) == Ok(Now())
      {
        var w := ordered[k];
        var found := O.Duplicate(last, w) + O.Overlapping(classic, O.ClassicWrite, w) + O.Overlapping(chain, O.ChainWrite, w);
        SweepStep(ordered, k);
        ConflictsJoin(env, begun, O.Sweep(ordered[..k]), found);
        r := PushConflicts(found);
        if r.Err? {
          SweepPrefix(env, begun, ordered, k + 1);
          return;
        }
        classic, chain := O.Extend(classic, w, O.ClassicWrite), O.Extend(chain, w, O.ChainWrite);
        if w.mechanism == O.ChainWrite {
          last := Some(w);
        }
        k := k + 1;
      }
      assert ordered[..k] == ordered;
      return Ok(());
    }

    method PushConflicts(conflicts: seq<O.Conflict>) returns (r: Result<(), AuditError>)
      modifies this
      ensures Ends(AddConflicts(env, old(Now()), conflicts), r, Now())
      ensures Now().records == old(Now()).records
    {
      hide ConflictIssue;
      var k := 0;
      while k < |conflicts|
        invariant 0 <= k <= |conflicts|
        invariant Now().records == old(Now()).records
        invariant AddConflicts(env, old(Now()), conflicts) == AddConflicts(env, Now(), conflicts[k..])
      {
        r := PushIssue(ConflictIssue(records, conflicts[k]));
        if r.Err? {
          return;
        }
        k := k + 1;
      }
      return Ok(());
    }
  }

  lemma ReadBounded(source: seq<byte>, at: nat)
    ensures ReadWord(source, at, 4).Ok? ==> ReadWord(source, at, 4).value < U32_LIMIT
    ensures ReadWord(source, at + 4, 4).Ok? ==> ReadWord(source, at + 4, 4).value < U32_LIMIT
    ensures ReadWord(source, at, 8).Ok? ==> ReadWord(source, at, 8).value < U64_LIMIT
  {
    hide Word;
    if at + 4 <= |source| {
      WordBounds(source, at);
    }
    if at + 8 <= |source| {
      WordBounds(source, at + 4);
    }
  }

  lemma ClassicShape(env: Env, c: ClassicContext, at: nat, low: u32, info: u32)
    ensures ClassicRecord(env, c, at, low, info).Ok? ==> ClassicRecord(env, c, at, low, info).value.detail.Classic?
  {
    hide OverlapOf, FileLocation, Word;
  }

  lemma ChainShape(env: Env, c: ChainContext, address: nat, file: nat, word: u64)
    ensures ChainRecord(env, c, address, file, word).detail.Chain11? && ChainRecord(env, c, address, file, word).image == c.image
  {
    hide OverlapOf, Resolved, TargetCovered;
  }

  lemma NothingSwept(ws: seq<O.Write>)
    ensures ws[..0] == [] && O.Sweep([]) == [] && O.LastChain([]) == None
    ensures O.Furthest([], O.ClassicWrite) == None && O.Furthest([], O.ChainWrite) == None
  {
  }

  lemma SweepStep(ws: seq<O.Write>, k: nat)
    requires k < |ws|
    ensures O.Sweep(ws[..k + 1]) == O.Sweep(ws[..k]) + O.Report(ws[..k], ws[k])
    ensures O.Report(ws[..k], ws[k]) == O.Duplicate(O.LastChain(ws[..k]), ws[k]) + O.Overlapping(O.Furthest(ws[..k], O.ClassicWrite), O.ClassicWrite, ws[k])
              + O.Overlapping(O.Furthest(ws[..k], O.ChainWrite), O.ChainWrite, ws[k])
    ensures forall m :: O.Furthest(ws[..k + 1], m) == O.Extend(O.Furthest(ws[..k], m), ws[k], m)
    ensures O.LastChain(ws[..k + 1]) == if ws[k].mechanism == O.ChainWrite then Some(ws[k]) else O.LastChain(ws[..k])
  {
    assert ws[..k + 1][..k] == ws[..k];
  }

  /** Reporting two lists one after the other is reporting their sum. */
  lemma {:induction false} ConflictsJoin(env: Env, st: State, a: seq<O.Conflict>, b: seq<O.Conflict>)
    ensures AddConflicts(env, st, a + b) == (var next := AddConflicts(env, st, a); if next.Ok? then AddConflicts(env, next.value, b) else next)
    decreases |a|
  {
    hide ConflictIssue;
    if a == [] {
      assert a + b == b;
    } else {
      var next := AddIssue(env, st, ConflictIssue(st.records, a[0]));
      assert (a + b)[1..] == a[1..] + b;
      if next.Ok? {
        ConflictsJoin(env, next.value, a[1..], b);
      }
    }
  }

  /** If the reports of the first writes go over the limit, so do all of them. */
  lemma {:induction false} SweepPrefix(env: Env, st: State, ws: seq<O.Write>, k: nat)
    requires k <= |ws| && AddConflicts(env, st, O.Sweep(ws[..k])).Err?
    ensures AddConflicts(env, st, O.Sweep(ws)) == AddConflicts(env, st, O.Sweep(ws[..k]))
    decreases |ws| - k
  {
    hide O.Report;
    if k == |ws| {
      assert ws[..k] == ws;
    } else {
      SweepStep(ws, k);
      ConflictsJoin(env, st, O.Sweep(ws[..k]), O.Report(ws[..k], ws[k]));
      SweepPrefix(env, st, ws, k + 1);
    }
  }

  /** `audit_kernel_collection_with_limits`, after the inspection. */
  method RunAudit(source: seq<byte>, limits: Limits, i: Inspection) returns (r: Result<Auditor, AuditError>)
    ensures r.Ok? ==> fresh(r.value) && Audit(source, limits, i) == Ok(r.value.Now())
    ensures r.Err? ==> Audit(source, limits, i) == Err(r.error)
    ensures r.Ok? && Accepted(source, i) ==> E.RecordsAre(source, i, r.value.records)
    ensures r.Err? && Accepted(source, i) ==> r.error == if LimitsOk(limits) then AuditLimit else InvalidLimits
  {
    hide EnvOf, AuditImage, AuditOverlaps, LimitsOk, Accepted, E.RecordsAre, AuditSafety.Finished;
    if Accepted(source, i) && LimitsOk(limits) {
      AuditSafety.AuditOnlyLimits(source, limits, i);
      if Audit(source, limits, i).Ok? {
        E.AllRecordsExact(source, limits, i);
      }
    }
    if !LimitsOk(limits) {
      return Err(InvalidLimits);
    }
    var env := EnvOf(source, limits, i);
    if env.Err? {
      return Err(env.error);
    }
    var audit := new Auditor(env.value);
    var done := audit.WalkImage(0, i.collection);
    if done.Err? {
      return Err(done.error);
    }
    ghost var outer := audit.Now();
    var k: nat := 0;
    while k < |i.members|
      invariant k <= |i.members| && audit.env == env.value && fresh(audit)
      invariant AuditMembers(env.value, outer, i.members, 0) == AuditMembers(env.value, audit.Now(), i.members, k)
    {
      done := audit.WalkImage(k + 1, i.members[k]);
      if done.Err? {
        return Err(done.error);
      }
      k := k + 1;
    }
    done := audit.WalkOverlaps();
    if done.Err? {
      return Err(done.error);
    }
    return Ok(audit);
  }
}
