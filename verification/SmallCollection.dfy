/**
 A small collection with one relocation that passes every stage: it is inspected, staged, audited and
 rebased. The theorems about accepted collections and about rebase plans therefore speak of something.
 */
module SmallCollection {
  import opened Wrappers
  import opened Words
  import opened Sorting
  import opened Spans
  import opened Collection
  import opened Inspector
  import S = Staging
  import F = FixupAudit
  import O = OverlapSweep
  import T = AuditSafety
  import R = ClassicRebase

  //////////////////////////////////////////////////////////////////////////////
  // The collection
  //////////////////////////////////////////////////////////////////////////////

  /** One relocation record: displacement 800, four bytes wide. */
  const RECORD_BYTES: seq<byte> := [0x20, 0x03, 0, 0, 0, 0, 0, 0x04]

  function Source(): (b: seq<byte>)
    ensures |b| == 2048
  {
    Zeros(1024) + RECORD_BYTES + Zeros(1016)
  }

  /** The first segment: headers and code, writable. */
  const MAIN: Segment := Segment([], 0x1000, 1024, FileRange(0, 1024), 7, 7, 0, [])

  const LINKS: Segment := Segment(LINKEDIT, 0x2000, 64, FileRange(1024, 64), 7, 1, 0, [])

  /** The one segment of the kernel, which is part of the first. */
  const CODE: Segment := Segment([], 0x1200, 512, FileRange(512, 512), 7, 5, 0, [])

  const TABLES: Relocations := Relocations(Records(1024, 1), Records(0, 0))

  const OUTER: Decoded := Decoded(3, 12, 6, 472, [MAIN, LINKS], Some(UnixThread64(0x1320)), [], Some(0), [], Some(TABLES), None)

  const KERNEL: Decoded := Decoded(3, 2, 2, 256, [CODE], None, [], None, [], None, None)

  const MEMBER: Reference := Reference([0x6b], 512, 0x1200, KERNEL)

  function OuterImage(): Image {
    Image(3, 0, 0x1000, 12, 472, [MAIN, LINKS], Some(UnixThread64(0x1320)), Some(TABLES), None)
  }

  function KernelImage(): Image {
    Image(3, 512, 0x1200, 2, 256, [CODE], None, None, None)
  }

  function Whole(): Inspection {
    Inspection(OuterImage(), [KernelImage()])
  }

  //////////////////////////////////////////////////////////////////////////////
  // It is inspected
  //////////////////////////////////////////////////////////////////////////////

  lemma Protections(x: nat)
    requires x < 8
    ensures BitAnd(x, U32_LIMIT - 1 - 7) == 0
  {
    hide BitAnd;
    Pow2Word();
    assert Pow2(3) == 8;
    AndMask(x, 32, 3);
  }

  lemma SmallSegment(bytes: seq<byte>, s: Segment)
    requires InFile(bytes, s.file) && Fits64(s.End()) && s.file.size <= s.memorySize
    requires s.maximumProtection == 7 && s.initialProtection < 8 && s.flags == 0 && s.sections == []
    ensures SegmentValid(bytes, s)
  {
    Protections(s.initialProtection);
    assert BitAnd(0, U32_LIMIT - 1 - 4) == 0;
    hide BitAnd;
  }

  lemma SegmentsAreValid()
    ensures SegmentValid(Source(), MAIN) && SegmentValid(Source(), LINKS) && SegmentValid(Source(), CODE)
  {
    hide Source, SegmentValid;
    SmallSegment(Source(), MAIN);
    SmallSegment(Source(), LINKS);
    SmallSegment(Source(), CODE);
  }

  lemma OuterIsValid()
    ensures ImageValid(Source(), 0, OUTER, true, false, 0x1000)
  {
    SegmentsAreValid();
    hide Source, SegmentValid;
    assert OUTER.segments[0] == MAIN && OUTER.segments[1] == LINKS && |OUTER.segments| == 2;
    assert PlacesHeader(OUTER.segments[0], HeaderRange(0, OUTER), 0x1000);
    assert AllRanges(OUTER) == [FileRange(1024, 8), FileRange(0, 0)];
    assert InLinkedit(OUTER.segments, FileRange(1024, 8)) by { assert Contains(OUTER.segments[1].file, FileRange(1024, 8)); }
  }

  lemma KernelIsValid()
    ensures ImageValid(Source(), 512, KERNEL, false, false, 0x1200)
  {
    SegmentsAreValid();
    hide Source, SegmentValid;
    assert KERNEL.segments[0] == CODE && |KERNEL.segments| == 1;
    assert PlacesHeader(KERNEL.segments[0], HeaderRange(512, KERNEL), 0x1200);
    assert AllRanges(KERNEL) == [];
  }

  lemma PartShown(s: Segment, file: FileRange, address: u64)
    requires s.file.offset <= file.offset && file.End() <= s.file.End() && Fits64(s.file.End())
    requires address == s.address + (file.offset - s.file.offset)
    ensures Shows(s, file, address)
  {
  }

  lemma PartMapped(s: Segment, address: u64, size: u64)
    requires s.address <= address && address + size <= s.End() && Fits64(s.End())
    ensures MapsRange(s, address, size)
  {
  }

  lemma KernelIsShown()
    ensures MemberShown(OUTER.segments, MEMBER)
  {
    hide Shows, MapsRange;
    var outer := OUTER.segments;
    assert outer[0] == MAIN && KERNEL.segments[0] == CODE && |KERNEL.segments| == 1;
    PartShown(outer[0], HeaderRange(512, KERNEL), 0x1200);
    PartShown(outer[0], CODE.file, 0x1200);
    PartMapped(outer[0], 0x1200, 512);
  }

  lemma EntryRunsInMain()
    ensures EntryOf(OUTER)
  {
    assert BitAnd(7, 4) == 2 * BitAnd(3, 2) && BitAnd(3, 2) == 2 * BitAnd(1, 1);
    assert OUTER.segments[0] == MAIN && Runs(OUTER.segments[0], UnixThread64(0x1320));
  }

  lemma IsAffordable()
    ensures Affordable(MembersSpent(Spent(Budget(0, 0, 0), OUTER), [MEMBER]))
  {
    var b := Spent(Budget(0, 0, 0), OUTER);
    assert b == Budget(6, 2, 0) by { assert SectionTotal(OUTER.segments[1..]) == 0; }
    assert Spent(b, KERNEL) == Budget(8, 3, 0) by { assert SectionTotal(KERNEL.segments) == 0; }
    assert MembersSpent(b, [MEMBER]) == MembersSpent(Spent(b, KERNEL), []);
  }

  lemma IsInspected()
    ensures Inspect(Source(), OUTER, [MEMBER], false) == Ok(Whole()) && Accepted(Source(), Whole())
  {
    hide ImageValid, MemberShown, EntryOf, MembersSpent, Source, Accepted, Inspect;
    OuterIsValid();
    KernelIsValid();
    KernelIsShown();
    EntryRunsInMain();
    IsAffordable();
    assert MemberValid(Source(), OUTER, MEMBER, false);
    assert CollectionValid(Source(), OUTER, [MEMBER], false, 0x1000);
    InspectExact(Source(), OUTER, [MEMBER], false);
    InspectAccepted(Source(), OUTER, [MEMBER], false);
    assert MemberImages(Source(), [MEMBER]) == [KernelImage()] by { assert MemberImages(Source(), []) == []; }
  }

  //////////////////////////////////////////////////////////////////////////////
  // It is staged
  //////////////////////////////////////////////////////////////////////////////

  lemma IsStaged()
    ensures S.FromInspection(Source(), Whole(), 4096).Ok?
  {
    hide *;
    IsInspected();
    HasSpan();
    S.PlanExact(Source(), Whole(), 4096);
  }

  lemma HasSpan()
    ensures S.PageSizeOk(4096) && S.ArenaSpan(Whole().collection.segments, 4096).Ok?
  {
    hide RoundDown;
    var start := S.Bounds(U64_LIMIT - 1, 0);
    assert S.BoundsFrom([LINKS], S.Bounds(0x1000, 0x1400)) == Ok(S.Bounds(0x1000, 0x2040)) by {
      assert S.BoundsFrom([], S.Bounds(0x1000, 0x2040)) == Ok(S.Bounds(0x1000, 0x2040));
    }
    assert [MAIN, LINKS][1..] == [LINKS];
    assert S.BoundsFrom([MAIN, LINKS], start) == Ok(S.Bounds(0x1000, 0x2040));
    S.Rounded(0x1000, 4096);
    S.Rounded(0x2040 + 4095, 4096);
  }

  //////////////////////////////////////////////////////////////////////////////
  // It is audited
  //////////////////////////////////////////////////////////////////////////////

  function Relocation(): F.Record {
    F.Record(0, 1024, Some(0x1320), Some(800), 4, F.ExecutableMember, F.Classic(F.LocalDynamic, 800, 0, 0, 2, false, false, Some(0)))
  }

  function Audited(): F.State {
    F.State([Relocation()], [], 0, 0, 0, 0, 1, 0)
  }

  ghost predicate OfWhole(env: F.Env) {
    env.source == Source() && env.limits == R.DEFAULT_LIMITS && F.EnvOf(Source(), R.DEFAULT_LIMITS, Whole()) == Ok(env) && T.EnvOk(env, [MAIN, LINKS])
  }

  /** The words the audit reads: the two of the record, and the zero it patches. */
  lemma WordsRead()
    ensures F.ReadWord(Source(), 1024, 4) == Ok(800) && F.ReadWord(Source(), 1028, 4) == Ok(0x400_0000) && F.ReadWord(Source(), 800, 4) == Ok(0)
  {
    hide Le, Zeros;
    assert Source()[1024..1028] == [0x20, 0x03, 0, 0];
    assert Source()[1028..1032] == [0, 0, 0, 0x04];
    assert Source()[800..804] == [0, 0, 0, 0];
    FourBytes(0x20, 0x03, 0, 0);
    FourBytes(0, 0, 0, 0x04);
    FourBytes(0, 0, 0, 0);
  }

  lemma FourBytes(a: byte, b: byte, c: byte, d: byte)
    ensures Le([a, b, c, d]) == a + 256 * b + 0x1_0000 * c + 0x100_0000 * d
  {
    assert [a, b, c, d][1..] == [b, c, d] && [b, c, d][1..] == [c, d] && [c, d][1..] == [d] && [d][1..] == [];
    assert Le([]) == 0;
    assert Le([d]) == d;
    assert Le([c, d]) == c + 256 * d;
    assert Le([b, c, d]) == b + 256 * (c + 256 * d);
  }

  lemma EnvParts(env: F.Env)
    requires OfWhole(env)
    ensures env.source == Source() && F.Searchable(Source(), [MAIN, LINKS]) && F.Searched([MAIN, LINKS], env.outer)
    ensures F.EnvOf(Source(), R.DEFAULT_LIMITS, Whole()) == Ok(env) && env.limits == R.DEFAULT_LIMITS
  {
    hide F.Searchable, F.Searched, F.EnvOf, Source;
  }

  lemma LocationIs(maps: seq<F.Mapping>)
    requires F.Searched([MAIN, LINKS], maps)
    ensures F.FileLocation(maps, 0x1320, 4) == Some(800)
  {
    hide F.Searched, F.FileLocation;
    var segments := [MAIN, LINKS];
    assert segments[0] == MAIN;
    F.FileLocationFinds(segments, maps, 0, 0x1320, 4);
  }

  /** The patched word is in the first segment, and in the kernel, the only member. */
  lemma WordPlaced(env: F.Env)
    requires OfWhole(env)
    ensures F.Mappings([MAIN, LINKS]).Ok? && F.FileLocation(F.Mappings([MAIN, LINKS]).value, 0x1320, 4) == Some(800)
    ensures F.FileLocation(env.outer, 0x1320, 4) == Some(800) && F.OverlapOf(env, Some(0x1320), 4) == F.ExecutableMember
  {
    hide *;
    IsInspected();
    EnvParts(env);
    F.MappingsHold(Source(), [MAIN, LINKS]);
    LocationIs(F.Mappings([MAIN, LINKS]).value);
    LocationIs(env.outer);
    OverlapIs(env);
  }

  lemma OverlapIs(env: F.Env)
    requires Accepted(Source(), Whole()) && F.EnvOf(Source(), R.DEFAULT_LIMITS, Whole()) == Ok(env)
    ensures F.OverlapOf(env, Some(0x1320), 4) == F.ExecutableMember
  {
    hide Accepted, F.EnvOf, F.OverlapOf, Source, F.KindSpans, Whole;
    Members();
    T.MemberOverlapExact(Source(), R.DEFAULT_LIMITS, Whole(), 0x1320, 4);
  }

  lemma Members()
    ensures AnyMeets(F.KindSpans(Whole().members, 2), Span(0x1320, 0x1324)) && !AnyMeets(F.KindSpans(Whole().members, 11), Span(0x1320, 0x1324))
  {
    assert F.KindSpans([], 2) == [] && F.KindSpans([], 11) == [];
    assert AddressSpans([CODE]) == [AddressSpan(CODE)] by { assert AddressSpans([]) == []; }
    assert F.KindSpans([KernelImage()], 2) == [AddressSpan(CODE)];
    assert F.KindSpans([KernelImage()], 11) == [];
    assert Meet(F.KindSpans(Whole().members, 2)[0], Span(0x1320, 0x1324));
  }

  function LocalTable(): F.ClassicContext
    requires F.Mappings([MAIN, LINKS]).Ok?
  {
    F.ClassicContext(0, None, F.Mappings([MAIN, LINKS]).value, F.LocalDynamic, Records(1024, 1), Some(0x1000))
  }

  lemma RelocationIs(env: F.Env, c: F.ClassicContext)
    requires c.image == 0 && c.table == F.LocalDynamic && c.base == Some(0x1000)
    requires F.FileLocation(c.maps, 0x1320, 4) == Some(800) && F.FileLocation(env.outer, 0x1320, 4) == Some(800)
    requires F.OverlapOf(env, Some(0x1320), 4) == F.ExecutableMember && F.ReadWord(env.source, 800, 4) == Ok(0)
    ensures F.ClassicRecord(env, c, 1024, 800, 0x400_0000) == Ok(Relocation())
  {
    hide F.FileLocation, F.OverlapOf, F.ReadWord;
    assert F.ClassicAddress(Some(0x1000), 800) == Some(0x1320);
    assert F.ClassicFile(env, c.maps, Some(0x1320), 4) == Some(800);
  }

  lemma RelocationIsClean(c: F.ClassicContext)
    requires c.sectionSize.None? && c.table == F.LocalDynamic && c.base == Some(0x1000)
    ensures F.ClassicCodes(c, Relocation()) == []
  {
  }

  lemma RelocationAdded(env: F.Env, c: F.ClassicContext)
    requires env.limits == R.DEFAULT_LIMITS && c.image == 0 && c.records == Records(1024, 1)
    requires F.ReadWord(env.source, 1024, 4) == Ok(800) && F.ReadWord(env.source, 1028, 4) == Ok(0x400_0000)
    requires F.ClassicRecord(env, c, 1024, 800, 0x400_0000) == Ok(Relocation()) && F.ClassicCodes(c, Relocation()) == []
    ensures F.ClassicStep(env, F.NO_RECORDS, c, 0) == Ok(Audited())
  {
    hide F.ReadWord, F.ClassicRecord, F.ClassicCodes, F.AddIssues;
    NothingAdded(env, Audited());
    assert F.NO_RECORDS.records + [Relocation()] == [Relocation()];
    assert F.AddRecord(env, F.NO_RECORDS, Relocation()) == Ok(F.State([Relocation()], [], 0, 0, 0, 0, 0, 0));
  }

  lemma NothingAdded(env: F.Env, st: F.State)
    ensures F.AddIssues(env, st, 0, Some(0), []) == Ok(st)
  {
  }

  lemma RelocationRecorded(env: F.Env)
    requires OfWhole(env)
    ensures F.Mappings([MAIN, LINKS]).Ok? && F.ClassicStep(env, F.NO_RECORDS, LocalTable(), 0) == Ok(Audited())
  {
    hide F.FileLocation, F.Mappings, F.OverlapOf, F.ReadWord, F.ClassicRecord, F.ClassicCodes, F.ClassicStep, Relocation, OfWhole, Source, Audited;
    EnvParts(env);
    WordPlaced(env);
    WordsRead();
    RelocationIs(env, LocalTable());
    RelocationIsClean(LocalTable());
    RelocationAdded(env, LocalTable());
  }

  lemma OuterAudited(env: F.Env)
    requires OfWhole(env)
    ensures F.AuditImage(env, F.NO_RECORDS, 0, OuterImage()) == Ok(Audited())
  {
    RelocationRecorded(env);
    hide F.Mappings, F.ClassicStep, OfWhole, Audited, Source, Relocation;
    var c := LocalTable();
    assert F.ClassicFrom(env, Audited(), c, 1) == Ok(Audited());
    assert F.ClassicFrom(env, F.NO_RECORDS, c, 0) == Ok(Audited());
    BaseIsMain();
    NoSections();
    assert F.DynamicTables(env, F.NO_RECORDS, 0, OuterImage(), F.Mappings([MAIN, LINKS]).value) == Ok(Audited());
  }

  lemma BaseIsMain()
    ensures F.ClassicBase(OuterImage()) == Some(0x1000)
  {
  }

  lemma NoSections()
    ensures F.AllSections([MAIN, LINKS]) == [] && F.AllSections([CODE]) == []
  {
    assert F.AllSections([]) == [];
    assert [MAIN, LINKS][1..] == [LINKS] && F.AllSections([LINKS]) == [];
  }

  lemma KernelAudited(env: F.Env)
    requires OfWhole(env)
    ensures F.AuditMembers(env, Audited(), [KernelImage()], 0) == Ok(Audited())
  {
    hide F.Mappings, OfWhole, Audited, Source, F.Searchable;
    NoSections();
    KernelSearchable();
    F.MappingsHold(Source(), [CODE]);
    assert F.AuditImage(env, Audited(), 1, KernelImage()) == Ok(Audited());
    assert F.AuditMembers(env, Audited(), [KernelImage()], 1) == Ok(Audited());
  }

  lemma KernelSearchable()
    ensures F.Searchable(Source(), [CODE])
  {
    hide Source;
  }

  lemma NothingOverlaps(env: F.Env)
    ensures F.AuditOverlaps(env, Audited()) == Ok(Audited())
  {
    var w := F.WriteOf(Relocation(), 0);
    assert F.WritesFrom([Relocation()], 1) == [];
    assert F.WritesFrom([Relocation()], 0) == [w];
    assert Sort([], O.Address) == [];
    assert F.OrderedWrites([Relocation()]) == [w];
    OneWrite(w);
    hide F.OrderedWrites, O.Sweep;
  }

  lemma OneWrite(w: O.Write)
    requires w.address < w.end
    ensures O.Sweep([w]) == []
  {
    hide O.Sweep;
    O.SilentIffDisjoint([w]);
  }

  lemma IsAudited()
    ensures F.Audit(Source(), R.DEFAULT_LIMITS, Whole()) == Ok(Audited())
  {
    hide *;
    IsInspected();
    R.DefaultLimits();
    T.EnvHolds(Source(), R.DEFAULT_LIMITS, Whole());
    var env := F.EnvOf(Source(), R.DEFAULT_LIMITS, Whole()).value;
    WholeEnv(env);
    OuterAudited(env);
    KernelAudited(env);
    NothingOverlaps(env);
    AuditAssembled(env);
  }

  lemma WholeEnv(env: F.Env)
    requires F.EnvOf(Source(), R.DEFAULT_LIMITS, Whole()) == Ok(env) && env.source == Source() && env.limits == R.DEFAULT_LIMITS
    requires T.EnvOk(env, Whole().collection.segments)
    ensures OfWhole(env)
  {
    hide F.EnvOf, T.EnvOk, Source;
  }

  lemma AuditAssembled(env: F.Env)
    requires F.LimitsOk(R.DEFAULT_LIMITS) && F.EnvOf(Source(), R.DEFAULT_LIMITS, Whole()) == Ok(env)
    requires F.AuditImage(env, F.NO_RECORDS, 0, OuterImage()) == Ok(Audited())
    requires F.AuditMembers(env, Audited(), [KernelImage()], 0) == Ok(Audited())
    requires F.AuditOverlaps(env, Audited()) == Ok(Audited())
    ensures F.Audit(Source(), R.DEFAULT_LIMITS, Whole()) == Ok(Audited())
  {
    hide F.EnvOf, F.AuditImage, F.AuditMembers, F.AuditOverlaps, Source, Audited, OuterImage, KernelImage;
  }

  //////////////////////////////////////////////////////////////////////////////
  // It is rebased
  //////////////////////////////////////////////////////////////////////////////

  lemma OneKernel()
    ensures R.Executables(Whole().members) == [KernelImage()]
  {
    assert R.Executables([]) == [];
  }

  lemma RelocationIsAcceptable(c: R.Context)
    requires c.kernel == KernelImage() && c.images == [OuterImage(), KernelImage()]
    ensures R.Acceptable(c, Relocation())
  {
    assert c.kernel.segments[0] == CODE && R.MapsTo(c.kernel.segments[0], 0x1320, 800, 4);
  }

  /** The small collection passes the inspector and has a plan for every slide. */
  lemma IsRebased(slide: u32)
    ensures Inspect(Source(), OUTER, [MEMBER], false) == Ok(Whole()) && R.PlanRebase(Source(), Whole(), slide).Ok?
  {
    hide *;
    IsInspected();
    IsStaged();
    IsAudited();
    OneKernel();
    RecordsAreAcceptable(slide);
    R.PlanRebaseExact(Source(), Whole(), slide);
  }

  lemma RecordsAreAcceptable(slide: u32)
    requires S.FromInspection(Source(), Whole(), 4096).Ok? && F.Audit(Source(), R.DEFAULT_LIMITS, Whole()) == Ok(Audited())
    requires R.Executables(Whole().members) == [KernelImage()]
    ensures R.Plannable(Source(), Whole()) && R.RecordsAcceptable(Source(), Whole(), slide)
  {
    RelocationIsAcceptable(R.ContextAt(Source(), Whole(), slide));
    hide S.FromInspection, F.Audit, R.Executables, Source, R.Acceptable;
  }
}
